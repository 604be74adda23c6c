/** A limit has two copies, one in the cache and one in Redis, and three calls that write them: SetQuota and
    DeleteSubject
    write the cache first and Redis second, GetQuota copies from Redis to a cache that has none. Nothing is held in
    between, a write to Redis may fail, and nobody makes up for it. This is what concurrent calls make of the two copies. */
module LimitWriteThrough {
  import opened Options
  import opened QuotaDomain
  import opened CacheTables

  datatype Request = SetQuota(quota: QuotaEntry) | DeleteSubject | GetQuota

  /** A look-up: `Missed` found nothing in the cache, `Fetched` has read a limit from Redis and will cache it. */
  datatype Progress = Looking | Missed | Fetched(quota: QuotaEntry)

  /** A call in flight. SetQuota writes a limit and DeleteSubject the lack of one; once it has written the cache it owes
      Redis its write. */
  datatype Call =
    | Writing(subject: Subject, limit: Option<QuotaEntry>, cached: bool)
    | Reading(subject: Subject, progress: Progress)

  datatype State = State(limits: LimitTable, stored: LimitTable, calls: map<nat, Call>)

  /** A command to Redis succeeds, or fails with its effect made or not made. */
  datatype Outcome = Done | Failed(effected: bool)

  datatype Action =
    | Begin(h: nat, subject: Subject, request: Request)
    | WriteCache(h: nat)
    | WriteStore(h: nat, outcome: Outcome)
    | Look(h: nat)
    | Fetch(h: nat, outcome: Outcome)
    | Fill(h: nat)

  function Limit(table: LimitTable, s: Subject): Option<QuotaEntry> {
    if s in table then Some(table[s]) else None
  }

  function WithLimit(table: LimitTable, s: Subject, limit: Option<QuotaEntry>): LimitTable {
    if limit.Some? then table[s := limit.value] else table - {s}
  }

  /** What a call writes, if it writes: a limit, or the lack of one. */
  function Intended(call: Call): Option<QuotaEntry> {
    match call
    case Writing(_, limit, _) => limit
    case Reading(_, progress) => if progress.Fetched? then Some(progress.quota) else None
  }

  predicate Enabled(st: State, a: Action) {
    if a.Begin? then a.h !in st.calls
    else
      a.h in st.calls &&
      var call := st.calls[a.h];
      match a
      case WriteCache(_) => call.Writing? && !call.cached
      case WriteStore(_, _) => call.Writing? && call.cached
      case Look(_) => call.Reading? && call.progress.Looking?
      case Fetch(_, _) => call.Reading? && call.progress.Missed?
      case Fill(_) => call.Reading? && call.progress.Fetched?
      case Begin(_, _, _) => true
  }

  function Begun(subject: Subject, request: Request): Call {
    match request
    case SetQuota(quota) => Writing(subject, Some(quota), false)
    case DeleteSubject => Writing(subject, None, false)
    case GetQuota => Reading(subject, Looking)
  }

  function DoLook(st: State, h: nat): State
    requires Enabled(st, Look(h))
  {
    st.(calls := if st.calls[h].subject in st.limits then st.calls - {h}
                 else st.calls[h := Reading(st.calls[h].subject, Missed)])
  }

  /** An error or a missing limit ends the call. */
  function DoFetch(st: State, h: nat, outcome: Outcome): State
    requires Enabled(st, Fetch(h, outcome))
  {
    var s := st.calls[h].subject;
    st.(calls := if outcome.Done? && s in st.stored then st.calls[h := Reading(s, Fetched(st.stored[s]))]
                 else st.calls - {h})
  }

  function DoWriteStore(st: State, h: nat, outcome: Outcome): State
    requires Enabled(st, WriteStore(h, outcome))
  {
    var call := st.calls[h];
    st.(stored := if outcome.Done? || outcome.effected then WithLimit(st.stored, call.subject, Intended(call)) else st.stored,
        calls := st.calls - {h})
  }

  function Step(st: State, a: Action): State
    requires Enabled(st, a)
  {
    match a
    case Begin(h, subject, request) => st.(calls := st.calls[h := Begun(subject, request)])
    case WriteCache(h) =>
      var call := st.calls[h];
      st.(limits := WithLimit(st.limits, call.subject, call.limit), calls := st.calls[h := call.(cached := true)])
    case WriteStore(h, outcome) => DoWriteStore(st, h, outcome)
    case Look(h) => DoLook(st, h)
    case Fetch(h, outcome) => DoFetch(st, h, outcome)
    case Fill(h) =>
      var call := st.calls[h];
      st.(limits := WithLimit(st.limits, call.subject, Intended(call)), calls := st.calls - {h})
  }

  ghost predicate Agree(st: State, s: Subject) {
    Limit(st.limits, s) == Limit(st.stored, s)
  }

  ghost predicate Busy(st: State, s: Subject, h: nat) {
    h in st.calls && st.calls[h].subject == s
  }

  ghost predicate Quiet(st: State, s: Subject) {
    forall h :: !Busy(st, s, h)
  }

  // ----- paths without new calls on a subject -----

  ghost predicate Succeeds(a: Action) {
    (a.WriteStore? || a.Fetch?) ==> a.outcome.Done?
  }

  /** The action begins no call on the subject and, if that is asked for, its command to Redis does not fail. */
  ghost predicate GoesOn(a: Action, s: Subject, clean: bool) {
    (a.Begin? ==> a.subject != s) && (clean ==> Succeeds(a))
  }

  ghost predicate Path(states: seq<State>, actions: seq<Action>, s: Subject, clean: bool) {
    && |states| == |actions| + 1
    && forall k :: 0 <= k < |actions| ==>
         Enabled(states[k], actions[k]) && GoesOn(actions[k], s, clean) && states[k + 1] == Step(states[k], actions[k])
  }

  /** Calls in flight can bring one state to the other, without a new call on the subject. */
  ghost predicate Leads(st: State, st': State, s: Subject, clean: bool) {
    exists states, actions :: Path(states, actions, s, clean) && states[0] == st && states[|actions|] == st'
  }

  lemma LeadsHere(st: State, s: Subject, clean: bool)
    ensures Leads(st, st, s, clean)
  {
    var states, actions: seq<Action> := [st], [];
    assert Path(states, actions, s, clean);
  }

  lemma LeadsOn(st: State, a: Action, st': State, s: Subject, clean: bool)
    requires Enabled(st, a) && GoesOn(a, s, clean) && Leads(Step(st, a), st', s, clean)
    ensures Leads(st, st', s, clean)
  {
    var rest, actions :| Path(rest, actions, s, clean) && rest[0] == Step(st, a) && rest[|actions|] == st';
    var states', actions' := [st] + rest, [a] + actions;
    forall k | 0 <= k < |actions'|
      ensures Enabled(states'[k], actions'[k]) && GoesOn(actions'[k], s, clean)
        && states'[k + 1] == Step(states'[k], actions'[k])
    {
      if k > 0 {
        assert states'[k] == rest[k - 1] && actions'[k] == actions[k - 1] && states'[k + 1] == rest[k - 1 + 1];
      }
    }
    assert Path(states', actions', s, clean) && states'[0] == st && states'[|actions'|] == st';
  }

  lemma {:induction false} LeadsTogether(states: seq<State>, actions: seq<Action>, st': State, s: Subject, clean: bool)
    requires Path(states, actions, s, clean) && Leads(states[|actions|], st', s, clean)
    ensures Leads(states[0], st', s, clean)
    decreases |actions|
  {
    if actions != [] {
      var rest, more := states[1..], actions[1..];
      forall k | 0 <= k < |more|
        ensures Enabled(rest[k], more[k]) && GoesOn(more[k], s, clean) && rest[k + 1] == Step(rest[k], more[k])
      {
        assert more[k] == actions[k + 1] && rest[k] == states[k + 1] && rest[k + 1] == states[k + 1 + 1];
      }
      LeadsTogether(rest, more, st', s, clean);
      assert Enabled(states[0], actions[0]) && GoesOn(actions[0], s, clean)
        && states[0 + 1] == Step(states[0], actions[0]);
      LeadsOn(states[0], actions[0], st', s, clean);
    }
  }

  lemma LeadsThrough(st: State, mid: State, st': State, s: Subject, clean: bool)
    requires Leads(st, mid, s, clean) && Leads(mid, st', s, clean)
    ensures Leads(st, st', s, clean)
  {
    var states, actions :| Path(states, actions, s, clean) && states[0] == st && states[|actions|] == mid;
    LeadsTogether(states, actions, st', s, clean);
  }

  // ----- what the last write leaves -----

  /** What the action makes of the stored limit, if it touches it. */
  ghost function Reaches(st: State, a: Action, s: Subject): Option<Option<QuotaEntry>>
    requires Enabled(st, a)
  {
    if a.WriteStore? && st.calls[a.h].subject == s
      && (a.outcome.Done? || a.outcome.effected) then Some(Intended(st.calls[a.h]))
    else None
  }

  /** What the last write that reached Redis put there, or what was there before all of them. */
  ghost function LastReached(states: seq<State>, actions: seq<Action>, s: Subject): Option<QuotaEntry>
    requires Path(states, actions, s, false)
  {
    var n := |actions| - 1;
    if actions == [] then Limit(states[0].stored, s)
    else if Reaches(states[n], actions[n], s).Some? then Reaches(states[n], actions[n], s).value
    else LastReached(states[..n + 1], actions[..n], s)
  }

  /** The copies agree at the end exactly when the last write that reached Redis carries the cached limit or, if none
      did, the limit stored all along is the cached one. */
  lemma {:induction false} LastWriteWins(states: seq<State>, actions: seq<Action>, s: Subject)
    requires Path(states, actions, s, false)
    ensures Limit(states[|actions|].stored, s) == LastReached(states, actions, s)
    ensures Agree(states[|actions|], s) <==> Limit(states[|actions|].limits, s) == LastReached(states, actions, s)
    decreases |actions|
  {
    if actions != [] {
      var n := |actions| - 1;
      LastWriteWins(states[..n + 1], actions[..n], s);
      assert Enabled(states[n], actions[n]) && states[n + 1] == Step(states[n], actions[n]);
    }
  }

  // ----- when the copies agree in the end -----

  /** The call has yet to write the cache. */
  ghost predicate WillCache(call: Call) {
    if call.Writing? then !call.cached else call.progress.Fetched?
  }

  /** The call carries a limit, or the lack of one, to a copy. */
  ghost predicate Carries(call: Call) {
    call.Writing? || call.progress.Fetched?
  }

  /** Every call in flight carries what Redis holds, and the cache holds it too or is about to be written. */
  ghost predicate Settled(st: State, s: Subject) {
    && (forall h :: Busy(st, s, h) && Carries(st.calls[h]) ==> Intended(st.calls[h]) == Limit(st.stored, s))
    && (Agree(st, s) || exists h :: Busy(st, s, h) && WillCache(st.calls[h]))
  }

  /** However the calls in flight go on, and whichever of their commands to Redis fail, the copies agree once the
      subject is quiet. */
  ghost predicate AgreesInTheEnd(st: State, s: Subject) {
    forall st' :: Leads(st, st', s, false) && Quiet(st', s) ==> Agree(st', s)
  }

  lemma SettledStep(st: State, a: Action, s: Subject)
    requires Settled(st, s) && Enabled(st, a) && (a.Begin? ==> a.subject != s)
    ensures Settled(Step(st, a), s)
  {
    var st' := Step(st, a);
    assert forall h :: h != a.h ==>
      (Busy(st', s, h) <==> Busy(st, s, h)) && (Busy(st, s, h) ==> st'.calls[h] == st.calls[h]);
    StoredStays(st, a, s);
    if !Busy(st, s, a.h) {
      OthersStay(st, a, s);
    } else if WillCache(st.calls[a.h]) {
      assert Agree(st', s);
    } else if !Agree(st, s) {
      var h :| Busy(st, s, h) && WillCache(st.calls[h]);
      assert Busy(st', s, h) && st'.calls[h] == st.calls[h];
    }
  }

  lemma StoredStays(st: State, a: Action, s: Subject)
    requires Settled(st, s) && Enabled(st, a)
    ensures Limit(Step(st, a).stored, s) == Limit(st.stored, s)
  {
    if a.WriteStore? && Busy(st, s, a.h) {
      assert Carries(st.calls[a.h]);
    }
  }

  /** A step of a call on another subject does not touch this one. */
  lemma OthersStay(st: State, a: Action, s: Subject)
    requires Enabled(st, a) && (a.Begin? ==> a.subject != s) && !Busy(st, s, a.h)
    ensures var st' := Step(st, a);
            && Limit(st'.limits, s) == Limit(st.limits, s) && Limit(st'.stored, s) == Limit(st.stored, s)
            && forall h :: (Busy(st', s, h) <==> Busy(st, s, h)) && (Busy(st, s, h) ==> st'.calls[h] == st.calls[h])
  {
  }

  lemma {:induction false} SettledPath(states: seq<State>, actions: seq<Action>, s: Subject)
    requires Path(states, actions, s, false) && Settled(states[0], s)
    ensures Settled(states[|actions|], s)
    decreases |actions|
  {
    if actions != [] {
      var n := |actions| - 1;
      SettledPath(states[..n + 1], actions[..n], s);
      assert Enabled(states[n], actions[n]) && GoesOn(actions[n], s, false)
        && states[n + 1] == Step(states[n], actions[n]);
      SettledStep(states[n], actions[n], s);
    }
  }

  /** One call runs to its end, and every command it still has to send fails. */
  lemma FinishFailing(st: State, s: Subject, h: nat) returns (st': State)
    requires Busy(st, s, h)
    ensures Leads(st, st', s, false) && st'.calls == st.calls - {h} && st'.stored == st.stored
    ensures Limit(st'.limits, s) == if WillCache(st.calls[h]) then Intended(st.calls[h]) else Limit(st.limits, s)
  {
    var call := st.calls[h];
    match call {
      case Writing(_, _, cached) =>
        var mid := if cached then st else Step(st, WriteCache(h));
        st' := Step(mid, WriteStore(h, Failed(false)));
        LeadsHere(st', s, false);
        LeadsOn(mid, WriteStore(h, Failed(false)), st', s, false);
        if !cached { LeadsOn(st, WriteCache(h), st', s, false); }
      case Reading(_, progress) =>
        var first := if progress.Looking? then Look(h) else if progress.Missed? then Fetch(h, Failed(false)) else Fill(h);
        var mid := Step(st, first);
        if h in mid.calls {
          st' := Step(mid, Fetch(h, Failed(false)));
          LeadsHere(st', s, false);
          LeadsOn(mid, Fetch(h, Failed(false)), st', s, false);
        } else {
          st' := mid;
          LeadsHere(st', s, false);
        }
        LeadsOn(st, first, st', s, false);
    }
    assert st'.calls == st.calls - {h};
  }

  /** All calls on the subject but one run to their ends, and all their commands to Redis fail. */
  lemma {:induction false} DrainFailing(st: State, s: Subject, keep: Option<nat>) returns (st': State)
    ensures Leads(st, st', s, false) && st'.stored == st.stored
    ensures forall h: nat :: Busy(st', s, h) <==> Busy(st, s, h) && keep == Some(h)
    ensures forall h: nat :: Busy(st', s, h) ==> h in st.calls && st'.calls[h] == st.calls[h]
    ensures (forall h: nat :: Busy(st, s, h) && keep != Some(h) ==> !WillCache(st.calls[h])) ==>
              Limit(st'.limits, s) == Limit(st.limits, s)
    decreases |st.calls|
  {
    if h :| Busy(st, s, h) && keep != Some(h) {
      var mid := FinishFailing(st, s, h);
      assert st.calls.Keys == mid.calls.Keys + {h};
      st' := DrainFailing(mid, s, keep);
      LeadsThrough(st, mid, st', s, false);
      assert forall g :: Busy(mid, s, g) <==> Busy(st, s, g) && g != h;
    } else {
      st' := st;
      LeadsHere(st, s, false);
    }
  }

  /** A call that carries something else than Redis holds can leave the copies apart. */
  lemma OddOneOut(st: State, s: Subject, h: nat) returns (st': State)
    requires Busy(st, s, h) && Carries(st.calls[h]) && Intended(st.calls[h]) != Limit(st.stored, s)
    ensures Leads(st, st', s, false) && Quiet(st', s) && !Agree(st', s)
  {
    var mid := DrainFailing(st, s, Some(h));
    assert Busy(mid, s, h) && mid.calls[h] == st.calls[h];
    if WillCache(st.calls[h]) || !Agree(mid, s) {
      st' := FinishFailing(mid, s, h);
    } else {
      st' := Step(mid, WriteStore(h, Done));
      LeadsHere(st', s, false);
      LeadsOn(mid, WriteStore(h, Done), st', s, false);
    }
    LeadsThrough(st, mid, st', s, false);
  }

  /** The copies are bound to agree exactly when the subject is settled. */
  lemma AgreesInTheEndIff(st: State, s: Subject)
    ensures AgreesInTheEnd(st, s) <==> Settled(st, s)
  {
    if Settled(st, s) {
      forall st' | Leads(st, st', s, false) && Quiet(st', s) ensures Agree(st', s) {
        var states, actions :| Path(states, actions, s, false) && states[0] == st && states[|actions|] == st';
        SettledPath(states, actions, s);
      }
    } else {
      var st';
      if h :| Busy(st, s, h) && Carries(st.calls[h]) && Intended(st.calls[h]) != Limit(st.stored, s) {
        st' := OddOneOut(st, s, h);
      } else {
        st' := DrainFailing(st, s, None);
      }
      assert Leads(st, st', s, false) && Quiet(st', s) && !Agree(st', s);
    }
  }

  // ----- runs -----

  /** A load may have skipped limits that it could not read. */
  ghost predicate Run(states: seq<State>, actions: seq<Action>) {
    && |states| == |actions| + 1
    && states[0].calls == map[]
    && (forall s :: s in states[0].limits ==> Agree(states[0], s))
    && forall k :: 0 <= k < |actions| ==> Enabled(states[k], actions[k]) && states[k + 1] == Step(states[k], actions[k])
  }

  /** A call on the subject begins only when no other one is in flight. */
  ghost predicate OneAtATime(states: seq<State>, actions: seq<Action>, s: Subject)
    requires Run(states, actions)
  {
    forall k :: 0 <= k < |actions| && actions[k].Begin? && actions[k].subject == s ==> Quiet(states[k], s)
  }

  /** Every write of the subject's limit took effect in Redis. */
  ghost predicate AllWritten(states: seq<State>, actions: seq<Action>, s: Subject)
    requires Run(states, actions)
  {
    forall k :: 0 <= k < |actions| && actions[k].WriteStore? && states[k].calls[actions[k].h].subject == s ==>
      actions[k].outcome.Done? || actions[k].outcome.effected
  }

  /** The copies agree, unless the cache has none and may have skipped it at the load. */
  ghost predicate Faithful(st: State, s: Subject, loaded: bool) {
    Agree(st, s) || (!loaded && s !in st.limits)
  }

  /** Where the one call in flight has left the copies. */
  ghost predicate LeftBy(st: State, s: Subject, call: Call, loaded: bool) {
    match call
    case Writing(_, limit, cached) => if cached then Limit(st.limits, s) == limit else Faithful(st, s, loaded)
    case Reading(_, progress) =>
      if progress.Fetched? then Limit(st.stored, s) == Some(progress.quota) else Faithful(st, s, loaded)
  }

  ghost predicate InTurn(st: State, s: Subject, loaded: bool) {
    && (forall g, h :: Busy(st, s, g) && Busy(st, s, h) ==> g == h)
    && (forall h :: Busy(st, s, h) ==> LeftBy(st, s, st.calls[h], loaded))
    && (Quiet(st, s) ==> Faithful(st, s, loaded))
  }

  lemma TurnStep(st: State, a: Action, s: Subject, loaded: bool)
    requires Enabled(st, a) && InTurn(st, s, loaded)
    requires a.Begin? && a.subject == s ==> Quiet(st, s)
    requires a.WriteStore? && st.calls[a.h].subject == s ==> a.outcome.Done? || a.outcome.effected
    ensures InTurn(Step(st, a), s, loaded)
  {
    var st' := Step(st, a);
    if a.Begin? && a.subject == s {
      assert forall h :: h != a.h ==> (Busy(st', s, h) <==> Busy(st, s, h));
      assert Busy(st', s, a.h);
    } else if Busy(st, s, a.h) {
      assert forall h :: h != a.h ==> (Busy(st', s, h) <==> Busy(st, s, h));
      OwnTurn(st, a, s, loaded);
    } else {
      OthersStay(st, a, s);
      assert Quiet(st', s) ==> Quiet(st, s);
    }
  }

  /** The next step of the one call in flight. */
  lemma OwnTurn(st: State, a: Action, s: Subject, loaded: bool)
    requires Enabled(st, a) && !a.Begin? && Busy(st, s, a.h) && LeftBy(st, s, st.calls[a.h], loaded)
    requires a.WriteStore? ==> a.outcome.Done? || a.outcome.effected
    ensures var st' := Step(st, a);
            if Busy(st', s, a.h) then LeftBy(st', s, st'.calls[a.h], loaded) else Faithful(st', s, loaded)
  {
  }

  /** If calls on a subject take turns and their writes reach Redis, its copies agree whenever none is in flight; only a
      limit that the load skipped may be missing from the cache. */
  lemma {:induction false} TurnsKeepAgreement(states: seq<State>, actions: seq<Action>, s: Subject, k: nat)
    requires Run(states, actions) && OneAtATime(states, actions, s) && AllWritten(states, actions, s) && k < |states|
    ensures InTurn(states[k], s, Agree(states[0], s))
    ensures Quiet(states[k], s) ==> Agree(states[k], s) || (!Agree(states[0], s) && s !in states[k].limits)
  {
    if k > 0 {
      TurnsKeepAgreement(states, actions, s, k - 1);
      assert Enabled(states[k - 1], actions[k - 1]) && states[k - 1 + 1] == Step(states[k - 1], actions[k - 1]);
      TurnStep(states[k - 1], actions[k - 1], s, Agree(states[0], s));
    }
  }

  // ----- calls that run alone -----

  /** A call alone, with commands that succeed: SetQuota leaves the limit in both copies, DeleteSubject in neither. */
  lemma WritesAlone(st: State, h: nat, s: Subject, quota: QuotaEntry)
    requires h !in st.calls
    ensures Step(Step(Step(st, Begin(h, s, SetQuota(quota))), WriteCache(h)), WriteStore(h, Done))
            == State(st.limits[s := quota], st.stored[s := quota], st.calls)
    ensures Step(Step(Step(st, Begin(h, s, DeleteSubject)), WriteCache(h)), WriteStore(h, Done))
            == State(st.limits - {s}, st.stored - {s}, st.calls)
  {
    assert st.calls[h := Writing(s, Some(quota), false)][h := Writing(s, Some(quota), true)] - {h} == st.calls;
    assert st.calls[h := Writing(s, None, false)][h := Writing(s, None, true)] - {h} == st.calls;
  }

  /** GetQuota alone leaves the cache alone if it has a limit, and otherwise fills it with what Redis has. */
  lemma LookUpAlone(st: State, h: nat, s: Subject)
    requires h !in st.calls
    ensures var looked := Step(Step(st, Begin(h, s, GetQuota)), Look(h));
            if s in st.limits then looked == st
            else
              && Enabled(looked, Fetch(h, Done))
              && var fetched := Step(looked, Fetch(h, Done));
                 if s in st.stored then
                   Enabled(fetched, Fill(h)) && Step(fetched, Fill(h)) == st.(limits := st.limits[s := st.stored[s]])
                 else fetched == st
  {
    assert st.calls[h := Reading(s, Looking)] - {h} == st.calls;
    assert st.calls[h := Reading(s, Looking)][h := Reading(s, Missed)] - {h} == st.calls;
    if s in st.stored {
      assert st.calls[h := Reading(s, Looking)][h := Reading(s, Missed)][h := Reading(s, Fetched(st.stored[s]))] - {h}
          == st.calls;
    }
  }

  // ----- runs that leave the copies apart -----

  const NOTHING: State := State(map[], map[], map[])

  /** One call alone, whose write to Redis fails: the cache has the new limit, Redis has none, nobody will retry. */
  lemma FailedWriteDisagrees(s: Subject, quota: QuotaEntry) returns (states: seq<State>, actions: seq<Action>)
    ensures Run(states, actions) && OneAtATime(states, actions, s)
    ensures var end := states[|actions|]; end == State(map[s := quota], map[], map[]) && !Agree(end, s)
  {
    actions := [Begin(0, s, SetQuota(quota)), WriteCache(0), WriteStore(0, Failed(false))];
    var begun := Step(NOTHING, actions[0]);
    var cached := Step(begun, actions[1]);
    states := [NOTHING, begun, cached, Step(cached, actions[2])];
    assert states[3].calls == map[];
  }

  /** Two overlapping calls that succeed, and leave the cache with the second limit and Redis with the first. */
  lemma OverlapCanDisagree(s: Subject, first: QuotaEntry, second: QuotaEntry) returns (st: State)
    requires first != second
    ensures var begun := Step(Step(NOTHING, Begin(0, s, SetQuota(first))), Begin(1, s, SetQuota(second)));
            var cached := Step(Step(begun, WriteCache(0)), WriteCache(1));
            st == Step(Step(cached, WriteStore(1, Done)), WriteStore(0, Done))
    ensures st == State(map[s := second], map[s := first], map[])
  {
    var begun := Step(Step(NOTHING, Begin(0, s, SetQuota(first))), Begin(1, s, SetQuota(second)));
    var cached := Step(Step(begun, WriteCache(0)), WriteCache(1));
    st := Step(Step(cached, WriteStore(1, Done)), WriteStore(0, Done));
    assert st.calls == map[];
  }

  /** A limit that the load skipped: a GetQuota that read it from Redis puts it back over the one set meanwhile. */
  lemma FallBackCanRevert(s: Subject, former: QuotaEntry, latter: QuotaEntry) returns (st: State)
    requires former != latter
    ensures var read := Step(Step(Step(State(map[], map[s := former], map[]), Begin(0, s, GetQuota)), Look(0)), Fetch(0, Done));
            var changed := Step(Step(Step(read, Begin(1, s, SetQuota(latter))), WriteCache(1)), WriteStore(1, Done));
            st == Step(changed, Fill(0))
    ensures st == State(map[s := former], map[s := latter], map[])
  {
    var read := Step(Step(Step(State(map[], map[s := former], map[]), Begin(0, s, GetQuota)), Look(0)), Fetch(0, Done));
    var changed := Step(Step(Step(read, Begin(1, s, SetQuota(latter))), WriteCache(1)), WriteStore(1, Done));
    st := Step(changed, Fill(0));
    assert st.calls == map[];
  }
}
