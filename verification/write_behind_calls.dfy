/** What single calls do in the concurrent model: run alone they are the cache's operations, a limit that has been set
    decides the reservations that come to read it, and every call can always go on. */
module WriteBehindCalls {
  import opened Options
  import opened QuotaDomain
  import opened QuotaLedger
  import opened CacheTables
  import opened WriteBehind

  // ----- calls that run alone -----

  /** The steps of a reservation, run without interruption, are the reservation as one call: it is decided by the limit
      that is set, or else by the default, and only a granted one changes and marks the usage. */
  lemma ReservationAlone(st: State, h: nat, s: Subject, delta: ResourceDelta, default: QuotaEntry)
    requires !InFlight(st, h)
    ensures var limit := if s in st.limits then st.limits[s] else default;
            var used := UsageOf(st.usage, s);
            var done := DoAccess(DoReadLimit(DoBegin(st, h, Reserve(s, delta, default)), h), h);
            var allowed := forall dim: Dimension :: Fits(used, limit, delta, dim);
            && done.limits == st.limits && done.stored == st.stored && done.flush == st.flush
            && done.usage == st.usage[s := if allowed then used.Apply(delta) else used]
            && Enabled(done, Mark(h)) == allowed
            && (allowed ==> DoMark(done, h).dirty == st.dirty + {s} && DoMark(done, h).handlers == st.handlers)
            && (!allowed ==> done.dirty == st.dirty && done.handlers == st.handlers)
  {
    var ready := DoReadLimit(DoBegin(st, h, Reserve(s, delta, default)), h);
    var done := DoAccess(ready, h);
    VerdictIff(st.usage, st.limits, s, default, delta);
    assert done.handlers - {h} == st.handlers;
  }

  lemma UpdateAlone(st: State, h: nat, s: Subject, delta: ResourceDelta)
    requires !InFlight(st, h)
    ensures var done := DoMark(DoAccess(DoBegin(st, h, Update(s, delta)), h), h);
            && done.usage == st.usage[s := UsageOf(st.usage, s).Apply(delta)] && done.dirty == st.dirty + {s}
            && done.limits == st.limits && done.stored == st.stored && done.flush == st.flush
            && done.handlers == st.handlers
  {
    var done := DoMark(DoAccess(DoBegin(st, h, Update(s, delta)), h), h);
    assert done.handlers == st.handlers;
  }

  lemma SetLimitAlone(st: State, h: nat, s: Subject, quota: QuotaEntry)
    requires !InFlight(st, h)
    ensures var done := DoInsertLimit(DoBegin(st, h, SetLimit(s, quota)), h);
            && done.limits == st.limits[s := quota]
            && done.usage == st.usage && done.dirty == st.dirty && done.stored == st.stored && done.flush == st.flush
            && done.handlers == st.handlers
  {
    var done := DoInsertLimit(DoBegin(st, h, SetLimit(s, quota)), h);
    assert done.handlers == st.handlers;
  }

  /** The three removals that a deletion makes in memory. */
  lemma RemovalsAlone(st: State, h: nat, s: Subject)
    requires !InFlight(st, h)
    ensures var done := DoRemove(DoRemove(DoRemove(DoBegin(st, h, Delete(s)), h), h), h);
            && done.usage == st.usage - {s} && done.limits == st.limits - {s} && done.dirty == st.dirty - {s}
            && done.stored == st.stored && done.flush == st.flush
            && done.handlers == st.handlers[h := Handler(Delete(s), Deleting(3))]
  {
  }

  lemma DeletionAlone(st: State, h: nat, s: Subject)
    requires !InFlight(st, h)
    ensures var forgotten := DoRemove(DoRemove(DoRemove(DoBegin(st, h, Delete(s)), h), h), h);
            && Enabled(forgotten, RemoveStored(h, Written))
            && var done := DoRemoveStored(forgotten, h, Written);
               && done.usage == st.usage - {s} && done.limits == st.limits - {s} && done.dirty == st.dirty - {s}
               && done.stored == st.stored - {s} && done.flush == st.flush && done.handlers == st.handlers
  {
    RemovalsAlone(st, h, s);
    var forgotten := DoRemove(DoRemove(DoRemove(DoBegin(st, h, Delete(s)), h), h), h);
    assert DoRemoveStored(forgotten, h, Written).handlers == st.handlers;
  }

  // ----- limits over runs -----

  /** The step sets or removes the subject's limit. */
  ghost predicate ChangesLimit(st: State, a: Action, s: Subject) {
    (a.InsertLimit? || a.Remove?) && InFlight(st, a.h) && st.handlers[a.h].call.subject == s
  }

  ghost predicate LimitUntouched(states: seq<State>, actions: seq<Action>, m: nat, k: nat, s: Subject)
    requires k <= |actions| < |states|
  {
    forall i :: m <= i < k ==> !ChangesLimit(states[i], actions[i], s)
  }

  /** The limit that is set for the subject, if there is one. */
  function LimitSet(st: State, s: Subject): Option<QuotaEntry> {
    if s in st.limits then Some(st.limits[s]) else None
  }

  lemma LimitStep(st: State, a: Action, s: Subject)
    requires Enabled(st, a) && !ChangesLimit(st, a, s)
    ensures LimitSet(Step(st, a), s) == LimitSet(st, s)
  {
  }

  lemma LimitStaysAt(states: seq<State>, actions: seq<Action>, k: nat, s: Subject)
    requires Run(states, actions) && k < |actions| && !ChangesLimit(states[k], actions[k], s)
    ensures LimitSet(states[k + 1], s) == LimitSet(states[k], s)
  {
    LimitStep(states[k], actions[k], s);
  }

  lemma {:induction false} LimitChain(states: seq<State>, m: nat, k: nat, s: Subject)
    requires m <= k < |states| && forall i :: m <= i < k ==> LimitSet(states[i + 1], s) == LimitSet(states[i], s)
    ensures LimitSet(states[k], s) == LimitSet(states[m], s)
    decreases k - m
  {
    if m < k {
      LimitChain(states, m, k - 1, s);
      assert LimitSet(states[k - 1 + 1], s) == LimitSet(states[k - 1], s);
    }
  }

  lemma LimitStays(states: seq<State>, actions: seq<Action>, m: nat, k: nat, s: Subject)
    requires Run(states, actions) && m <= k < |states| && LimitUntouched(states, actions, m, k, s)
    ensures LimitSet(states[k], s) == LimitSet(states[m], s)
  {
    forall i | m <= i < k ensures LimitSet(states[i + 1], s) == LimitSet(states[i], s) {
      LimitStaysAt(states, actions, i, s);
    }
    LimitChain(states, m, k, s);
  }

  /** Call g does nothing from moment m to moment k. */
  ghost predicate Waits(actions: seq<Action>, m: nat, k: nat, g: nat)
    requires k <= |actions|
  {
    forall i :: m <= i < k ==> actions[i] != Access(g)
  }

  lemma OtherStep(st: State, a: Action, g: nat)
    requires Enabled(st, a) && InFlight(st, g) && st.handlers[g].call.Reserve? && st.handlers[g].progress.LimitRead?
    requires a != Access(g)
    ensures InFlight(Step(st, a), g) && Step(st, a).handlers[g] == st.handlers[g]
  {
  }

  lemma SnapshotStaysAt(states: seq<State>, actions: seq<Action>, k: nat, g: nat)
    requires Run(states, actions) && k < |actions| && actions[k] != Access(g)
    requires InFlight(states[k], g) && states[k].handlers[g].call.Reserve? && states[k].handlers[g].progress.LimitRead?
    ensures InFlight(states[k + 1], g) && states[k + 1].handlers[g] == states[k].handlers[g]
  {
    OtherStep(states[k], actions[k], g);
  }

  /** A reservation that has read its limit keeps it until it gets to the usage entry. */
  lemma {:induction false} SnapshotStays(states: seq<State>, actions: seq<Action>, m: nat, k: nat, g: nat)
    requires Run(states, actions) && m <= k < |states| && Waits(actions, m, k, g)
    requires InFlight(states[m], g) && states[m].handlers[g].call.Reserve? && states[m].handlers[g].progress.LimitRead?
    ensures InFlight(states[k], g) && states[k].handlers[g] == states[m].handlers[g]
    decreases k - m
  {
    if m < k {
      SnapshotStays(states, actions, m, k - 1, g);
      SnapshotStaysAt(states, actions, k - 1, g);
    }
  }

  /** A reservation reads its limit at r and gets to the usage entry at t. It is logged with the limit that was set at r,
      or else with its default, whatever happened to the limit since, and is granted exactly if it fits that limit. */
  lemma ReservationUsesSnapshot(states: seq<State>, actions: seq<Action>, r: nat, t: nat, g: nat)
    requires Run(states, actions) && r < t < |actions| && actions[r] == ReadLimit(g) && actions[t] == Access(g)
    requires Waits(actions, r + 1, t, g)
    ensures Enabled(states[r], ReadLimit(g))
    ensures var Reserve(s, delta, default) := states[r].handlers[g].call;
            var limit := if s in states[r].limits then states[r].limits[s] else default;
            var granted := forall dim: Dimension :: Fits(UsageOf(states[t].usage, s), limit, delta, dim);
            LogOf(states[t + 1], s) == LogOf(states[t], s) + [Checked(delta, limit, granted)]
  {
    assert Enabled(states[r], actions[r]) && states[r + 1] == Step(states[r], actions[r]);
    assert Enabled(states[t], actions[t]) && states[t + 1] == Step(states[t], actions[t]);
    SnapshotStays(states, actions, r + 1, t, g);
    var Reserve(s, delta, default) := states[r].handlers[g].call;
    var limit := if s in states[r].limits then states[r].limits[s] else default;
    assert states[t].handlers[g] == Handler(Reserve(s, delta, default), LimitRead(limit));
    AdmittedIffFits(UsageOf(states[t].usage, s), limit, delta);
  }

  /** Once a limit has been set, and until it is set again or the subject deleted, every reservation that comes to read
      the limit is logged with it, whatever its default. */
  lemma SetLimitDecides(states: seq<State>, actions: seq<Action>, m: nat, h: nat, r: nat, t: nat, g: nat)
    requires Run(states, actions) && m < r < t < |actions|
    requires actions[m] == InsertLimit(h) && actions[r] == ReadLimit(g) && actions[t] == Access(g)
    requires Waits(actions, r + 1, t, g)
    requires Enabled(states[m], actions[m]) && Enabled(states[r], actions[r])
    requires states[m].handlers[h].call.subject == states[r].handlers[g].call.subject
    requires LimitUntouched(states, actions, m + 1, r, states[m].handlers[h].call.subject)
    ensures var SetLimit(s, quota) := states[m].handlers[h].call;
            var delta := states[r].handlers[g].call.delta;
            var granted := forall dim: Dimension :: Fits(UsageOf(states[t].usage, s), quota, delta, dim);
            LogOf(states[t + 1], s) == LogOf(states[t], s) + [Checked(delta, quota, granted)]
  {
    var SetLimit(s, quota) := states[m].handlers[h].call;
    assert states[m + 1] == Step(states[m], actions[m]);
    LimitStays(states, actions, m + 1, r, s);
    ReservationUsesSnapshot(states, actions, r, t, g);
  }

  // ----- nothing gets stuck -----

  /** How far a call has come fits what it does. */
  ghost predicate ProgressOk(handler: Handler) {
    match handler.progress
    case Begun => true
    case LimitRead(_) => handler.call.Reserve?
    case Marking => handler.call.Reserve? || handler.call.Update?
    case Deleting(removed) => handler.call.Delete? && 1 <= removed <= 3
  }

  lemma ProgressStep(st: State, a: Action, h: nat)
    requires Enabled(st, a) && InFlight(Step(st, a), h) && (InFlight(st, h) ==> ProgressOk(st.handlers[h]))
    ensures ProgressOk(Step(st, a).handlers[h])
  {
  }

  lemma {:induction false} ProgressRun(states: seq<State>, actions: seq<Action>, k: nat, h: nat)
    requires Run(states, actions) && k < |states| && InFlight(states[k], h)
    ensures ProgressOk(states[k].handlers[h])
  {
    if k > 0 {
      assert states[k - 1 + 1] == Step(states[k - 1], actions[k - 1]);
      if InFlight(states[k - 1], h) {
        ProgressRun(states, actions, k - 1, h);
      }
      ProgressStep(states[k - 1], actions[k - 1], h);
    }
  }

  /** The next step of a call in flight. */
  function NextOf(handler: Handler, h: nat, outcome: WriteOutcome): Action {
    match handler.progress
    case LimitRead(_) => Access(h)
    case Marking => Mark(h)
    case Deleting(removed) => if removed < 3 then Remove(h) else RemoveStored(h, outcome)
    case Begun =>
      match handler.call
      case Reserve(_, _, _) => ReadLimit(h)
      case Update(_, _) => Access(h)
      case SetLimit(_, _) => InsertLimit(h)
      case Delete(_) => Remove(h)
  }

  /** At every moment of every run, every call in flight can take its next step, with any outcome that Redis may have. */
  lemma CallsGoOn(states: seq<State>, actions: seq<Action>, k: nat, h: nat, outcome: WriteOutcome)
    requires Run(states, actions) && k < |states| && InFlight(states[k], h)
    ensures Enabled(states[k], NextOf(states[k].handlers[h], h, outcome))
  {
    ProgressRun(states, actions, k, h);
  }

  /** And so can the flush loop. */
  lemma FlushGoesOn(states: seq<State>, actions: seq<Action>, k: nat, outcome: WriteOutcome) returns (a: Action)
    requires Run(states, actions) && k < |states|
    ensures Enabled(states[k], a) && Step(states[k], a).handlers == states[k].handlers
    ensures states[k].flush.Storing? && states[k].flush.n < |states[k].flush.rows| ==> a == Store(outcome)
  {
    RunInv(states, actions, k);
    var st := states[k];
    assert FlushOk(st);
    match st.flush {
      case Idle => a := StartFlush;
      case Collecting(due, keys) =>
        if s :| s in due && s in st.dirty && s !in keys {
          a := Collect(s);
        } else {
          a := EndCollect;
        }
      case Unmarking(keys, n) => a := if n < |keys| then Unmark else NextPhase;
      case Reading(keys, n, _) => a := if n < |keys| then ReadUsage else NextPhase;
      case Storing(rows, n) => a := if n < |rows| then Store(outcome) else NextPhase;
      case Remarking(rows, n) => a := if n < |rows| then Remark else NextPhase;
    }
  }

  // ----- a flush that fails -----

  function Subjects(rows: seq<Row>): set<Subject> {
    set j | 0 <= j < |rows| :: rows[j].subject
  }

  /** The state once all rows are marked again and the flush has ended. */
  function Remarked(st: State): State
    requires st.flush.Remarking? && st.flush.n <= |st.flush.rows|
    decreases |st.flush.rows| - st.flush.n
  {
    if st.flush.n < |st.flush.rows| then Remarked(Step(st, Remark)) else Step(st, NextPhase)
  }

  lemma {:induction false} RemarkedIs(st: State)
    requires st.flush.Remarking? && st.flush.n <= |st.flush.rows|
    ensures Remarked(st) == st.(dirty := st.dirty + Subjects(st.flush.rows[st.flush.n..]), flush := Idle)
    decreases |st.flush.rows| - st.flush.n
  {
    var rows, n := st.flush.rows, st.flush.n;
    if n < |rows| {
      RemarkedIs(Step(st, Remark));
      SubjectsStep(rows, n);
      assert st.dirty + {rows[n].subject} + Subjects(rows[n + 1..]) == st.dirty + Subjects(rows[n..]);
    } else {
      assert Subjects(rows[n..]) == {} && st.dirty + {} == st.dirty;
    }
  }

  lemma SubjectsStep(rows: seq<Row>, n: nat)
    requires n < |rows|
    ensures Subjects(rows[n..]) == {rows[n].subject} + Subjects(rows[n + 1..])
  {
    var tail, rest := rows[n..], rows[n + 1..];
    forall s ensures s in Subjects(tail) <==> s == rows[n].subject || s in Subjects(rest) {
      if s in Subjects(rest) {
        var j :| 0 <= j < |rest| && rest[j].subject == s;
        assert tail[j + 1].subject == s;
      }
      if s in Subjects(tail) {
        var j :| 0 <= j < |tail| && tail[j].subject == s;
        assert j == 0 || rest[j - 1].subject == s;
      }
      assert tail[0].subject == rows[n].subject;
    }
  }

  /** Whichever write fails, with or without effect, every subject of the snapshot is marked again, those already written
      too. */
  lemma FailureMarksAll(st: State, outcome: WriteOutcome)
    requires Enabled(st, Store(outcome)) && outcome.Failed?
    ensures var failed := DoStore(st, outcome);
            && failed.flush.Remarking? && failed.flush.n <= |failed.flush.rows|
            && Remarked(failed) == failed.(dirty := st.dirty + Subjects(st.flush.rows), flush := Idle)
  {
    var failed := DoStore(st, outcome);
    RemarkedIs(failed);
    assert failed.flush.rows[0..] == st.flush.rows;
  }
}
