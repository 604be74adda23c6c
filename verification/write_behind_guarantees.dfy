/** What holds in every interleaving of request handlers and flush loop. */
module WriteBehindGuarantees {
  import opened Options
  import opened QuotaDomain
  import opened QuotaLedger
  import opened CacheTables
  import opened WriteBehind

  // ----- nothing is lost -----

  /** For a subject that was loaded as it was stored and that nobody deletes: at every moment its stored usage is its
      usage in memory, or the subject is marked, or a handler still owes its mark, or the flush in flight still owes its
      read, its write or its new mark. */
  lemma NoLostUpdate(states: seq<State>, actions: seq<Action>, k: nat, s: Subject)
    requires Run(states, actions) && k < |states| && InSync(states[0], s) && Undeleted(actions, k, s)
    ensures InSync(states[k], s) || s in states[k].dirty || HandlerOwes(states[k], s) || FlushOwes(states[k], s)
  {
    RunInv(states, actions, k);
    CoveredIff(states, actions, k, s);
    assert SubjectOk(states[k], s);
  }

  /** When nothing is in flight and nothing is marked, the store holds every usage. */
  lemma QuietMeansPersisted(st: State, s: Subject)
    requires Inv(st) && st.handlers == map[] && st.flush.Idle? && st.dirty == {} && s !in st.excluded
    ensures InSync(st, s)
  {
    assert SubjectOk(st, s);
  }

  // ----- the store only moves forward -----

  /** The subject's history and its persisted part only grow. */
  ghost predicate Forward(st: State, st': State, s: Subject) {
    && (s in st.excluded ==> s in st'.excluded)
    && (s !in st'.excluded ==>
          && StartOf(st', s) == StartOf(st, s)
          && LogOf(st, s) <= LogOf(st', s)
          && VersionOf(st, s) <= VersionOf(st', s))
  }

  lemma StepForward(st: State, a: Action, s: Subject)
    requires Inv(st) && Enabled(st, a)
    ensures Forward(st, Step(st, a), s)
  {
    match a {
      case Store(outcome) => StoreForward(st, outcome, s);
      case Access(h) => AccessForward(st, h, s);
      case _ =>
        OthersForward(st, a);
        SameHistoryForward(st, Step(st, a), s);
    }
  }

  lemma SameHistoryForward(st: State, st': State, s: Subject)
    requires st'.log == st.log && st'.version == st.version && st'.start == st.start && st.excluded <= st'.excluded
    ensures Forward(st, st', s)
  {
  }

  lemma AccessForward(st: State, h: nat, s: Subject)
    requires Enabled(st, Access(h))
    ensures Forward(st, DoAccess(st, h), s)
  {
    var st' := DoAccess(st, h);
    assert st'.version == st.version && st'.start == st.start && st'.excluded == st.excluded;
    assert LogOf(st, s) <= LogOf(st', s);
  }

  lemma OthersForward(st: State, a: Action)
    requires Enabled(st, a) && !a.Store? && !a.Access?
    ensures var st' := Step(st, a);
            st'.log == st.log && st'.version == st.version && st'.start == st.start && st.excluded <= st'.excluded
  {
  }

  lemma StoreForward(st: State, outcome: WriteOutcome, s: Subject)
    requires FlushOk(st) && Enabled(st, Store(outcome))
    ensures Forward(st, DoStore(st, outcome), s)
  {
    var st', row := DoStore(st, outcome), st.flush.rows[st.flush.n];
    assert st'.log == st.log && st'.start == st.start && st'.excluded == st.excluded;
    assert row.subject !in st.excluded ==> VersionOf(st, row.subject) <= row.version by {
      if row.subject !in st.excluded { assert RowOk(st, row); }
    }
    assert VersionOf(st', s) == VersionOf(st, s) || (s == row.subject && VersionOf(st', s) == row.version);
  }

  lemma RunStepForward(states: seq<State>, actions: seq<Action>, k: nat, s: Subject)
    requires Run(states, actions) && k < |actions|
    ensures Forward(states[k], states[k + 1], s)
  {
    RunInv(states, actions, k);
    StepForward(states[k], actions[k], s);
  }

  lemma {:induction false} ForwardChain(states: seq<State>, i: nat, j: nat, s: Subject)
    requires i <= j < |states|
    requires forall k :: 0 <= k < |states| - 1 ==> Forward(states[k], states[k + 1], s)
    ensures Forward(states[i], states[j], s)
    decreases j - i
  {
    if i < j {
      ForwardChain(states, i, j - 1, s);
      assert Forward(states[j - 1], states[j - 1 + 1], s);
    }
  }

  lemma HistoryGrows(states: seq<State>, actions: seq<Action>, i: nat, j: nat, s: Subject)
    requires Run(states, actions) && i <= j < |states|
    ensures Forward(states[i], states[j], s)
  {
    forall k | 0 <= k < |states| - 1 ensures Forward(states[k], states[k + 1], s) {
      RunStepForward(states, actions, k, s);
    }
    ForwardChain(states, i, j, s);
  }

  /** Each subject has one history, the log that only grows. Whatever the store holds is the usage after some prefix of
      that history, and a later store never holds a shorter prefix, also after flushes that failed half-way. */
  lemma StoreMovesForward(states: seq<State>, actions: seq<Action>, i: nat, j: nat, s: Subject)
    requires Run(states, actions) && i <= j < |states| && InSync(states[0], s) && Undeleted(actions, j, s)
    ensures LogOf(states[i], s) <= LogOf(states[j], s)
    ensures VersionOf(states[i], s) <= VersionOf(states[j], s) <= |LogOf(states[j], s)|
    ensures UsageOf(states[i].stored, s) == Replay(StartOf(states[j], s), LogOf(states[j], s)[..VersionOf(states[i], s)])
    ensures UsageOf(states[j].stored, s) == Replay(StartOf(states[j], s), LogOf(states[j], s)[..VersionOf(states[j], s)])
  {
    CoveredIff(states, actions, j, s);
    HistoryGrows(states, actions, i, j, s);
    RunInv(states, actions, i);
    RunInv(states, actions, j);
    assert SubjectOk(states[i], s) && SubjectOk(states[j], s);
    var v := VersionOf(states[i], s);
    assert LogOf(states[j], s)[..v] == LogOf(states[i], s)[..v];
  }

  // ----- limits, arithmetic, balance: the log is what the ledger theorems speak of -----

  /** Memory is the replay of an honest log, also for a subject that was not loaded as it was stored: concurrent
      accesses
      to an entry have the effect of one order of them. */
  lemma AccessesAreSerial(states: seq<State>, actions: seq<Action>, k: nat, s: Subject)
    requires Run(states, actions) && k < |states| && Undeleted(actions, k, s)
    ensures HonestLog(StartOf(states[k], s), LogOf(states[k], s))
    ensures UsageOf(states[k].usage, s) == Replay(StartOf(states[k], s), LogOf(states[k], s))
  {
    RunMemory(states, actions, k, s);
  }

  /** However stale the limits the handlers checked against, usage stays within the largest limit that has been in
      force, plus what unchecked updates added. */
  lemma LimitsHold(states: seq<State>, actions: seq<Action>, k: nat, s: Subject, dim: Dimension, top: int)
    requires Run(states, actions) && k < |states| && Undeleted(actions, k, s)
    requires 0 <= top && StartOf(states[k], s).In(dim) <= top
    requires forall q :: q in InForce(states[k], s) ==> !q.Unlimited(dim) && q.In(dim) <= top
    ensures UsageOf(states[k].usage, s).In(dim) <= top + UncheckedGain(LogOf(states[k], s), dim)
  {
    RunMemory(states, actions, k, s);
    BoundedByLimits(StartOf(states[k], s), LogOf(states[k], s), dim, top);
  }

  /** Concurrent reservations of non-negative amounts under one limit are all granted exactly when their total fits,
      whatever order the handlers reach the entry in; usage then grows by the total. */
  lemma ConcurrentReservations(states: seq<State>, actions: seq<Action>, k: nat, s: Subject, limit: QuotaEntry)
    requires Run(states, actions) && k < |states| && Undeleted(actions, k, s) && StartOf(states[k], s).NonNegative()
    requires UnderLimit(LogOf(states[k], s), limit) && AllNonNegative(DeltasOf(LogOf(states[k], s)))
    ensures AllGranted(LogOf(states[k], s)) <==> TotalFits(StartOf(states[k], s), limit, DeltasOf(LogOf(states[k], s)))
    ensures AllGranted(LogOf(states[k], s)) ==>
      UsageOf(states[k].usage, s) == Plus(StartOf(states[k], s), Total(DeltasOf(LogOf(states[k], s))))
  {
    AccessesAreSerial(states, actions, k, s);
    var start, log := StartOf(states[k], s), LogOf(states[k], s);
    LogIsBatch(start, log, limit, |log|);
    assert log[..|log|] == log;
    BatchGrantedIffTotalFits(start, limit, DeltasOf(log));
  }

  /** If what a subject started with plus everything ever attempted on it fits in 64 bits, the cache never overflows:
      every access forms a sum within range and reaches the verdict of unbounded integers, the machine holds exactly the
      usage computed here, and no usage is negative. */
  lemma NeverOverflows(states: seq<State>, actions: seq<Action>, k: nat, s: Subject)
    requires Run(states, actions) && k < |states| && Undeleted(actions, k, s)
    requires Budgeted(StartOf(states[k], s), LogOf(states[k], s))
    ensures ReplayI64(StartOf(states[k], s), LogOf(states[k], s)) == UsageOf(states[k].usage, s)
    ensures UsageOf(states[k].usage, s).NonNegative()
    ensures forall j :: 0 <= j < |LogOf(states[k], s)| ==> AccessIsExact(StartOf(states[k], s), LogOf(states[k], s), j)
  {
    AccessesAreSerial(states, actions, k, s);
    var start, log := StartOf(states[k], s), LogOf(states[k], s);
    forall j | 0 <= j < |log| ensures AccessIsExact(start, log, j) {
      NoOverflow(start, log, j);
    }
    MachineReplayIsExact(start, log, |log|);
    assert log[..|log|] == log;
    forall dim: Dimension ensures UsageOf(states[k].usage, s).In(dim) >= 0 {
      WithinAttempts(start, log, dim);
    }
  }

  /** If every access takes a non-negative amount or gives back one that is outstanding, usage is the start plus what
      is outstanding. */
  lemma BooksBalance(states: seq<State>, actions: seq<Action>, k: nat, s: Subject, givenBack: seq<Option<nat>>)
    requires Run(states, actions) && k < |states| && Undeleted(actions, k, s)
    requires StartOf(states[k], s).NonNegative() && Returned(LogOf(states[k], s), givenBack)
    ensures UsageOf(states[k].usage, s) == Plus(StartOf(states[k], s), Total(Outstanding(LogOf(states[k], s), givenBack)))
    ensures Outstanding(LogOf(states[k], s), givenBack) == [] ==> UsageOf(states[k].usage, s) == StartOf(states[k], s)
  {
    AccessesAreSerial(states, actions, k, s);
    Conservation(StartOf(states[k], s), LogOf(states[k], s), givenBack);
  }

  /** A check that reserves for a user and takes the reservation back when the bucket refuses, with any other accesses
      in
      between, leaves the usage those accesses alone would have left, exactly when it leaves no trace in any dimension.
      */
  lemma RefusedCheckIsNeutralIff(states: seq<State>, actions: seq<Action>, k: nat, s: Subject, i: nat)
    requires Run(states, actions) && k < |states| && Undeleted(actions, k, s) && StartOf(states[k], s).NonNegative()
    requires i < |LogOf(states[k], s)| - 1 && LogOf(states[k], s)[i].Checked? && LogOf(states[k], s)[i].granted
    requires var log := LogOf(states[k], s); log[|log| - 1] == Unchecked(log[i].delta.Negate())
    ensures var start, log := StartOf(states[k], s), LogOf(states[k], s);
            var before, between := Replay(start, log[..i]), log[i + 1..|log| - 1];
            UsageOf(states[k].usage, s) == Replay(start, log[..i] + between)
            <==> forall dim: Dimension :: LeavesNoTrace(before.In(dim), log[i].delta.In(dim), between, dim)
  {
    AccessesAreSerial(states, actions, k, s);
    PairRemovableIff(StartOf(states[k], s), LogOf(states[k], s), i);
  }

  // ----- one undisturbed flush -----

  ghost predicate FlushAction(a: Action) {
    a.Collect? || a.EndCollect? || a.Unmark? || a.ReadUsage? || a.NextPhase? || a == Store(Written)
  }

  /** A flush from start to end in which every write succeeds and no handler runs. */
  ghost predicate CleanFlush(states: seq<State>, actions: seq<Action>) {
    && |states| == |actions| + 1 && |actions| > 0
    && states[0].handlers == map[]
    && actions[0] == StartFlush
    && (forall k :: 0 < k < |actions| ==> FlushAction(actions[k]))
    && (forall k :: 0 <= k < |actions| ==> Enabled(states[k], actions[k]) && states[k + 1] == Step(states[k], actions[k]))
    && states[|actions|].flush.Idle?
  }

  /** The marks that are still set are the ones the flush is about to take. */
  ghost predicate Draining(st: State) {
    && st.handlers == map[]
    && match st.flush
       case Collecting(due, _) => st.dirty <= due
       case Unmarking(keys, n) => forall s :: s in st.dirty ==> HasKey(keys, n, s)
       case Remarking(_, _) => false
       case _ => st.dirty == {}
  }

  lemma DrainStep(st: State, a: Action)
    requires Draining(st) && Enabled(st, a) && FlushAction(a)
    ensures Draining(Step(st, a))
  {
    match a {
      case EndCollect =>
        forall s | s in st.dirty ensures HasKey(st.flush.keys, 0, s) {
          assert s in st.flush.keys;
        }
      case Unmark =>
        forall s | s in Step(st, a).dirty ensures HasKey(st.flush.keys, st.flush.n + 1, s) {
          assert HasKey(st.flush.keys, st.flush.n, s);
        }
      case _ =>
    }
  }

  lemma {:induction false} CleanFlushInv(states: seq<State>, actions: seq<Action>, k: nat)
    requires CleanFlush(states, actions) && Inv(states[0]) && k < |states|
    ensures Inv(states[k]) && states[k].handlers == map[]
    ensures k > 0 ==> Draining(states[k])
    ensures states[k].usage == states[0].usage && states[k].limits == states[0].limits
    ensures states[k].excluded == states[0].excluded
  {
    if k > 0 {
      CleanFlushInv(states, actions, k - 1);
      var st, a := states[k - 1], actions[k - 1];
      assert Enabled(st, a) && states[k] == Step(st, a);
      StepKeeps(st, a);
      if k == 1 {
        assert a == StartFlush;
      } else {
        assert FlushAction(a);
        DrainStep(st, a);
      }
    }
  }

  /** After a clean flush the store holds the usage of every subject, and memory is what it was. */
  lemma CleanFlushPersists(states: seq<State>, actions: seq<Action>, s: Subject)
    requires CleanFlush(states, actions) && Inv(states[0]) && s !in states[0].excluded
    ensures UsageOf(states[|actions|].stored, s) == UsageOf(states[|actions|].usage, s) == UsageOf(states[0].usage, s)
    ensures states[|actions|].dirty == {}
  {
    CleanFlushInv(states, actions, |actions|);
    QuietMeansPersisted(states[|actions|], s);
  }

  // ----- deletion -----

  /** The sequence of actions can be taken one after the other. */
  ghost predicate Possible(st: State, actions: seq<Action>)
    decreases |actions|
  {
    actions == [] || (Enabled(st, actions[0]) && Possible(Step(st, actions[0]), actions[1..]))
  }

  ghost function Finally(st: State, actions: seq<Action>): State
    requires Possible(st, actions)
    decreases |actions|
  {
    if actions == [] then st else Finally(Step(st, actions[0]), actions[1..])
  }

  ghost predicate NoCallOn(actions: seq<Action>, s: Subject) {
    forall k :: 0 <= k < |actions| && actions[k].Begin? ==> actions[k].call.subject != s
  }

  /** A deletion has come through: the subject is nowhere, and nobody is working on it. */
  ghost predicate Gone(st: State, s: Subject) {
    && s !in st.usage && s !in st.stored
    && forall h :: InFlight(st, h) ==> st.handlers[h].call.subject != s
  }

  /** The flush in flight read the subject before it was deleted, and has yet to write what it read. */
  ghost predicate HoldsOldRow(st: State, s: Subject) {
    match st.flush
    case Reading(_, _, rows) => HasRow(rows, 0, s)
    case Storing(rows, n) => HasRow(rows, n, s)
    case _ => false
  }

  lemma GoneStep(st: State, a: Action, s: Subject)
    requires Gone(st, s) && !HoldsOldRow(st, s) && Enabled(st, a)
    requires a.Begin? ==> a.call.subject != s
    ensures Gone(Step(st, a), s) && !HoldsOldRow(Step(st, a), s)
  {
    var st' := Step(st, a);
    forall h | InFlight(st', h) ensures st'.handlers[h].call.subject != s {
      if h in st.handlers { assert InFlight(st, h); }
    }
    if a.ReadUsage? {
      assert forall j :: 0 <= j < |st'.flush.rows| ==> st'.flush.rows[j].subject != s;
    }
  }

  lemma {:induction false} GoneStays(st: State, actions: seq<Action>, s: Subject)
    requires Gone(st, s) && !HoldsOldRow(st, s) && Possible(st, actions) && NoCallOn(actions, s)
    ensures s !in Finally(st, actions).stored
    decreases |actions|
  {
    if actions != [] {
      GoneStep(st, actions[0], s);
      assert forall k :: 0 <= k < |actions[1..]| ==> actions[1..][k] == actions[k + 1];
      GoneStays(Step(st, actions[0]), actions[1..], s);
    }
  }

  /** Without a new call on it, the subject can come to be stored. */
  ghost predicate CanReturn(st: State, s: Subject) {
    exists actions :: Possible(st, actions) && NoCallOn(actions, s) && s in Finally(st, actions).stored
  }

  lemma ReturnsNow(st: State, s: Subject)
    requires s in st.stored
    ensures CanReturn(st, s)
  {
    var actions: seq<Action> := [];
    assert Possible(st, actions) && NoCallOn(actions, s) && s in Finally(st, actions).stored;
  }

  lemma ReturnsLater(st: State, a: Action, s: Subject)
    requires Enabled(st, a) && !a.Begin? && CanReturn(Step(st, a), s)
    ensures CanReturn(st, s)
  {
    var rest :| Possible(Step(st, a), rest) && NoCallOn(rest, s) && s in Finally(Step(st, a), rest).stored;
    var actions := [a] + rest;
    assert actions[1..] == rest;
    assert Possible(st, actions) && NoCallOn(actions, s) && s in Finally(st, actions).stored;
  }

  /** Writing on brings the row at position j to the store. */
  lemma {:induction false} WritesThrough(st: State, j: nat)
    requires st.flush.Storing? && st.flush.n <= j < |st.flush.rows|
    ensures CanReturn(st, st.flush.rows[j].subject)
    decreases j - st.flush.n
  {
    if st.flush.n == j {
      ReturnsNow(DoStore(st, Written), st.flush.rows[j].subject);
    } else {
      WritesThrough(DoStore(st, Written), j);
    }
    ReturnsLater(st, Store(Written), st.flush.rows[j].subject);
  }

  lemma OneRead(st: State, j: nat)
    requires st.flush.Reading? && j < |st.flush.rows| && st.flush.n < |st.flush.keys|
    ensures var flush' := Step(st, ReadUsage).flush;
            && flush'.Reading? && flush'.keys == st.flush.keys && flush'.n == st.flush.n + 1
            && j < |flush'.rows| && flush'.rows[j] == st.flush.rows[j]
  {
  }

  /** Reading on leads to the writes. */
  lemma {:induction false} ReadsThrough(st: State, j: nat, s: Subject)
    requires st.flush.Reading? && j < |st.flush.rows| && st.flush.n <= |st.flush.keys| && st.flush.rows[j].subject == s
    ensures CanReturn(st, s)
    decreases |st.flush.keys| - st.flush.n
  {
    if st.flush.n == |st.flush.keys| {
      ReadingDone(st, j);
    } else {
      OneRead(st, j);
      ReadsThrough(Step(st, ReadUsage), j, s);
      ReturnsLater(st, ReadUsage, s);
    }
  }

  lemma ReadingDone(st: State, j: nat)
    requires st.flush.Reading? && j < |st.flush.rows| && st.flush.n == |st.flush.keys|
    ensures CanReturn(st, st.flush.rows[j].subject)
  {
    WritesThrough(DoNextPhase(st), j);
    ReturnsLater(st, NextPhase, st.flush.rows[j].subject);
  }

  /** Without a new call on it, a deleted subject can come back to the store exactly when the flush in flight still
      holds
      a row it read before the deletion. */
  lemma DeletionHoldsIff(st: State, s: Subject)
    requires Inv(st) && Gone(st, s)
    ensures CanReturn(st, s) <==> HoldsOldRow(st, s)
  {
    if HoldsOldRow(st, s) {
      if st.flush.Reading? {
        var j :| 0 <= j < |st.flush.rows| && st.flush.rows[j].subject == s;
        ReadsThrough(st, j, s);
      } else {
        var j :| st.flush.n <= j < |st.flush.rows| && st.flush.rows[j].subject == s;
        WritesThrough(st, j);
      }
    } else {
      forall actions | Possible(st, actions) && NoCallOn(actions, s) ensures s !in Finally(st, actions).stored {
        GoneStays(st, actions, s);
      }
    }
  }
}
