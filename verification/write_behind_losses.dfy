/** What the write-behind cache can lose: the stored usage of a subject that the load did not read, until the subject is
    written again, and the deletion of a subject that the flush holds. */
module WriteBehindLosses {
  import opened QuotaDomain
  import opened QuotaLedger
  import opened CacheTables
  import opened WriteBehind
  import opened WriteBehindGuarantees

  // ----- runs from a given start -----

  /** A run from a start-up state in which nobody asks to delete the subject. */
  ghost predicate RunFrom(st: State, states: seq<State>, actions: seq<Action>, s: Subject) {
    Run(states, actions) && states[0] == st && Undeleted(actions, |actions|, s)
  }

  lemma Extend(states: seq<State>, actions: seq<Action>, a: Action)
    returns (states': seq<State>, actions': seq<Action>)
    requires Run(states, actions) && Enabled(states[|actions|], a)
    ensures Run(states', actions') && actions' == actions + [a]
    ensures states'[|actions'|] == Step(states[|actions|], a) && states <= states'
  {
    states', actions' := states + [Step(states[|actions|], a)], actions + [a];
    forall k | 0 <= k < |actions'|
      ensures Enabled(states'[k], actions'[k]) && states'[k + 1] == Step(states'[k], actions'[k])
    {
      if k < |actions| {
        assert states'[k] == states[k] && actions'[k] == actions[k];
      }
    }
  }

  lemma ExtendFrom(st: State, states: seq<State>, actions: seq<Action>, a: Action, s: Subject)
    returns (states': seq<State>, actions': seq<Action>)
    requires RunFrom(st, states, actions, s) && Enabled(states[|actions|], a) && !Deletes(a, s)
    ensures RunFrom(st, states', actions', s) && states'[|actions'|] == Step(states[|actions|], a)
  {
    states', actions' := Extend(states, actions, a);
  }

  /** From any start-up state, one update of a subject has been applied. */
  lemma UpdateStarts(st: State, s: Subject, delta: ResourceDelta) returns (states: seq<State>, actions: seq<Action>)
    requires Initial(st)
    ensures RunFrom(st, states, actions, s)
    ensures states[|actions|] == st.(usage := Applied(st.usage, s, delta), log := map[s := [Unchecked(delta)]],
                                     handlers := map[0 := Handler(Update(s, delta), Marking)])
  {
    states, actions := [st], [];
    states, actions := ExtendFrom(st, states, actions, Begin(0, Update(s, delta)), s);
    assert states[|actions|] == st.(handlers := map[0 := Handler(Update(s, delta), Begun)]);
    states, actions := ExtendFrom(st, states, actions, Access(0), s);
    assert [] + [Unchecked(delta)] == [Unchecked(delta)];
  }

  lemma UpdateRuns(st: State, s: Subject, delta: ResourceDelta) returns (states: seq<State>, actions: seq<Action>)
    requires Initial(st)
    ensures RunFrom(st, states, actions, s)
    ensures states[|actions|] ==
      st.(usage := Applied(st.usage, s, delta), log := map[s := [Unchecked(delta)]], dirty := {s})
  {
    states, actions := UpdateStarts(st, s, delta);
    states, actions := ExtendFrom(st, states, actions, Mark(0), s);
    assert states[|actions|].handlers == map[];
  }

  lemma FlushTakesMark(st: State, states: seq<State>, actions: seq<Action>, s: Subject)
    returns (states': seq<State>, actions': seq<Action>)
    requires RunFrom(st, states, actions, s) && states[|actions|].dirty == {s} && states[|actions|].flush == Idle
    ensures RunFrom(st, states', actions', s)
    ensures states'[|actions'|] == states[|actions|].(dirty := {}, flush := Unmarking([s], 1))
  {
    var marked := states[|actions|];
    states', actions' := ExtendFrom(st, states, actions, StartFlush, s);
    states', actions' := ExtendFrom(st, states', actions', Collect(s), s);
    assert states'[|actions'|] == marked.(flush := Collecting({s}, [s])) by {
      assert [] + [s] == [s];
    }
    states', actions' := ExtendFrom(st, states', actions', EndCollect, s);
    states', actions' := ExtendFrom(st, states', actions', Unmark, s);
    assert {s} - {s} == {};
  }

  /** From any start-up state, one update that the flush has read and is about to write. */
  lemma UpdateThenRead(st: State, s: Subject, delta: ResourceDelta) returns (states: seq<State>, actions: seq<Action>)
    requires Initial(st)
    ensures RunFrom(st, states, actions, s)
    ensures var row := Row(s, UsageOf(st.usage, s).Apply(delta), 1);
            states[|actions|] == st.(usage := Applied(st.usage, s, delta), log := map[s := [Unchecked(delta)]],
                                     flush := Storing([row], 0))
  {
    states, actions := UpdateRuns(st, s, delta);
    states, actions := FlushTakesMark(st, states, actions, s);
    states, actions := ExtendFrom(st, states, actions, NextPhase, s);
    var reading := states[|actions|];
    assert reading.flush == Reading([s], 0, []);
    states, actions := ExtendFrom(st, states, actions, ReadUsage, s);
    var row := Row(s, UsageOf(st.usage, s).Apply(delta), 1);
    assert states[|actions|] == reading.(flush := Reading([s], 1, [row])) by {
      assert [] + [row] == [row];
    }
    states, actions := ExtendFrom(st, states, actions, NextPhase, s);
  }

  /** Nothing is in flight and nothing is marked. */
  ghost predicate Resting(st: State) {
    st.handlers == map[] && st.flush.Idle? && st.dirty == {}
  }

  /** From any start-up state, one update and one flush without any failure store what memory makes of it, whatever was
      stored before. */
  lemma UpdateOverwrites(st: State, s: Subject, delta: ResourceDelta) returns (states: seq<State>, actions: seq<Action>)
    requires Initial(st)
    ensures RunFrom(st, states, actions, s)
    ensures var end := states[|actions|];
            && Resting(end) && LogOf(end, s) == [Unchecked(delta)]
            && end.usage == Applied(st.usage, s, delta)
            && end.stored == st.stored[s := UsageOf(st.usage, s).Apply(delta)]
  {
    states, actions := UpdateThenRead(st, s, delta);
    states, actions := ExtendFrom(st, states, actions, Store(Written), s);
    states, actions := ExtendFrom(st, states, actions, NextPhase, s);
  }

  // ----- subjects that were not loaded as they were stored -----

  /** In every run, whenever the service rests, Redis holds what it held at the start plus all accesses since. */
  ghost predicate NeverLost(st: State, s: Subject) {
    forall states: seq<State>, actions: seq<Action> ::
      RunFrom(st, states, actions, s) && Resting(states[|actions|]) ==>
        UsageOf(states[|actions|].stored, s) == Replay(UsageOf(st.stored, s), LogOf(states[|actions|], s))
  }

  lemma KeptInSync(st: State, states: seq<State>, actions: seq<Action>, s: Subject)
    requires RunFrom(st, states, actions, s) && Resting(states[|actions|]) && InSync(st, s)
    ensures UsageOf(states[|actions|].stored, s) == Replay(UsageOf(st.stored, s), LogOf(states[|actions|], s))
  {
    var n := |actions|;
    CoveredIff(states, actions, n, s);
    RunInv(states, actions, n);
    QuietMeansPersisted(states[n], s);
    AccessesAreSerial(states, actions, n, s);
    HistoryGrows(states, actions, 0, n, s);
  }

  function Magnitude(x: int): nat {
    if x < 0 then -x else x
  }

  /** Two usages that differ still differ when enough is added to both. */
  lemma TellApart(a: UsageEntry, b: UsageEntry) returns (delta: ResourceDelta)
    requires a != b
    ensures a.Apply(delta) != b.Apply(delta)
  {
    var big := 1 + Magnitude(a.bytes) + Magnitude(b.bytes) + Magnitude(a.objects) + Magnitude(b.objects)
      + Magnitude(a.buckets) + Magnitude(b.buckets);
    delta := ResourceDelta(big, big, big);
  }

  /** A subject that was not loaded as it was stored loses what was stored, in some run. */
  lemma MisloadedIsLost(st: State, s: Subject) returns (states: seq<State>, actions: seq<Action>)
    requires Initial(st) && !InSync(st, s)
    ensures RunFrom(st, states, actions, s) && Resting(states[|actions|])
    ensures UsageOf(states[|actions|].stored, s) != Replay(UsageOf(st.stored, s), LogOf(states[|actions|], s))
  {
    var delta := TellApart(UsageOf(st.usage, s), UsageOf(st.stored, s));
    states, actions := UpdateOverwrites(st, s, delta);
    ReplayAppend(UsageOf(st.stored, s), [], Unchecked(delta));
    assert [] + [Unchecked(delta)] == [Unchecked(delta)];
  }

  /** Nothing of a subject is ever lost exactly when it was loaded as it was stored. */
  lemma NeverLostIff(st: State, s: Subject)
    requires Initial(st)
    ensures NeverLost(st, s) <==> InSync(st, s)
  {
    if InSync(st, s) {
      forall states: seq<State>, actions: seq<Action> | RunFrom(st, states, actions, s) && Resting(states[|actions|])
        ensures UsageOf(states[|actions|].stored, s) == Replay(UsageOf(st.stored, s), LogOf(states[|actions|], s))
      {
        KeptInSync(st, states, actions, s);
      }
    } else {
      var states, actions := MisloadedIsLost(st, s);
    }
  }

  lemma EmptyMemory(stored: UsageTable) returns (st: State)
    ensures Initial(st) && st.stored == stored && st.usage == map[]
  {
    st := State(map[], map[], {}, stored, map[], Idle, map[], map[], map[], map[], {});
    st := st.(excluded := Misloaded(st));
  }

  const ONE_BYTE: ResourceDelta := ResourceDelta(1, 0, 0)

  /** A subject with 5 bytes in Redis is skipped by the load. One update of a byte and one flush without any failure
      leave
      1 byte there, with nobody left to repair it. */
  lemma SkippedUsageIsLost(s: Subject) returns (states: seq<State>, actions: seq<Action>)
    ensures Run(states, actions) && states[0].usage == map[] && states[0].stored == map[s := UsageEntry(5, 0, 0)]
    ensures var st := states[|actions|]; st.usage == st.stored == map[s := UsageEntry(1, 0, 0)] && Resting(st)
  {
    var st := EmptyMemory(map[s := UsageEntry(5, 0, 0)]);
    states, actions := UpdateOverwrites(st, s, ONE_BYTE);
  }

  // ----- a subject that the flush holds while it is deleted -----

  /** The three removals that a deletion makes in memory. */
  lemma ForgottenInMemory(states: seq<State>, actions: seq<Action>, s: Subject)
    returns (states': seq<State>, actions': seq<Action>)
    requires Run(states, actions) && states[|actions|].handlers == map[0 := Handler(Delete(s), Begun)]
    ensures Run(states', actions')
    ensures var st, st' := states[|actions|], states'[|actions'|];
            && st'.usage == st.usage - {s} && st'.limits == st.limits - {s} && st'.dirty == st.dirty - {s}
            && st'.stored == st.stored
            && st'.handlers == map[0 := Handler(Delete(s), Deleting(3))] && st'.flush == st.flush
  {
    states', actions' := Extend(states, actions, Remove(0));
    assert states'[|actions'|].handlers == map[0 := Handler(Delete(s), Deleting(1))];
    states', actions' := Extend(states', actions', Remove(0));
    assert states'[|actions'|].handlers == map[0 := Handler(Delete(s), Deleting(2))];
    states', actions' := Extend(states', actions', Remove(0));
    assert states'[|actions'|].handlers == map[0 := Handler(Delete(s), Deleting(3))];
  }

  /** A deletion that runs from start to end. */
  lemma DeletionRuns(states: seq<State>, actions: seq<Action>, s: Subject)
    returns (states': seq<State>, actions': seq<Action>)
    requires Run(states, actions) && states[|actions|].handlers == map[]
    ensures Run(states', actions')
    ensures var st, st' := states[|actions|], states'[|actions'|];
            && st'.usage == st.usage - {s} && st'.limits == st.limits - {s} && st'.dirty == st.dirty - {s}
            && st'.stored == st.stored - {s}
            && st'.handlers == map[] && st'.flush == st.flush
  {
    states', actions' := Extend(states, actions, Begin(0, Delete(s)));
    assert states'[|actions'|].handlers == map[0 := Handler(Delete(s), Begun)];
    states', actions' := ForgottenInMemory(states', actions', s);
    states', actions' := Extend(states', actions', RemoveStored(0, Written));
    assert states'[|actions'|].handlers == map[];
  }

  /** A deletion between the flush's read and its write: the subject is gone from memory, and stays in the store with
      nobody left to remove it. */
  lemma DeletedSubjectReturns(s: Subject) returns (states: seq<State>, actions: seq<Action>, k: nat)
    ensures Run(states, actions) && k < |states|
    ensures Gone(states[k], s) && HoldsOldRow(states[k], s)
    ensures var st := states[|actions|];
            && s !in st.usage && UsageOf(st.stored, s) == UsageEntry(1, 0, 0)
            && st.handlers == map[] && st.flush == Idle && st.dirty == {}
  {
    var st := EmptyMemory(map[]);
    states, actions := UpdateThenRead(st, s, ONE_BYTE);
    states, actions := DeletionRuns(states, actions, s);
    k := |actions|;
    assert states[k].flush.rows[0].subject == s;
    assert Gone(states[k], s) && HoldsOldRow(states[k], s);
    var earlier := states;
    states, actions := Extend(states, actions, Store(Written));
    states, actions := Extend(states, actions, NextPhase);
    assert states[k] == earlier[k];
  }

  // ----- a misloaded subject that has been written again -----

  /** The action writes the subject to the store, with effect. */
  ghost predicate Stores(st: State, a: Action, s: Subject)
    requires Enabled(st, a)
  {
    a.Store? && st.flush.rows[st.flush.n].subject == s && (a.outcome.Written? || a.outcome.written)
  }

  ghost predicate StoredBefore(states: seq<State>, actions: seq<Action>, k: nat, s: Subject)
    requires Run(states, actions) && k <= |actions|
  {
    exists m :: 0 <= m < k && Stores(states[m], actions[m], s)
  }

  /** The state as it would be if the subject had been loaded as it was stored. */
  ghost function AsIfLoaded(st: State, s: Subject, loaded: UsageEntry, written: bool): State {
    st.(stored := if written then st.stored else st.stored[s := loaded], excluded := st.excluded - {s})
  }

  lemma AsIfInitial(st: State, s: Subject)
    requires Initial(st)
    ensures Initial(AsIfLoaded(st, s, UsageOf(st.usage, s), false))
    ensures InSync(AsIfLoaded(st, s, UsageOf(st.usage, s), false), s)
  {
    var st' := AsIfLoaded(st, s, UsageOf(st.usage, s), false);
    forall t ensures t in Misloaded(st') <==> t in st.excluded && t != s {
      MisloadedIff(st, t);
      MisloadedIff(st', t);
    }
    assert Misloaded(st') == st.excluded - {s};
  }

  /** No step sees the difference, and the first write of the subject ends it. */
  lemma AsIfStep(st: State, a: Action, s: Subject, loaded: UsageEntry, written: bool)
    requires Enabled(st, a) && !Deletes(a, s) && MemoryOk(st, s)
    requires Enabled(AsIfLoaded(st, s, loaded, written), a)
    ensures Step(AsIfLoaded(st, s, loaded, written), a)
            == AsIfLoaded(Step(st, a), s, loaded, written || Stores(st, a, s))
  {
    match a {
      case Store(outcome) => AsIfStore(st, outcome, s, loaded, written);
      case RemoveStored(h, outcome) => AsIfRemove(st, h, outcome, s, loaded, written);
      case Begin(h, call) => AsIfBegin(st, h, call, s, loaded, written);
      case _ =>
        ElsewhereStep(st, AsIfLoaded(st, s, loaded, written), a);
    }
  }

  /** What is stored and excluded has no part in whether a step can be taken. */
  lemma EnabledElsewhere(st: State, st': State, a: Action)
    requires st' == st.(stored := st'.stored, excluded := st'.excluded)
    ensures Enabled(st, a) == Enabled(st', a)
  {
  }

  /** Nor in what most steps do. */
  lemma ElsewhereStep(st: State, st': State, a: Action)
    requires Enabled(st, a) && Enabled(st', a) && !a.Store? && !a.RemoveStored? && !a.Begin?
    requires st' == st.(stored := st'.stored, excluded := st'.excluded)
    ensures Step(st, a).stored == st.stored && Step(st, a).excluded == st.excluded
    ensures Step(st', a) == Step(st, a).(stored := st'.stored, excluded := st'.excluded)
  {
    if a.ReadLimit? || a.Mark? || a.InsertLimit? {
      HandlerElsewhere(st, st', a);
    } else if a.Access? || a.Remove? {
      EntryElsewhere(st, st', a);
    } else {
      FlushElsewhere(st, st', a);
    }
  }

  lemma HandlerElsewhere(st: State, st': State, a: Action)
    requires Enabled(st, a) && Enabled(st', a) && (a.ReadLimit? || a.Mark? || a.InsertLimit?)
    requires st' == st.(stored := st'.stored, excluded := st'.excluded)
    ensures Step(st, a).stored == st.stored && Step(st, a).excluded == st.excluded
    ensures Step(st', a) == Step(st, a).(stored := st'.stored, excluded := st'.excluded)
  {
  }

  lemma EntryElsewhere(st: State, st': State, a: Action)
    requires Enabled(st, a) && Enabled(st', a) && (a.Access? || a.Remove?)
    requires st' == st.(stored := st'.stored, excluded := st'.excluded)
    ensures Step(st, a).stored == st.stored && Step(st, a).excluded == st.excluded
    ensures Step(st', a) == Step(st, a).(stored := st'.stored, excluded := st'.excluded)
  {
  }

  lemma FlushElsewhere(st: State, st': State, a: Action)
    requires Enabled(st, a) && Enabled(st', a) && (a.StartFlush? || a.Collect? || a.EndCollect? || a.Unmark?
                                                  || a.ReadUsage? || a.Remark? || a.NextPhase?)
    requires st' == st.(stored := st'.stored, excluded := st'.excluded)
    ensures Step(st, a).stored == st.stored && Step(st, a).excluded == st.excluded
    ensures Step(st', a) == Step(st, a).(stored := st'.stored, excluded := st'.excluded)
  {
  }

  lemma AsIfBegin(st: State, h: nat, call: Call, s: Subject, loaded: UsageEntry, written: bool)
    requires Enabled(st, Begin(h, call)) && call != Delete(s)
    ensures DoBegin(AsIfLoaded(st, s, loaded, written), h, call) == AsIfLoaded(DoBegin(st, h, call), s, loaded, written)
  {
    if call.Delete? {
      assert (st.excluded + {call.subject}) - {s} == (st.excluded - {s}) + {call.subject};
    }
  }

  lemma Overwrite<V>(table: map<Subject, V>, s: Subject, x: V, t: Subject, y: V)
    ensures t != s ==> table[s := x][t := y] == table[t := y][s := x]
    ensures table[s := x][s := y] == table[s := y]
  {
  }

  lemma AsIfStore(st: State, outcome: WriteOutcome, s: Subject, loaded: UsageEntry, written: bool)
    requires Enabled(st, Store(outcome))
    ensures DoStore(AsIfLoaded(st, s, loaded, written), outcome)
            == AsIfLoaded(DoStore(st, outcome), s, loaded, written || Stores(st, Store(outcome), s))
  {
    var row := st.flush.rows[st.flush.n];
    var st', end := AsIfLoaded(st, s, loaded, written), DoStore(st, outcome);
    var end' := DoStore(st', outcome);
    Overwrite(st.stored, s, loaded, row.subject, row.usage);
    assert end' == end.(stored := end'.stored, excluded := end'.excluded);
    assert end'.excluded == st.excluded - {s} && end.excluded == st.excluded;
  }

  lemma AsIfRemove(st: State, h: nat, outcome: WriteOutcome, s: Subject, loaded: UsageEntry, written: bool)
    requires Enabled(st, RemoveStored(h, outcome)) && MemoryOk(st, s)
    ensures DoRemoveStored(AsIfLoaded(st, s, loaded, written), h, outcome)
            == AsIfLoaded(DoRemoveStored(st, h, outcome), s, loaded, written)
  {
    var t := st.handlers[h].call.subject;
    assert t != s;
    assert st.stored[s := loaded] - {t} == (st.stored - {t})[s := loaded];
  }

  lemma AsIfLast(states: seq<State>, actions: seq<Action>, s: Subject, loaded: UsageEntry)
    requires Run(states, actions) && Undeleted(actions, |actions|, s) && actions != []
    ensures var n := |actions| - 1;
            && Run(states[..n + 1], actions[..n])
            && var last := AsIfLoaded(states[n], s, loaded, StoredBefore(states[..n + 1], actions[..n], n, s));
               && Enabled(last, actions[n])
               && Step(last, actions[n]) == AsIfLoaded(states[n + 1], s, loaded, StoredBefore(states, actions, n + 1, s))
  {
    var n := |actions| - 1;
    RunFront(states, actions);
    RunMemory(states, actions, n, s);
    assert Enabled(states[n], actions[n]) && states[n + 1] == Step(states[n], actions[n]) && !Deletes(actions[n], s);
    StoredBeforeStep(states, actions, s);
    var written := StoredBefore(states[..n + 1], actions[..n], n, s);
    EnabledElsewhere(states[n], AsIfLoaded(states[n], s, loaded, written), actions[n]);
    AsIfStep(states[n], actions[n], s, loaded, written);
  }

  /** The whole run, as it would be if the subject had been loaded as it was stored. */
  lemma {:induction false} AsIfRun(states: seq<State>, actions: seq<Action>, s: Subject) returns (states': seq<State>)
    requires Run(states, actions) && Undeleted(actions, |actions|, s)
    ensures Run(states', actions) && InSync(states'[0], s)
    ensures states'[|actions|] ==
      AsIfLoaded(states[|actions|], s, UsageOf(states[0].usage, s), StoredBefore(states, actions, |actions|, s))
    decreases |actions|
  {
    var loaded := UsageOf(states[0].usage, s);
    if actions == [] {
      AsIfInitial(states[0], s);
      states' := [AsIfLoaded(states[0], s, loaded, false)];
    } else {
      var n := |actions| - 1;
      RunFront(states, actions);
      var front, before := states[..n + 1], actions[..n];
      var front' := AsIfRun(front, before, s);
      AsIfLast(states, actions, s, loaded);
      var longer, all := Extend(front', before, actions[n]);
      assert all == actions;
      states' := longer;
    }
  }

  lemma RunFront(states: seq<State>, actions: seq<Action>)
    requires Run(states, actions) && actions != []
    ensures Run(states[..|actions|], actions[..|actions| - 1])
  {
  }

  lemma StoredBeforeStep(states: seq<State>, actions: seq<Action>, s: Subject)
    requires Run(states, actions) && actions != []
    ensures var n := |actions| - 1;
            && Run(states[..n + 1], actions[..n])
            && (StoredBefore(states, actions, n + 1, s)
                <==> StoredBefore(states[..n + 1], actions[..n], n, s) || Stores(states[n], actions[n], s))
  {
    var n := |actions| - 1;
    var front, before := states[..n + 1], actions[..n];
    RunFront(states, actions);
    if m :| 0 <= m < n && Stores(states[m], actions[m], s) {
      assert Stores(front[m], before[m], s);
    }
  }

  /** Once a write of the subject has reached the store, nothing of it is lost any more, even if it was not loaded as it
      was stored: it is in sync or somebody owes it, and the store holds the usage after a prefix of its history. */
  lemma WrittenIsKept(states: seq<State>, actions: seq<Action>, s: Subject)
    requires Run(states, actions) && Undeleted(actions, |actions|, s) && StoredBefore(states, actions, |actions|, s)
    ensures var end := states[|actions|];
            && Remembered(end, s)
            && VersionOf(end, s) <= |LogOf(end, s)|
            && UsageOf(end.stored, s) == Replay(StartOf(end, s), LogOf(end, s)[..VersionOf(end, s)])
  {
    var n := |actions|;
    var states' := AsIfRun(states, actions, s);
    NoLostUpdate(states', actions, n, s);
    StoreMovesForward(states', actions, n, n, s);
    SameObligations(states[n], states'[n], s);
  }

  lemma SameObligations(st: State, st': State, s: Subject)
    requires st' == st.(excluded := st'.excluded) && Remembered(st', s)
    ensures Remembered(st, s)
  {
    if HandlerOwes(st', s) {
      var h :| InFlight(st', h) && st'.handlers[h].call.subject == s && st'.handlers[h].progress.Marking?;
      assert InFlight(st, h);
    }
  }
}
