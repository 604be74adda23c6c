/** The two copies of a limit when no command to Redis fails: which calls in flight are bound to leave them in
    agreement. */
module LimitAgreement {
  import opened Options
  import opened QuotaDomain
  import opened CacheTables
  import opened LimitWriteThrough

  ghost predicate HasWriter(st: State, s: Subject) {
    exists h :: Busy(st, s, h) && st.calls[h].Writing?
  }

  ghost predicate HasCacher(st: State, s: Subject) {
    exists h :: Busy(st, s, h) && WillCache(st.calls[h])
  }

  ghost predicate HasReader(st: State, s: Subject, progress: Progress) {
    exists h :: Busy(st, s, h) && st.calls[h] == Reading(s, progress)
  }

  /** A deletion has yet to empty the cache. */
  ghost predicate WillEmpty(st: State, s: Subject) {
    exists h :: Busy(st, s, h) && st.calls[h] == Writing(s, None, false)
  }

  /** A look-up can read what Redis holds now: it has missed the cache, or it can still find the cache empty. */
  ghost predicate MayFetch(st: State, s: Subject) {
    HasReader(st, s, Missed) || (HasReader(st, s, Looking) && (s !in st.limits || WillEmpty(st, s)))
  }

  /** A look-up is bound to copy what Redis holds to the cache. */
  ghost predicate BoundToCopy(st: State, s: Subject) {
    s in st.stored && (HasReader(st, s, Missed) || (HasReader(st, s, Looking) && s !in st.limits))
  }

  /** Everything leads to v: all calls carry it; without a writer Redis has it, with one no look-up can bring back
      anything else; and the cache has it, or will be written, or will be filled from Redis. */
  ghost predicate HeadsFor(st: State, s: Subject, v: Option<QuotaEntry>) {
    && (forall h :: Busy(st, s, h) && Carries(st.calls[h]) ==> Intended(st.calls[h]) == v)
    && (HasWriter(st, s) || v == Limit(st.stored, s))
    && (s in st.stored && HasWriter(st, s) && MayFetch(st, s) ==> v == Limit(st.stored, s))
    && (Limit(st.limits, s) == v || HasCacher(st, s) || (v == Limit(st.stored, s) && BoundToCopy(st, s)))
  }

  /** However the calls in flight go on, without failures, the copies agree once the subject is quiet. */
  ghost predicate AgreesIfNoneFails(st: State, s: Subject) {
    forall st' :: Leads(st, st', s, true) && Quiet(st', s) ==> Agree(st', s)
  }

  // ----- heading for a value is kept -----

  /** What a step of one call leaves of the others. */
  lemma OthersRemain(st: State, a: Action, s: Subject)
    requires Enabled(st, a) && (a.Begin? ==> a.subject != s)
    ensures forall h :: h != a.h && Busy(st, s, h) ==> Busy(Step(st, a), s, h) && Step(st, a).calls[h] == st.calls[h]
    ensures forall h :: h != a.h && Busy(Step(st, a), s, h) ==> Busy(st, s, h)
    ensures Busy(Step(st, a), s, a.h) ==> Busy(st, s, a.h)
  {
  }

  lemma HeadingStep(st: State, a: Action, s: Subject, v: Option<QuotaEntry>)
    requires HeadsFor(st, s, v) && Enabled(st, a) && GoesOn(a, s, true)
    ensures HeadsFor(Step(st, a), s, v)
  {
    OthersRemain(st, a, s);
    if !Busy(st, s, a.h) {
      OthersStay(st, a, s);
      SameCalls(st, Step(st, a), s, v);
    } else {
      match a {
        case WriteCache(h) => HeadingWriteCache(st, h, s, v);
        case WriteStore(h, _) => HeadingWriteStore(st, h, s, v);
        case Look(h) => HeadingLook(st, h, s, v);
        case Fetch(h, _) => HeadingFetch(st, h, s, v);
        case Fill(h) => HeadingFill(st, h, s, v);
      }
    }
  }

  lemma SameCalls(st: State, st': State, s: Subject, v: Option<QuotaEntry>)
    requires HeadsFor(st, s, v)
    requires Limit(st'.limits, s) == Limit(st.limits, s) && Limit(st'.stored, s) == Limit(st.stored, s)
    requires forall h :: (Busy(st', s, h) <==> Busy(st, s, h)) && (Busy(st, s, h) ==> st'.calls[h] == st.calls[h])
    ensures HeadsFor(st', s, v)
  {
    assert s in st'.limits <==> s in st.limits;
    assert s in st'.stored <==> s in st.stored;
    assert HasWriter(st', s) <==> HasWriter(st, s);
    assert HasCacher(st, s) ==> HasCacher(st', s);
    assert WillEmpty(st', s) ==> WillEmpty(st, s);
    assert forall progress :: HasReader(st', s, progress) <==> HasReader(st, s, progress);
  }

  lemma HeadingWriteCache(st: State, h: nat, s: Subject, v: Option<QuotaEntry>)
    requires HeadsFor(st, s, v) && Enabled(st, WriteCache(h)) && Busy(st, s, h)
    ensures HeadsFor(Step(st, WriteCache(h)), s, v)
  {
    var st' := Step(st, WriteCache(h));
    OthersRemain(st, WriteCache(h), s);
    assert Intended(st.calls[h]) == v;
    assert Busy(st', s, h) && st'.calls[h] == Writing(s, v, true);
    assert HasWriter(st, s);
    if MayFetch(st', s) {
      if v.None? { assert WillEmpty(st, s); }
      ReadersRemain(st, st', s);
    }
  }

  lemma ReadersRemain(st: State, st': State, s: Subject)
    requires forall h :: Busy(st', s, h) && st'.calls[h].Reading? ==> Busy(st, s, h) && st.calls[h] == st'.calls[h]
    ensures forall progress :: HasReader(st', s, progress) ==> HasReader(st, s, progress)
  {
  }

  lemma HeadingWriteStore(st: State, h: nat, s: Subject, v: Option<QuotaEntry>)
    requires HeadsFor(st, s, v) && Enabled(st, WriteStore(h, Done)) && Busy(st, s, h)
    ensures HeadsFor(Step(st, WriteStore(h, Done)), s, v)
  {
    var st' := Step(st, WriteStore(h, Done));
    OthersRemain(st, WriteStore(h, Done), s);
    assert Intended(st.calls[h]) == v;
    assert Limit(st'.stored, s) == v && st'.limits == st.limits;
    assert HasCacher(st, s) ==> HasCacher(st', s);
    ReadersRemain(st', st, s);
  }

  lemma HeadingLook(st: State, h: nat, s: Subject, v: Option<QuotaEntry>)
    requires HeadsFor(st, s, v) && Enabled(st, Look(h)) && Busy(st, s, h)
    ensures HeadsFor(Step(st, Look(h)), s, v)
  {
    var st' := Step(st, Look(h));
    OthersRemain(st, Look(h), s);
    assert st'.stored == st.stored && st'.limits == st.limits;
    assert HasReader(st, s, Looking);
    assert HasWriter(st', s) <==> HasWriter(st, s);
    assert HasCacher(st, s) ==> HasCacher(st', s);
    assert WillEmpty(st', s) ==> WillEmpty(st, s);
    if s in st.limits {
      assert MayFetch(st', s) ==> MayFetch(st, s);
      assert HasReader(st, s, Missed) ==> HasReader(st', s, Missed);
    } else {
      assert Busy(st', s, h) && st'.calls[h] == Reading(s, Missed);
    }
  }

  lemma HeadingFetch(st: State, h: nat, s: Subject, v: Option<QuotaEntry>)
    requires HeadsFor(st, s, v) && Enabled(st, Fetch(h, Done)) && Busy(st, s, h)
    ensures HeadsFor(Step(st, Fetch(h, Done)), s, v)
  {
    var st' := Step(st, Fetch(h, Done));
    OthersRemain(st, Fetch(h, Done), s);
    assert st'.stored == st.stored && st'.limits == st.limits;
    assert HasReader(st, s, Missed);
    assert HasWriter(st', s) <==> HasWriter(st, s);
    assert HasCacher(st, s) ==> HasCacher(st', s);
    if s in st.stored {
      assert Busy(st', s, h) && st'.calls[h] == Reading(s, Fetched(st.stored[s]));
      assert HasCacher(st', s);
    }
  }

  lemma HeadingFill(st: State, h: nat, s: Subject, v: Option<QuotaEntry>)
    requires HeadsFor(st, s, v) && Enabled(st, Fill(h)) && Busy(st, s, h)
    ensures HeadsFor(Step(st, Fill(h)), s, v)
  {
    var st' := Step(st, Fill(h));
    OthersRemain(st, Fill(h), s);
    assert Intended(st.calls[h]) == v;
    assert Limit(st'.limits, s) == v && st'.stored == st.stored;
    assert HasWriter(st', s) <==> HasWriter(st, s);
    ReadersRemain(st, st', s);
    assert MayFetch(st', s) ==> HasReader(st, s, Missed) || (HasReader(st, s, Looking) && WillEmpty(st, s));
  }

  lemma {:induction false} HeadingPath(states: seq<State>, actions: seq<Action>, s: Subject, v: Option<QuotaEntry>)
    requires Path(states, actions, s, true) && HeadsFor(states[0], s, v)
    ensures HeadsFor(states[|actions|], s, v)
    decreases |actions|
  {
    if actions != [] {
      var n := |actions| - 1;
      HeadingPath(states[..n + 1], actions[..n], s, v);
      assert Enabled(states[n], actions[n]) && GoesOn(actions[n], s, true)
        && states[n + 1] == Step(states[n], actions[n]);
      HeadingStep(states[n], actions[n], s, v);
    }
  }

  // ----- calls that run to their ends -----

  /** One call runs to its end without a failure. */
  lemma Finish(st: State, s: Subject, h: nat) returns (st': State)
    requires Busy(st, s, h)
    ensures Leads(st, st', s, true) && st'.calls == st.calls - {h}
    ensures st.calls[h].Writing? ==> Limit(st'.stored, s) == st.calls[h].limit
    ensures st.calls[h].Writing? && st.calls[h].cached ==> st'.limits == st.limits
    ensures st.calls[h].Reading? ==> st'.stored == st.stored
    ensures st.calls[h].Reading? && st.calls[h].progress.Fetched? ==> Limit(st'.limits, s) == Intended(st.calls[h])
    ensures Idle(st, s, st.calls[h]) ==> st'.limits == st.limits
  {
    if st.calls[h].Writing? {
      st' := FinishWriting(st, s, h);
    } else {
      st' := FinishReading(st, s, h);
    }
  }

  /** A look-up that will find a cached limit, or none in Redis, and so write nothing. */
  ghost predicate Idle(st: State, s: Subject, call: Call) {
    call.Reading? && !call.progress.Fetched? && (s !in st.stored || (call.progress.Looking? && s in st.limits))
  }

  lemma FinishWriting(st: State, s: Subject, h: nat) returns (st': State)
    requires Busy(st, s, h) && st.calls[h].Writing?
    ensures Leads(st, st', s, true) && st'.calls == st.calls - {h}
    ensures Limit(st'.stored, s) == st.calls[h].limit
    ensures st.calls[h].cached ==> st'.limits == st.limits
  {
    var mid := if st.calls[h].cached then st else Step(st, WriteCache(h));
    st' := Step(mid, WriteStore(h, Done));
    LeadsHere(st', s, true);
    LeadsOn(mid, WriteStore(h, Done), st', s, true);
    if !st.calls[h].cached { LeadsOn(st, WriteCache(h), st', s, true); }
    assert st'.calls == st.calls - {h};
  }

  lemma FinishReading(st: State, s: Subject, h: nat) returns (st': State)
    requires Busy(st, s, h) && st.calls[h].Reading?
    ensures Leads(st, st', s, true) && st'.calls == st.calls - {h} && st'.stored == st.stored
    ensures st.calls[h].progress.Fetched? ==> Limit(st'.limits, s) == Intended(st.calls[h])
    ensures Idle(st, s, st.calls[h]) ==> st'.limits == st.limits
    decreases match st.calls[h].progress case Looking => 2 case Missed => 1 case Fetched(_) => 0
  {
    var progress := st.calls[h].progress;
    var a := if progress.Looking? then Look(h) else if progress.Missed? then Fetch(h, Done) else Fill(h);
    var mid := Step(st, a);
    if h in mid.calls {
      st' := FinishReading(mid, s, h);
    } else {
      st' := mid;
      LeadsHere(st', s, true);
    }
    LeadsOn(st, a, st', s, true);
    assert st'.calls == st.calls - {h};
  }

  /** All calls on the subject run to their ends, except some. */
  lemma {:induction false} FinishOthers(st: State, s: Subject, keep: set<nat>) returns (st': State)
    ensures Leads(st, st', s, true)
    ensures forall h :: Busy(st', s, h) <==> Busy(st, s, h) && h in keep
    ensures forall h :: Busy(st', s, h) ==> h in st.calls && st'.calls[h] == st.calls[h]
    ensures (forall h :: Busy(st, s, h) && h !in keep ==> st.calls[h].Reading?) ==> st'.stored == st.stored
    decreases |st.calls|
  {
    if h :| Busy(st, s, h) && h !in keep {
      var mid := Finish(st, s, h);
      assert st.calls.Keys == mid.calls.Keys + {h};
      assert forall g :: Busy(mid, s, g) <==> Busy(st, s, g) && g != h;
      st' := FinishOthers(mid, s, keep);
      LeadsThrough(st, mid, st', s, true);
    } else {
      st' := st;
      LeadsHere(st, s, true);
    }
  }

  // ----- calls that carry different limits -----

  ghost predicate OnlyTwo(st: State, s: Subject, g: nat, h: nat) {
    g != h && forall x :: Busy(st, s, x) <==> x == g || x == h
  }

  lemma FinishTwo(st: State, s: Subject, g: nat, h: nat) returns (mid: State, st': State)
    requires OnlyTwo(st, s, g, h) && Busy(st, s, g) && Busy(st, s, h)
    ensures Leads(st, st', s, true) && Quiet(st', s)
    ensures st.calls[g].Writing? ==> Limit(mid.stored, s) == st.calls[g].limit
    ensures st.calls[g].Writing? && st.calls[g].cached ==> mid.limits == st.limits
    ensures st.calls[g].Reading? ==> mid.stored == st.stored
    ensures st.calls[h].Writing? ==> Limit(st'.stored, s) == st.calls[h].limit
    ensures st.calls[h].Writing? && st.calls[h].cached ==> st'.limits == mid.limits
    ensures st.calls[h].Reading? ==> st'.stored == mid.stored
    ensures st.calls[h].Reading? && st.calls[h].progress.Fetched? ==> Limit(st'.limits, s) == Intended(st.calls[h])
  {
    mid := Finish(st, s, g);
    assert Busy(mid, s, h) && mid.calls[h] == st.calls[h];
    st' := Finish(mid, s, h);
    LeadsThrough(st, mid, st', s, true);
    forall x ensures !Busy(st', s, x) {
      if x in st'.calls { assert x in st.calls && !(Busy(st, s, x)); }
    }
  }

  /** Two writers that have written the cache: whichever value it has, the other one can come last in Redis. */
  lemma TwoPending(st: State, s: Subject, g: nat, h: nat) returns (st': State)
    requires OnlyTwo(st, s, g, h)
    requires Busy(st, s, g) && Busy(st, s, h) && st.calls[g].Writing? && st.calls[h].Writing?
    requires st.calls[g].cached && st.calls[h].cached && st.calls[g].limit != st.calls[h].limit
    ensures Leads(st, st', s, true) && Quiet(st', s) && !Agree(st', s)
  {
    var mid;
    if Limit(st.limits, s) == st.calls[g].limit {
      mid, st' := FinishTwo(st, s, g, h);
    } else {
      mid, st' := FinishTwo(st, s, h, g);
    }
  }

  /** Two writers, each brought to the point where it owes Redis its write. */
  lemma {:induction false} TwoWriters(st: State, s: Subject, g: nat, h: nat) returns (st': State)
    requires OnlyTwo(st, s, g, h)
    requires Busy(st, s, g) && Busy(st, s, h) && st.calls[g].Writing? && st.calls[h].Writing?
    requires st.calls[g].limit != st.calls[h].limit
    ensures Leads(st, st', s, true) && Quiet(st', s) && !Agree(st', s)
    decreases (if st.calls[g].cached then 0 else 1) + (if st.calls[h].cached then 0 else 1)
  {
    if st.calls[g].cached && st.calls[h].cached {
      st' := TwoPending(st, s, g, h);
    } else {
      var a := WriteCache(if st.calls[g].cached then h else g);
      var mid := Step(st, a);
      OthersRemain(st, a, s);
      assert Busy(mid, s, g) && Busy(mid, s, h);
      st' := TwoWriters(mid, s, g, h);
      LeadsOn(st, a, st', s, true);
    }
  }

  /** A fetched limit that is put into the cache last. */
  lemma FetchedLast(st: State, s: Subject, g: nat, h: nat) returns (st': State)
    requires OnlyTwo(st, s, g, h)
    requires Busy(st, s, g) && Busy(st, s, h) && Carries(st.calls[g]) && Carries(st.calls[h]) && st.calls[h].Reading?
    requires Intended(st.calls[g]) != Intended(st.calls[h])
    ensures Leads(st, st', s, true) && Quiet(st', s) && !Agree(st', s)
  {
    var mid;
    if st.calls[g].Writing? || Intended(st.calls[h]) != Limit(st.stored, s) {
      mid, st' := FinishTwo(st, s, g, h);
    } else {
      mid, st' := FinishTwo(st, s, h, g);
    }
  }

  /** Two calls that carry different limits can leave the copies apart. */
  lemma TwoDiffer(st: State, s: Subject, g: nat, h: nat) returns (st': State)
    requires Busy(st, s, g) && Busy(st, s, h) && Carries(st.calls[g]) && Carries(st.calls[h])
    requires Intended(st.calls[g]) != Intended(st.calls[h])
    ensures Leads(st, st', s, true) && Quiet(st', s) && !Agree(st', s)
  {
    var mid := FinishOthers(st, s, {g, h});
    assert Busy(mid, s, g) && Busy(mid, s, h) && OnlyTwo(mid, s, g, h);
    if mid.calls[g].Writing? && mid.calls[h].Writing? {
      st' := TwoWriters(mid, s, g, h);
    } else if mid.calls[h].Reading? {
      st' := FetchedLast(mid, s, g, h);
    } else {
      st' := FetchedLast(mid, s, h, g);
    }
    LeadsThrough(st, mid, st', s, true);
  }

  // ----- every other way to fail -----

  /** A fetched limit that is not the stored one, and nobody to store it. */
  lemma FetchedOutdated(st: State, s: Subject, h: nat) returns (st': State)
    requires Busy(st, s, h) && st.calls[h].Reading? && st.calls[h].progress.Fetched? && !HasWriter(st, s)
    requires Intended(st.calls[h]) != Limit(st.stored, s)
    ensures Leads(st, st', s, true) && Quiet(st', s) && !Agree(st', s)
  {
    var mid := FinishOthers(st, s, {h});
    assert Busy(mid, s, h) && mid.stored == st.stored;
    st' := Finish(mid, s, h);
    LeadsThrough(st, mid, st', s, true);
  }

  /** A look-up reads the stored limit now; a writer carries another one. */
  lemma FetchNow(st: State, s: Subject, w: nat) returns (st': State)
    requires Busy(st, s, w) && st.calls[w].Writing? && s in st.stored && st.calls[w].limit != Some(st.stored[s])
    requires HasReader(st, s, Missed)
    ensures Leads(st, st', s, true) && Quiet(st', s) && !Agree(st', s)
  {
    var h :| Busy(st, s, h) && st.calls[h] == Reading(s, Missed);
    var mid := Step(st, Fetch(h, Done));
    assert Busy(mid, s, h) && Busy(mid, s, w) && mid.calls[w] == st.calls[w];
    st' := TwoDiffer(mid, s, w, h);
    LeadsOn(st, Fetch(h, Done), st', s, true);
  }

  lemma LookNow(st: State, s: Subject, w: nat) returns (st': State)
    requires Busy(st, s, w) && st.calls[w].Writing? && s in st.stored && st.calls[w].limit != Some(st.stored[s])
    requires HasReader(st, s, Looking) && s !in st.limits
    ensures Leads(st, st', s, true) && Quiet(st', s) && !Agree(st', s)
  {
    var h :| Busy(st, s, h) && st.calls[h] == Reading(s, Looking);
    var mid := Step(st, Look(h));
    assert Busy(mid, s, h) && mid.calls[h] == Reading(s, Missed) && Busy(mid, s, w) && mid.calls[w] == st.calls[w];
    st' := FetchNow(mid, s, w);
    LeadsOn(st, Look(h), st', s, true);
  }

  lemma EmptyThenLook(st: State, s: Subject) returns (st': State)
    requires WillEmpty(st, s) && HasReader(st, s, Looking) && s in st.stored
    ensures Leads(st, st', s, true) && Quiet(st', s) && !Agree(st', s)
  {
    var u :| Busy(st, s, u) && st.calls[u] == Writing(s, None, false);
    var h :| Busy(st, s, h) && st.calls[h] == Reading(s, Looking);
    var mid := Step(st, WriteCache(u));
    assert Busy(mid, s, u) && Busy(mid, s, h) && mid.calls[h] == Reading(s, Looking);
    st' := LookNow(mid, s, u);
    LeadsOn(st, WriteCache(u), st', s, true);
  }

  /** A look-up can bring back a limit that a writer is about to replace. */
  lemma FetchedBack(st: State, s: Subject, w: nat) returns (st': State)
    requires Busy(st, s, w) && st.calls[w].Writing? && s in st.stored && st.calls[w].limit != Some(st.stored[s])
    requires MayFetch(st, s)
    ensures Leads(st, st', s, true) && Quiet(st', s) && !Agree(st', s)
  {
    if HasReader(st, s, Missed) {
      st' := FetchNow(st, s, w);
    } else if s !in st.limits {
      st' := LookNow(st, s, w);
    } else {
      st' := EmptyThenLook(st, s);
    }
  }

  /** Calls none of which writes the cache. */
  ghost predicate LeavesCache(st: State, s: Subject, v: Option<QuotaEntry>) {
    forall h :: Busy(st, s, h) ==> Idle(st, s, st.calls[h]) || st.calls[h] == Writing(s, v, true)
  }

  lemma FinishLookUp(st: State, s: Subject, v: Option<QuotaEntry>, h: nat) returns (mid: State)
    requires LeavesCache(st, s, v) && Busy(st, s, h) && st.calls[h].Reading?
    ensures Leads(st, mid, s, true) && mid.calls == st.calls - {h} && mid.limits == st.limits && mid.stored == st.stored
    ensures LeavesCache(mid, s, v) && (HasWriter(st, s) ==> HasWriter(mid, s))
  {
    mid := Finish(st, s, h);
    forall g | Busy(mid, s, g) ensures Idle(mid, s, mid.calls[g]) || mid.calls[g] == Writing(s, v, true) {
      assert Busy(st, s, g);
    }
    if w :| Busy(st, s, w) && st.calls[w].Writing? {
      assert Busy(mid, s, w);
    }
  }

  lemma FinishWriter(st: State, s: Subject, v: Option<QuotaEntry>, h: nat) returns (mid: State)
    requires LeavesCache(st, s, v) && Busy(st, s, h) && forall g :: Busy(st, s, g) ==> st.calls[g].Writing?
    ensures Leads(st, mid, s, true) && mid.calls == st.calls - {h} && mid.limits == st.limits
      && Limit(mid.stored, s) == v
    ensures LeavesCache(mid, s, v)
  {
    mid := Finish(st, s, h);
    forall g | Busy(mid, s, g) ensures mid.calls[g] == Writing(s, v, true) {
      assert Busy(st, s, g);
    }
  }

  /** Look-ups first, so that they see what Redis holds now; then the writers. */
  lemma {:induction false} CacheLeft(st: State, s: Subject, v: Option<QuotaEntry>) returns (st': State)
    requires LeavesCache(st, s, v) && (HasWriter(st, s) || v == Limit(st.stored, s))
    ensures Leads(st, st', s, true) && Quiet(st', s)
    ensures Limit(st'.limits, s) == Limit(st.limits, s) && Limit(st'.stored, s) == v
    decreases |st.calls|
  {
    if Quiet(st, s) {
      st' := st;
      LeadsHere(st, s, true);
    } else {
      var h :| Busy(st, s, h);
      var mid;
      if g :| Busy(st, s, g) && st.calls[g].Reading? {
        h := g;
        mid := FinishLookUp(st, s, v, h);
      } else {
        mid := FinishWriter(st, s, v, h);
      }
      assert st.calls.Keys == mid.calls.Keys + {h};
      st' := CacheLeft(mid, s, v);
      LeadsThrough(st, mid, st', s, true);
    }
  }

  /** The value that everything would have to lead to: what some call carries, or else what Redis holds. */
  lemma Candidate(st: State, s: Subject) returns (v: Option<QuotaEntry>)
    ensures (exists h :: Busy(st, s, h) && Carries(st.calls[h]) && Intended(st.calls[h]) == v)
            || (v == Limit(st.stored, s) && forall h :: Busy(st, s, h) ==> !Carries(st.calls[h]))
  {
    if h :| Busy(st, s, h) && Carries(st.calls[h]) {
      v := Intended(st.calls[h]);
    } else {
      v := Limit(st.stored, s);
    }
  }

  /** Nobody will write the cache, and it holds something else. */
  lemma CacheStaysOff(st: State, s: Subject, v: Option<QuotaEntry>) returns (st': State)
    requires forall h :: Busy(st, s, h) && Carries(st.calls[h]) ==> Intended(st.calls[h]) == v
    requires HasWriter(st, s) || v == Limit(st.stored, s)
    requires s in st.stored && HasWriter(st, s) && MayFetch(st, s) ==> v == Limit(st.stored, s)
    requires Limit(st.limits, s) != v && !HasCacher(st, s) && !(v == Limit(st.stored, s) && BoundToCopy(st, s))
    ensures Leads(st, st', s, true) && Quiet(st', s) && !Agree(st', s)
  {
    forall h | Busy(st, s, h) ensures Idle(st, s, st.calls[h]) || st.calls[h] == Writing(s, v, true) {
      assert !WillCache(st.calls[h]);
      if st.calls[h].Reading? {
        assert HasReader(st, s, st.calls[h].progress);
      }
    }
    st' := CacheLeft(st, s, v);
  }

  /** Without failures the copies are bound to agree exactly when everything leads to one value. */
  lemma AgreesIfNoneFailsIff(st: State, s: Subject)
    ensures AgreesIfNoneFails(st, s) <==> exists v :: HeadsFor(st, s, v)
  {
    if v :| HeadsFor(st, s, v) {
      forall st' | Leads(st, st', s, true) && Quiet(st', s) ensures Agree(st', s) {
        var states, actions :| Path(states, actions, s, true) && states[0] == st && states[|actions|] == st';
        HeadingPath(states, actions, s, v);
      }
    } else {
      var st' := ComesApart(st, s);
      assert Leads(st, st', s, true) && Quiet(st', s) && !Agree(st', s);
    }
  }

  lemma ComesApart(st: State, s: Subject) returns (st': State)
    requires forall v :: !HeadsFor(st, s, v)
    ensures Leads(st, st', s, true) && Quiet(st', s) && !Agree(st', s)
  {
    var v := Candidate(st, s);
    if h :| Busy(st, s, h) && Carries(st.calls[h]) && Intended(st.calls[h]) != v {
      var g :| Busy(st, s, g) && Carries(st.calls[g]) && Intended(st.calls[g]) == v;
      st' := TwoDiffer(st, s, g, h);
    } else if !HasWriter(st, s) && v != Limit(st.stored, s) {
      var h :| Busy(st, s, h) && Carries(st.calls[h]);
      st' := FetchedOutdated(st, s, h);
    } else if s in st.stored && HasWriter(st, s) && MayFetch(st, s) && v != Limit(st.stored, s) {
      var w :| Busy(st, s, w) && st.calls[w].Writing?;
      assert Carries(st.calls[w]);
      st' := FetchedBack(st, s, w);
    } else {
      assert !HeadsFor(st, s, v);
      st' := CacheStaysOff(st, s, v);
    }
  }
}
