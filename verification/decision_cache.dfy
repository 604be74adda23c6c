/** Authorization checks through a decision cache with a time to live, in front of a graph that changes. Calls are
    interleaved at every access to cache, graph store and audit log. The history fields (`history`, `recorded`, `used`),
    the instants and the `asked` queries carried along record what happened; no step depends on them. */
module DecisionCaching {
  import opened Options
  import opened DecisionKeys

  const TTL_SECONDS: real := 30.0

  datatype Tuple = Tuple(subject: string, relation: string, object: string)

  datatype Op = WriteTuple | DeleteTuple

  /** What the graph decides, for every query. */
  type Graph = Query -> bool

  /** From time `at` on the graph decided like this. */
  datatype Moment = Moment(at: real, graph: Graph)

  /** An instant: a time, and the moment whose graph was current then. */
  datatype Instant = Instant(time: real, moment: nat)

  /** A cached decision; `asked` is the query it was given to, and `origin` the instant at which. */
  datatype Entry = Entry(allowed: bool, expires: real, asked: Query, origin: Instant)

  /** A check on its way: it looks into the cache, asks the graph on a miss, writes the cache, emits the audit event and
      returns. `origin` is the instant at which the graph gave the answer, `asked` the query it gave it to. */
  datatype Phase =
    | Looking
    | Missed(lookedAt: real)
    | Asked(lookedAt: real, allowed: bool, origin: Instant)
    | Decided(lookedAt: real, allowed: bool, asked: Query, origin: Instant, hit: bool)
    | Audited(lookedAt: real, allowed: bool, asked: Query, origin: Instant, hit: bool)

  /** A mutation on its way: it changes the graph and, if the store recorded a change, emits the audit event. */
  datatype MutationPhase = Changing | Recorded(at: Option<int>) | Reported(at: Option<int>)

  datatype Call = Checking(query: Query, phase: Phase) | Mutating(op: Op, tuple: Tuple, mutation: MutationPhase)

  datatype Answer =
    | Decision(query: Query, allowed: bool, hit: bool, lookedAt: real, asked: Query, origin: Instant)
    | Mutated(op: Op, tuple: Tuple, at: Option<int>)

  datatype DecisionEvent = DecisionEvent(id: nat, query: Query, allowed: bool)
  datatype TupleEvent = TupleEvent(id: nat, op: Op, tuple: Tuple, at: int)

  datatype State = State(
    now: real,
    cache: map<string, Entry>,
    calls: map<nat, Call>,
    answers: map<nat, Answer>,
    decisionEvents: seq<DecisionEvent>,
    tupleEvents: seq<TupleEvent>,
    history: seq<Moment>,
    recorded: seq<TupleEvent>,
    used: set<nat>)

  datatype Action =
    | Tick(seconds: real)
    | Evict(key: string)
    | Begin(id: nat, call: Call)
    | Lookup(id: nat)
    | AskGraph(id: nat)
    | WriteCache(id: nat)
    | Emit(id: nat)
    | Return(id: nat)
    | Change(id: nat, graph: Graph, at: Option<int>)
    | Raise(id: nat)

  function CurrentGraph(st: State): Graph
    requires st.history != []
  {
    st.history[|st.history| - 1].graph
  }

  /** `slowest` bounds the time from a call's graph query to its cache write. */
  ghost predicate Enabled(st: State, a: Action, slowest: real) {
    match a
    case Tick(seconds) => seconds >= 0.0
    case Evict(key) => key in st.cache
    case Begin(id, call) => id !in st.used && (call.Checking? ==> call.phase.Looking?)
      && (call.Mutating? ==> call.mutation.Changing?)
    case Lookup(id) => id in st.calls && st.calls[id].Checking? && st.calls[id].phase.Looking?
    case AskGraph(id) => id in st.calls && st.calls[id].Checking? && st.calls[id].phase.Missed? && st.history != []
    case WriteCache(id) =>
      && id in st.calls && st.calls[id].Checking? && st.calls[id].phase.Asked?
      && st.now - st.calls[id].phase.origin.time <= slowest
    case Emit(id) =>
      && id in st.calls
      && ((st.calls[id].Checking? && st.calls[id].phase.Decided?) || (st.calls[id].Mutating? && st.calls[id].mutation.Recorded?))
    case Return(id) =>
      && id in st.calls
      && ((st.calls[id].Checking? && st.calls[id].phase.Audited?) || (st.calls[id].Mutating? && st.calls[id].mutation.Reported?))
    case Change(id, _, _) => id in st.calls && st.calls[id].Mutating? && st.calls[id].mutation.Changing?
    case Raise(id) => id in st.calls
  }

  ghost function WithCall(st: State, id: nat, call: Call): map<nat, Call> {
    st.calls[id := call]
  }

  /** A hit needs an entry that has not expired. */
  ghost function DoLookup(st: State, id: nat): State
    requires id in st.calls && st.calls[id].Checking?
  {
    var q := st.calls[id].query;
    var key := KeyOf(q);
    var phase :=
      if key in st.cache && st.now < st.cache[key].expires then
        Decided(st.now, st.cache[key].allowed, st.cache[key].asked, st.cache[key].origin, true)
      else
        Missed(st.now);
    st.(calls := WithCall(st, id, Checking(q, phase)))
  }

  ghost function DoAskGraph(st: State, id: nat): State
    requires id in st.calls && st.calls[id].Checking? && st.calls[id].phase.Missed? && st.history != []
  {
    var q := st.calls[id].query;
    var origin := Instant(st.now, |st.history| - 1);
    st.(calls := WithCall(st, id, Checking(q, Asked(st.calls[id].phase.lookedAt, CurrentGraph(st)(q), origin))))
  }

  ghost function DoWriteCache(st: State, id: nat): State
    requires id in st.calls && st.calls[id].Checking? && st.calls[id].phase.Asked?
  {
    var q, phase := st.calls[id].query, st.calls[id].phase;
    st.(cache := st.cache[KeyOf(q) := Entry(phase.allowed, st.now + TTL_SECONDS, q, phase.origin)],
        calls := WithCall(st, id, Checking(q, Decided(phase.lookedAt, phase.allowed, q, phase.origin, false))))
  }

  ghost function DoEmitDecision(st: State, id: nat): State
    requires id in st.calls && st.calls[id].Checking? && st.calls[id].phase.Decided?
  {
    var q, phase := st.calls[id].query, st.calls[id].phase;
    st.(decisionEvents := st.decisionEvents + [DecisionEvent(id, q, phase.allowed)],
        calls := WithCall(st, id, Checking(q, Audited(phase.lookedAt, phase.allowed, phase.asked, phase.origin, phase.hit))))
  }

  ghost function DoEmitTuple(st: State, id: nat): State
    requires id in st.calls && st.calls[id].Mutating? && st.calls[id].mutation.Recorded?
  {
    var Mutating(op, tuple, mutation) := st.calls[id];
    var at := mutation.at;
    st.(tupleEvents := if at.Some? then st.tupleEvents + [TupleEvent(id, op, tuple, at.value)] else st.tupleEvents,
        calls := WithCall(st, id, Mutating(op, tuple, Reported(at))))
  }

  ghost function DoReturn(st: State, id: nat): State
    requires id in st.calls
    requires st.calls[id].Checking? ==> st.calls[id].phase.Audited?
    requires st.calls[id].Mutating? ==> st.calls[id].mutation.Reported?
  {
    var call := st.calls[id];
    var answer :=
      if call.Checking? then
        Decision(call.query, call.phase.allowed, call.phase.hit, call.phase.lookedAt, call.phase.asked, call.phase.origin)
      else Mutated(call.op, call.tuple, call.mutation.at);
    st.(calls := st.calls - {id}, answers := st.answers[id := answer])
  }

  /** The store changes the graph in any way, and says when it recorded a change, if it did. */
  ghost function DoChange(st: State, id: nat, graph: Graph, at: Option<int>): State
    requires id in st.calls && st.calls[id].Mutating?
  {
    var Mutating(op, tuple, _) := st.calls[id];
    st.(history := st.history + [Moment(st.now, graph)],
        recorded := if at.Some? then st.recorded + [TupleEvent(id, op, tuple, at.value)] else st.recorded,
        calls := WithCall(st, id, Mutating(op, tuple, Recorded(at))))
  }

  ghost function Step(st: State, a: Action, slowest: real): State
    requires Enabled(st, a, slowest)
  {
    match a
    case Tick(seconds) => st.(now := st.now + seconds)
    case Evict(key) => st.(cache := st.cache - {key})
    case Begin(id, call) => st.(calls := WithCall(st, id, call), used := st.used + {id})
    case Lookup(id) => DoLookup(st, id)
    case AskGraph(id) => DoAskGraph(st, id)
    case WriteCache(id) => DoWriteCache(st, id)
    case Emit(id) => if st.calls[id].Checking? then DoEmitDecision(st, id) else DoEmitTuple(st, id)
    case Return(id) => DoReturn(st, id)
    case Change(id, graph, at) => DoChange(st, id, graph, at)
    case Raise(id) => st.(calls := st.calls - {id})
  }

  ghost predicate Initial(st: State) {
    && st.cache == map[] && st.calls == map[] && st.answers == map[] && st.decisionEvents == [] && st.tupleEvents == []
    && |st.history| == 1 && st.history[0].at <= st.now && st.recorded == [] && st.used == {}
  }

  ghost predicate Run(states: seq<State>, actions: seq<Action>, slowest: real) {
    && |states| == |actions| + 1
    && Initial(states[0])
    && forall k :: 0 <= k < |actions| ==>
         Enabled(states[k], actions[k], slowest) && states[k + 1] == Step(states[k], actions[k], slowest)
  }

  // ----- staleness -----

  /** At the instant the graph gave this answer to the query. */
  ghost predicate Held(st: State, q: Query, allowed: bool, i: Instant) {
    && i.moment < |st.history|
    && st.history[i.moment].graph(q) == allowed
    && st.history[i.moment].at <= i.time <= st.now
    && (i.moment + 1 < |st.history| ==> i.time <= st.history[i.moment + 1].at)
  }

  /** The answer to a check of q that looked into the cache at `lookedAt`: the graph gave it, recently enough, to a
      query
      with the same key. */
  ghost predicate Fresh(st: State, q: Query, asked: Query, allowed: bool, lookedAt: real, origin: Instant,
                        slowest: real) {
    KeyOf(asked) == KeyOf(q) && Held(st, asked, allowed, origin) && origin.time > lookedAt - (TTL_SECONDS + slowest)
  }

  /** Where an answer comes from: on a hit from before the lookup, on a miss from the check's own question since. */
  ghost predicate Sourced(q: Query, asked: Query, lookedAt: real, origin: Instant, hit: bool) {
    if hit then origin.time <= lookedAt else asked == q && lookedAt <= origin.time
  }

  ghost predicate EntryOk(st: State, key: string, entry: Entry, slowest: real) {
    && KeyOf(entry.asked) == key && Held(st, entry.asked, entry.allowed, entry.origin)
    && entry.expires <= entry.origin.time + slowest + TTL_SECONDS
  }

  ghost predicate CallOk(st: State, call: Call, slowest: real) {
    call.Checking? ==>
      match call.phase
      case Looking => true
      case Missed(lookedAt) => lookedAt <= st.now
      case Asked(lookedAt, allowed, origin) => Held(st, call.query, allowed, origin) && lookedAt <= origin.time
      case Decided(lookedAt, allowed, asked, origin, hit) =>
        && Fresh(st, call.query, asked, allowed, lookedAt, origin, slowest)
        && Sourced(call.query, asked, lookedAt, origin, hit)
      case Audited(lookedAt, allowed, asked, origin, hit) =>
        && Fresh(st, call.query, asked, allowed, lookedAt, origin, slowest)
        && Sourced(call.query, asked, lookedAt, origin, hit)
  }

  ghost predicate AnswerOk(st: State, answer: Answer, slowest: real) {
    answer.Decision? ==>
      && Fresh(st, answer.query, answer.asked, answer.allowed, answer.lookedAt, answer.origin, slowest)
      && Sourced(answer.query, answer.asked, answer.lookedAt, answer.origin, answer.hit)
  }

  ghost predicate CacheOk(st: State, slowest: real) {
    forall key :: key in st.cache ==> EntryOk(st, key, st.cache[key], slowest)
  }

  ghost predicate CallsOk(st: State, slowest: real) {
    forall id :: id in st.calls ==> CallOk(st, st.calls[id], slowest)
  }

  ghost predicate AnswersOk(st: State, slowest: real) {
    forall id :: id in st.answers ==> AnswerOk(st, st.answers[id], slowest)
  }

  ghost predicate FreshInv(st: State, slowest: real) {
    && st.history != [] && st.history[|st.history| - 1].at <= st.now
    && CacheOk(st, slowest) && CallsOk(st, slowest) && AnswersOk(st, slowest)
  }

  /** Time and graph only move on. */
  ghost predicate Later(st: State, st': State) {
    && st.now <= st'.now
    && (st'.history == st.history || (|st'.history| == |st.history| + 1 && st.history <= st'.history
                                      && st'.history[|st.history|].at == st.now))
  }

  lemma StepIsLater(st: State, a: Action, slowest: real)
    requires Enabled(st, a, slowest)
    ensures Later(st, Step(st, a, slowest))
  {
  }

  lemma HeldStays(st: State, st': State, q: Query, allowed: bool, i: Instant)
    requires Held(st, q, allowed, i) && Later(st, st')
    ensures Held(st', q, allowed, i)
  {
  }

  lemma FreshStep(st: State, a: Action, slowest: real)
    requires FreshInv(st, slowest) && slowest >= 0.0 && Enabled(st, a, slowest)
    ensures FreshInv(Step(st, a, slowest), slowest)
  {
    CacheStep(st, a, slowest);
    forall id | id in Step(st, a, slowest).calls ensures CallOk(Step(st, a, slowest), Step(st, a, slowest).calls[id], slowest) {
      CallStep(st, a, slowest, id);
    }
    AnswersStep(st, a, slowest);
    HistoryStep(st, a, slowest);
  }

  lemma HistoryStep(st: State, a: Action, slowest: real)
    requires st.history != [] && st.history[|st.history| - 1].at <= st.now && Enabled(st, a, slowest)
    ensures var st' := Step(st, a, slowest); st'.history != [] && st'.history[|st'.history| - 1].at <= st'.now
  {
  }

  lemma CacheStep(st: State, a: Action, slowest: real)
    requires CacheOk(st, slowest) && CallsOk(st, slowest) && Enabled(st, a, slowest)
    ensures CacheOk(Step(st, a, slowest), slowest)
  {
    var st' := Step(st, a, slowest);
    StepIsLater(st, a, slowest);
    forall key | key in st'.cache ensures EntryOk(st', key, st'.cache[key], slowest) {
      var entry := st'.cache[key];
      if a.WriteCache? && key == KeyOf(st.calls[a.id].query) {
        assert CallOk(st, st.calls[a.id], slowest);
      } else {
        assert key in st.cache && st.cache[key] == entry;
        assert EntryOk(st, key, entry, slowest);
      }
      HeldStays(st, st', entry.asked, entry.allowed, entry.origin);
    }
  }

  lemma AnswersStep(st: State, a: Action, slowest: real)
    requires AnswersOk(st, slowest) && CallsOk(st, slowest) && Enabled(st, a, slowest)
    ensures AnswersOk(Step(st, a, slowest), slowest)
  {
    var st' := Step(st, a, slowest);
    StepIsLater(st, a, slowest);
    forall id | id in st'.answers ensures AnswerOk(st', st'.answers[id], slowest) {
      var answer := st'.answers[id];
      if a.Return? && a.id == id {
        assert CallOk(st, st.calls[id], slowest);
      } else {
        assert id in st.answers && st.answers[id] == answer;
        assert AnswerOk(st, answer, slowest);
      }
      if answer.Decision? {
        HeldStays(st, st', answer.asked, answer.allowed, answer.origin);
      }
    }
  }

  lemma CallStep(st: State, a: Action, slowest: real, id: nat)
    requires FreshInv(st, slowest) && slowest >= 0.0 && Enabled(st, a, slowest)
    requires id in Step(st, a, slowest).calls
    ensures CallOk(Step(st, a, slowest), Step(st, a, slowest).calls[id], slowest)
  {
    var st' := Step(st, a, slowest);
    StepIsLater(st, a, slowest);
    if id in st.calls {
      assert CallOk(st, st.calls[id], slowest);
      CallStays(st, st', st.calls[id], slowest);
      if a.Lookup? && a.id == id {
        LookupOk(st, id, slowest);
      }
    }
  }

  /** A hit is fresh: its entry was written at most the time to live ago, from an answer not much older. */
  lemma LookupOk(st: State, id: nat, slowest: real)
    requires CacheOk(st, slowest) && id in st.calls && st.calls[id].Checking?
    ensures CallOk(DoLookup(st, id), DoLookup(st, id).calls[id], slowest)
  {
    var key := KeyOf(st.calls[id].query);
    if key in st.cache { assert EntryOk(st, key, st.cache[key], slowest); }
  }

  lemma CallStays(st: State, st': State, call: Call, slowest: real)
    requires CallOk(st, call, slowest) && Later(st, st')
    ensures CallOk(st', call, slowest)
  {
    if call.Checking? {
      match call.phase {
        case Asked(_, allowed, origin) => HeldStays(st, st', call.query, allowed, origin);
        case Decided(_, allowed, asked, origin, _) => HeldStays(st, st', asked, allowed, origin);
        case Audited(_, allowed, asked, origin, _) => HeldStays(st, st', asked, allowed, origin);
        case _ =>
      }
    }
  }

  lemma {:induction false} FreshRun(states: seq<State>, actions: seq<Action>, slowest: real, k: nat)
    requires Run(states, actions, slowest) && slowest >= 0.0 && k < |states|
    ensures FreshInv(states[k], slowest)
  {
    if k > 0 {
      FreshRun(states, actions, slowest, k - 1);
      FreshStep(states[k - 1], actions[k - 1], slowest);
    }
  }

  /** The graph decided so at some instant less than 30 seconds plus the slowest query-to-cache delay before the check
      looked into the cache, or later. */
  ghost predicate DecidedLately(st: State, answer: Answer, slowest: real)
    requires answer.Decision?
  {
    exists i: Instant ::
      Held(st, answer.query, answer.allowed, i) && i.time > answer.lookedAt - (30.0 + slowest)
  }

  /** The answer to a query whose key is unambiguous is what the graph decided about it lately. */
  lemma AnswersAreFresh(states: seq<State>, actions: seq<Action>, slowest: real, k: nat, id: nat)
    requires Run(states, actions, slowest) && slowest >= 0.0 && k < |states|
    requires id in states[k].answers && states[k].answers[id].Decision? && Unambiguous(states[k].answers[id].query)
    ensures DecidedLately(states[k], states[k].answers[id], slowest)
  {
    FreshRun(states, actions, slowest, k);
    var answer := states[k].answers[id];
    assert AnswerOk(states[k], answer, slowest);
    UnambiguousIsAlone(answer.query, answer.asked);
    assert Held(states[k], answer.query, answer.allowed, answer.origin);
  }

  /** A check that missed the cache answers what the graph decided about its own query at or after the lookup, whatever
      its key; one that says it hit the cache answers what the graph had decided by then. */
  lemma HitOrMiss(states: seq<State>, actions: seq<Action>, slowest: real, k: nat, id: nat)
    requires Run(states, actions, slowest) && slowest >= 0.0 && k < |states|
    requires id in states[k].answers && states[k].answers[id].Decision?
    ensures var answer := states[k].answers[id];
            if answer.hit then
              exists q, i: Instant ::
                KeyOf(q) == KeyOf(answer.query) && Held(states[k], q, answer.allowed, i) && i.time <= answer.lookedAt
            else
              exists i: Instant :: Held(states[k], answer.query, answer.allowed, i) && answer.lookedAt <= i.time
  {
    FreshRun(states, actions, slowest, k);
    var answer := states[k].answers[id];
    assert AnswerOk(states[k], answer, slowest);
    assert Held(states[k], answer.asked, answer.allowed, answer.origin);
  }

  lemma Extend(states: seq<State>, actions: seq<Action>, slowest: real, a: Action)
    returns (states': seq<State>, actions': seq<Action>)
    requires Run(states, actions, slowest) && Enabled(states[|actions|], a, slowest)
    ensures Run(states', actions', slowest) && states'[|actions'|] == Step(states[|actions|], a, slowest)
  {
    states', actions' := states + [Step(states[|actions|], a, slowest)], actions + [a];
    forall k | 0 <= k < |actions'|
      ensures Enabled(states'[k], actions'[k], slowest) && states'[k + 1] == Step(states'[k], actions'[k], slowest)
    {
      if k < |actions| {
        assert states'[k] == states[k] && actions'[k] == actions[k];
      }
    }
  }

  // ----- queries that share a key -----

  /** In every run, every answer to the query is what the graph decided about it lately. */
  ghost predicate AlwaysFresh(q: Query, slowest: real) {
    forall states: seq<State>, actions: seq<Action>, k: nat, id: nat ::
      Run(states, actions, slowest) && k < |states| && id in states[k].answers
      && states[k].answers[id].Decision? && states[k].answers[id].query == q
      ==> DecidedLately(states[k], states[k].answers[id], slowest)
  }

  /** The graph allows one query only, and the decision is cached. */
  lemma CachesAllowed(q: Query, slowest: real) returns (states: seq<State>, actions: seq<Action>)
    requires slowest >= 0.0
    ensures Run(states, actions, slowest)
    ensures var st := states[|actions|];
            && st.now == 0.0 && st.used == {0}
            && KeyOf(q) in st.cache && st.cache[KeyOf(q)].allowed && st.cache[KeyOf(q)].expires == TTL_SECONDS
            && |st.history| == 1 && forall x :: st.history[0].graph(x) <==> x == q
  {
    states, actions := [State(0.0, map[], map[], map[], [], [], [Moment(0.0, x => x == q)], [], {})], [];
    states, actions := Extend(states, actions, slowest, Begin(0, Checking(q, Looking)));
    states, actions := Extend(states, actions, slowest, Lookup(0));
    states, actions := Extend(states, actions, slowest, AskGraph(0));
    states, actions := Extend(states, actions, slowest, WriteCache(0));
  }

  /** A check is served the decision that the graph gave to another query with the same key. */
  lemma ServedAnothersDecision(q: Query, other: Query, slowest: real) returns (states: seq<State>, actions: seq<Action>)
    requires q != other && KeyOf(q) == KeyOf(other) && slowest >= 0.0
    ensures Run(states, actions, slowest)
    ensures var st := states[|actions|];
            && 1 in st.answers && st.answers[1].Decision? && st.answers[1].query == q && st.answers[1].allowed
            && |st.history| == 1 && !st.history[0].graph(q)
  {
    states, actions := CachesAllowed(other, slowest);
    states, actions := Extend(states, actions, slowest, Begin(1, Checking(q, Looking)));
    states, actions := Extend(states, actions, slowest, Lookup(1));
    states, actions := Extend(states, actions, slowest, Emit(1));
    states, actions := Extend(states, actions, slowest, Return(1));
  }

  /** Answers to a query are fresh in every run exactly when its key is unambiguous. */
  lemma AlwaysFreshIff(q: Query, slowest: real)
    requires slowest >= 0.0
    ensures AlwaysFresh(q, slowest) <==> Unambiguous(q)
  {
    if Unambiguous(q) {
      forall states: seq<State>, actions: seq<Action>, k: nat, id: nat |
        Run(states, actions, slowest) && k < |states| && id in states[k].answers
        && states[k].answers[id].Decision? && states[k].answers[id].query == q
        ensures DecidedLately(states[k], states[k].answers[id], slowest)
      {
        AnswersAreFresh(states, actions, slowest, k, id);
      }
    } else {
      var other := Twin(q);
      var states, actions := ServedAnothersDecision(q, other, slowest);
      var st := states[|actions|];
      assert !DecidedLately(st, st.answers[1], slowest);
    }
  }

  /** The subject of every query that is around has the given number of colons. */
  ghost predicate SubjectsAlike(st: State, colons: nat) {
    && (forall key :: key in st.cache ==> Colons(st.cache[key].asked.subject) == colons)
    && (forall id :: id in st.calls && st.calls[id].Checking? ==> Colons(st.calls[id].query.subject) == colons)
    && (forall id :: id in st.calls && st.calls[id].Checking? && st.calls[id].phase.Decided? ==>
          Colons(st.calls[id].phase.asked.subject) == colons)
    && (forall id :: id in st.calls && st.calls[id].Checking? && st.calls[id].phase.Audited? ==>
          Colons(st.calls[id].phase.asked.subject) == colons)
    && (forall id :: id in st.answers && st.answers[id].Decision? ==>
          Colons(st.answers[id].query.subject) == colons == Colons(st.answers[id].asked.subject))
  }

  ghost predicate ChecksAlike(actions: seq<Action>, colons: nat) {
    forall k :: 0 <= k < |actions| && actions[k].Begin? && actions[k].call.Checking? ==>
      Colons(actions[k].call.query.subject) == colons
  }

  lemma {:induction false} SubjectsStayAlike(states: seq<State>, actions: seq<Action>, slowest: real, colons: nat,
                                             k: nat)
    requires Run(states, actions, slowest) && ChecksAlike(actions, colons) && k < |states|
    ensures SubjectsAlike(states[k], colons)
  {
    if k > 0 {
      SubjectsStayAlike(states, actions, slowest, colons, k - 1);
      assert Enabled(states[k - 1], actions[k - 1], slowest)
        && states[k - 1 + 1] == Step(states[k - 1], actions[k - 1], slowest);
    }
  }

  /** If all checks name subjects with equally many colons, as `kind:name` has one, every answer is fresh. */
  lemma AlikeAnswersAreFresh(states: seq<State>, actions: seq<Action>, slowest: real, colons: nat, k: nat, id: nat)
    requires Run(states, actions, slowest) && slowest >= 0.0 && k < |states| && ChecksAlike(actions, colons)
    requires id in states[k].answers && states[k].answers[id].Decision?
    ensures DecidedLately(states[k], states[k].answers[id], slowest)
  {
    FreshRun(states, actions, slowest, k);
    SubjectsStayAlike(states, actions, slowest, colons, k);
    var answer := states[k].answers[id];
    assert AnswerOk(states[k], answer, slowest);
    EqualColonsNeverCollide(answer.query, answer.asked);
    assert Held(states[k], answer.query, answer.allowed, answer.origin);
  }

  /** Once the graph has given one answer to a query for that long, every check that begins to look gets it, if its key
      is
      unambiguous or all checks are alike. */
  lemma AnswersConverge(states: seq<State>, actions: seq<Action>, slowest: real, colons: nat, k: nat, id: nat,
                        since: real, steady: bool)
    requires Run(states, actions, slowest) && slowest >= 0.0 && k < |states|
    requires id in states[k].answers && states[k].answers[id].Decision?
    requires Unambiguous(states[k].answers[id].query) || ChecksAlike(actions, colons)
    requires forall b, i: Instant :: Held(states[k], states[k].answers[id].query, b, i) && i.time > since ==>
      b == steady
    requires states[k].answers[id].lookedAt >= since + 30.0 + slowest
    ensures states[k].answers[id].allowed == steady
  {
    var answer := states[k].answers[id];
    if Unambiguous(answer.query) {
      AnswersAreFresh(states, actions, slowest, k, id);
    } else {
      AlikeAnswersAreFresh(states, actions, slowest, colons, k, id);
    }
    var i: Instant :| Held(states[k], answer.query, answer.allowed, i)
      && i.time > answer.lookedAt - (TTL_SECONDS + slowest);
  }

  // ----- the bound is tight -----

  /** A check asks the graph, the graph changes its mind at once, and the check writes its cache entry as late as it
      may. */ lemma OvertakenCheck(slowest: real, q: Query, tuple: Tuple) returns (states: seq<State>, actions: seq<Action>)
    requires slowest >= 0.0
    ensures Run(states, actions, slowest)
    ensures var st := states[|actions|];
            && st.now == slowest && st.used == {0, 1}
            && KeyOf(q) in st.cache && st.cache[KeyOf(q)].allowed && st.cache[KeyOf(q)].expires == slowest + TTL_SECONDS
            && |st.history| == 2 && st.history[1].at == 0.0 && !st.history[1].graph(q)
  {
    states, actions := [State(0.0, map[], map[], map[], [], [], [Moment(0.0, _ => true)], [], {})], [];
    states, actions := Extend(states, actions, slowest, Begin(0, Checking(q, Looking)));
    states, actions := Extend(states, actions, slowest, Lookup(0));
    states, actions := Extend(states, actions, slowest, AskGraph(0));
    states, actions := Extend(states, actions, slowest, Begin(1, Mutating(DeleteTuple, tuple, Changing)));
    states, actions := Extend(states, actions, slowest, Change(1, _ => false, Some(0)));
    states, actions := Extend(states, actions, slowest, Tick(slowest));
    states, actions := Extend(states, actions, slowest, WriteCache(0));
  }

  /** The bound cannot be improved: some answer is older than the bound less any margin, however small. */
  lemma BoundIsTight(slowest: real, margin: real, q: Query, tuple: Tuple)
    returns (states: seq<State>, actions: seq<Action>, id: nat)
    requires slowest >= 0.0 && 0.0 < margin <= 30.0
    ensures Run(states, actions, slowest)
    ensures var st := states[|actions|];
            && id in st.answers && st.answers[id].Decision? && st.answers[id].query == q
            && forall i: Instant :: Held(st, q, st.answers[id].allowed, i) ==>
                 i.time <= st.answers[id].lookedAt - (30.0 + slowest) + margin
  {
    id := 2;
    states, actions := OvertakenCheck(slowest, q, tuple);
    states, actions := Extend(states, actions, slowest, Tick(TTL_SECONDS - margin));
    states, actions := Extend(states, actions, slowest, Begin(id, Checking(q, Looking)));
    states, actions := Extend(states, actions, slowest, Lookup(id));
    states, actions := Extend(states, actions, slowest, Emit(id));
    states, actions := Extend(states, actions, slowest, Return(id));
  }

  // ----- audit -----

  ghost predicate DistinctDecisions(events: seq<DecisionEvent>) {
    forall i, j :: 0 <= i < j < |events| ==> events[i].id != events[j].id
  }

  ghost predicate DistinctTuples(events: seq<TupleEvent>) {
    forall i, j :: 0 <= i < j < |events| ==> events[i].id != events[j].id
  }

  ghost predicate SpeaksOf(events: seq<TupleEvent>, id: nat) {
    exists i :: 0 <= i < |events| && events[i].id == id
  }

  ghost predicate DecisionSpeaksOf(events: seq<DecisionEvent>, id: nat) {
    exists i :: 0 <= i < |events| && events[i].id == id
  }

  /** What the audit log holds about a call in flight. */
  ghost predicate CallAudit(st: State, id: nat)
    requires id in st.calls
  {
    match st.calls[id]
    case Checking(query, phase) =>
      && !SpeaksOf(st.recorded, id)
      && (if phase.Audited? then DecisionEvent(id, query, phase.allowed) in st.decisionEvents
          else !DecisionSpeaksOf(st.decisionEvents, id))
    case Mutating(op, tuple, mutation) =>
      && !DecisionSpeaksOf(st.decisionEvents, id)
      && match mutation
         case Changing => !SpeaksOf(st.recorded, id)
         case Recorded(at) =>
           && (if at.Some? then TupleEvent(id, op, tuple, at.value) in st.recorded else !SpeaksOf(st.recorded, id))
           && !SpeaksOf(st.tupleEvents, id)
         case Reported(at) =>
           if at.Some? then TupleEvent(id, op, tuple, at.value) in st.tupleEvents else !SpeaksOf(st.recorded, id)
  }

  /** What it holds about a call that has returned. */
  ghost predicate AnswerAudit(st: State, id: nat)
    requires id in st.answers
  {
    match st.answers[id]
    case Decision(query, allowed, _, _, _, _) =>
      DecisionEvent(id, query, allowed) in st.decisionEvents && !SpeaksOf(st.recorded, id)
    case Mutated(op, tuple, at) =>
      && !DecisionSpeaksOf(st.decisionEvents, id)
      && if at.Some? then TupleEvent(id, op, tuple, at.value) in st.tupleEvents else !SpeaksOf(st.recorded, id)
  }

  ghost predicate AuditInv(st: State) {
    && DistinctDecisions(st.decisionEvents) && DistinctTuples(st.tupleEvents) && DistinctTuples(st.recorded)
    && (forall id :: id in st.calls ==> id in st.used && id !in st.answers && CallAudit(st, id))
    && (forall id :: id in st.answers ==> id in st.used && AnswerAudit(st, id))
    && (forall e :: e in st.decisionEvents ==> e.id in st.used)
    && (forall e :: e in st.tupleEvents ==> e in st.recorded)
    && (forall e :: e in st.recorded ==> e.id in st.used)
  }

  lemma AuditStep(st: State, a: Action, slowest: real)
    requires AuditInv(st) && Enabled(st, a, slowest)
    ensures AuditInv(Step(st, a, slowest))
  {
    var st' := Step(st, a, slowest);
    match a {
      case Emit(id) => if st.calls[id].Checking? { EmitDecisionAudit(st, id); } else { EmitTupleAudit(st, id); }
      case Change(id, graph, at) => ChangeAudit(st, id, graph, at);
      case Return(id) => ReturnAudit(st, id);
      case _ =>
        forall id | id in st'.calls ensures id in st'.used && id !in st'.answers && CallAudit(st', id) {
          if id in st.calls { assert CallAudit(st, id); }
        }
        forall id | id in st'.answers ensures id in st'.used && AnswerAudit(st', id) {
          assert AnswerAudit(st, id);
        }
    }
  }

  lemma ReturnAudit(st: State, id: nat)
    requires AuditInv(st) && id in st.calls
    requires st.calls[id].Checking? ==> st.calls[id].phase.Audited?
    requires st.calls[id].Mutating? ==> st.calls[id].mutation.Reported?
    ensures AuditInv(DoReturn(st, id))
  {
    var st' := DoReturn(st, id);
    assert CallAudit(st, id);
    forall x | x in st'.calls ensures x in st'.used && x !in st'.answers && CallAudit(st', x) {
      assert CallAudit(st, x);
    }
    forall x | x in st'.answers ensures x in st'.used && AnswerAudit(st', x) {
      if x != id { assert AnswerAudit(st, x); }
    }
  }

  lemma ReportedWasRecorded(st: State, id: nat)
    requires forall e :: e in st.tupleEvents ==> e in st.recorded
    ensures SpeaksOf(st.tupleEvents, id) ==> SpeaksOf(st.recorded, id)
  {
    if SpeaksOf(st.tupleEvents, id) {
      var i :| 0 <= i < |st.tupleEvents| && st.tupleEvents[i].id == id;
      assert st.tupleEvents[i] in st.recorded;
    }
  }

  /** The check's event is appended; every other call keeps what is said about it. */
  lemma EmitDecisionAudit(st: State, id: nat)
    requires AuditInv(st) && id in st.calls && st.calls[id].Checking? && st.calls[id].phase.Decided?
    ensures AuditInv(DoEmitDecision(st, id))
  {
    var st' := DoEmitDecision(st, id);
    assert CallAudit(st, id);
    assert forall x :: DecisionSpeaksOf(st'.decisionEvents, x) ==> DecisionSpeaksOf(st.decisionEvents, x) || x == id;
    forall x | x in st'.calls ensures x in st'.used && x !in st'.answers && CallAudit(st', x) {
      assert x in st.calls && CallAudit(st, x);
    }
    forall x | x in st'.answers ensures x in st'.used && AnswerAudit(st', x) {
      assert AnswerAudit(st, x);
    }
  }

  lemma EmitTupleAudit(st: State, id: nat)
    requires AuditInv(st) && id in st.calls && st.calls[id].Mutating? && st.calls[id].mutation.Recorded?
    ensures AuditInv(DoEmitTuple(st, id))
  {
    var st' := DoEmitTuple(st, id);
    assert CallAudit(st, id);
    assert forall x :: SpeaksOf(st'.tupleEvents, x) ==> SpeaksOf(st.tupleEvents, x) || x == id;
    forall x | x in st'.calls ensures x in st'.used && x !in st'.answers && CallAudit(st', x) {
      assert x in st.calls && CallAudit(st, x);
    }
    forall x | x in st'.answers ensures x in st'.used && AnswerAudit(st', x) {
      assert AnswerAudit(st, x);
    }
  }

  lemma ChangeAudit(st: State, id: nat, graph: Graph, at: Option<int>)
    requires AuditInv(st) && id in st.calls && st.calls[id].Mutating? && st.calls[id].mutation.Changing?
    ensures AuditInv(DoChange(st, id, graph, at))
  {
    var st' := DoChange(st, id, graph, at);
    assert CallAudit(st, id);
    assert forall x :: SpeaksOf(st'.recorded, x) ==> SpeaksOf(st.recorded, x) || x == id;
    ReportedWasRecorded(st, id);
    forall x | x in st'.calls ensures x in st'.used && x !in st'.answers && CallAudit(st', x) {
      assert x in st.calls && CallAudit(st, x);
    }
    forall x | x in st'.answers ensures x in st'.used && AnswerAudit(st', x) {
      assert AnswerAudit(st, x);
    }
  }

  lemma {:induction false} AuditRun(states: seq<State>, actions: seq<Action>, slowest: real, k: nat)
    requires Run(states, actions, slowest) && k < |states|
    ensures AuditInv(states[k])
  {
    if k > 0 {
      AuditRun(states, actions, slowest, k - 1);
      AuditStep(states[k - 1], actions[k - 1], slowest);
    }
  }

  /** A check that has returned left exactly one decision event, carrying the value it returned. */
  lemma ChecksAuditedOnce(states: seq<State>, actions: seq<Action>, slowest: real, k: nat, id: nat)
    requires Run(states, actions, slowest) && k < |states|
    requires id in states[k].answers && states[k].answers[id].Decision?
    ensures var st, answer := states[k], states[k].answers[id];
            exists i :: 0 <= i < |st.decisionEvents|
              && st.decisionEvents[i] == DecisionEvent(id, answer.query, answer.allowed)
              && forall j :: 0 <= j < |st.decisionEvents| && st.decisionEvents[j].id == id ==> j == i
  {
    AuditRun(states, actions, slowest, k);
    var st, answer := states[k], states[k].answers[id];
    assert AnswerAudit(st, id);
    var i :| 0 <= i < |st.decisionEvents| && st.decisionEvents[i] == DecisionEvent(id, answer.query, answer.allowed);
    assert forall j :: 0 <= j < |st.decisionEvents| && st.decisionEvents[j].id == id ==> j == i;
  }

  /** When every call has returned, there is no decision event but those of the checks, with the values they returned.
      */
  lemma DecisionEventsAreTheReturned(states: seq<State>, actions: seq<Action>, slowest: real, k: nat, e: DecisionEvent)
    requires Run(states, actions, slowest) && k < |states|
    requires states[k].answers.Keys == states[k].used && e in states[k].decisionEvents
    ensures e.id in states[k].answers
    ensures var answer := states[k].answers[e.id];
            answer.Decision? && answer.query == e.query && answer.allowed == e.allowed
  {
    AuditRun(states, actions, slowest, k);
    var st := states[k];
    assert e.id in st.answers && AnswerAudit(st, e.id);
    var i :| 0 <= i < |st.decisionEvents| && st.decisionEvents[i] == e;
    assert DecisionSpeaksOf(st.decisionEvents, e.id);
    var answer := st.answers[e.id];
    var told := DecisionEvent(e.id, answer.query, answer.allowed);
    var j :| 0 <= j < |st.decisionEvents| && st.decisionEvents[j] == told;
    assert i == j;
  }

  /** A mutation that has returned left one tuple event with the recorded time if the store recorded it, else none. */
  lemma MutationsAuditedOnce(states: seq<State>, actions: seq<Action>, slowest: real, k: nat, id: nat)
    requires Run(states, actions, slowest) && k < |states|
    requires id in states[k].answers && states[k].answers[id].Mutated?
    ensures var st, answer := states[k], states[k].answers[id];
            if answer.at.None? then !SpeaksOf(st.tupleEvents, id)
            else exists i :: 0 <= i < |st.tupleEvents|
                   && st.tupleEvents[i] == TupleEvent(id, answer.op, answer.tuple, answer.at.value)
                   && forall j :: 0 <= j < |st.tupleEvents| && st.tupleEvents[j].id == id ==> j == i
  {
    AuditRun(states, actions, slowest, k);
    var st, answer := states[k], states[k].answers[id];
    assert AnswerAudit(st, id);
    if answer.at.None? {
      ReportedWasRecorded(st, id);
    } else {
      var i :| 0 <= i < |st.tupleEvents| && st.tupleEvents[i] == TupleEvent(id, answer.op, answer.tuple, answer.at.value);
      assert forall j :: 0 <= j < |st.tupleEvents| && st.tupleEvents[j].id == id ==> j == i;
    }
  }

  lemma {:induction false} DistinctCount(events: seq<TupleEvent>, e: TupleEvent)
    requires DistinctTuples(events)
    ensures multiset(events)[e] == if e in events then 1 else 0
  {
    if events != [] {
      var n := |events| - 1;
      assert events == events[..n] + [events[n]];
      DistinctCount(events[..n], e);
    }
  }

  /** When every call has returned, the tuple events are, as a multiset, the mutations the store reported as recorded.
      */
  lemma TupleEventsAreTheRecorded(states: seq<State>, actions: seq<Action>, slowest: real, k: nat)
    requires Run(states, actions, slowest) && k < |states|
    requires states[k].answers.Keys == states[k].used
    ensures multiset(states[k].tupleEvents) == multiset(states[k].recorded)
  {
    AuditRun(states, actions, slowest, k);
    var st := states[k];
    forall e: TupleEvent ensures multiset(st.tupleEvents)[e] == multiset(st.recorded)[e] {
      DistinctCount(st.tupleEvents, e);
      DistinctCount(st.recorded, e);
      if e in st.recorded {
        RecordedIsReported(st, e);
      }
    }
  }

  lemma RecordedIsReported(st: State, e: TupleEvent)
    requires AuditInv(st) && st.answers.Keys == st.used && e in st.recorded
    ensures e in st.tupleEvents
  {
    assert e.id in st.answers && AnswerAudit(st, e.id);
    assert SpeaksOf(st.recorded, e.id);
    var answer := st.answers[e.id];
    var told := TupleEvent(e.id, answer.op, answer.tuple, answer.at.value);
    assert told in st.tupleEvents && told in st.recorded;
    var i :| 0 <= i < |st.recorded| && st.recorded[i] == e;
    var j :| 0 <= j < |st.recorded| && st.recorded[j] == told;
    assert i == j;
  }
}
