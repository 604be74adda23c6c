/** A service that restarts after a clean flush answers as if it had never stopped. */
module Restart {
  import opened Options
  import opened QuotaDomain
  import opened CacheTables
  import opened MemoryCaches
  import opened WriteBehind
  import opened WriteBehindGuarantees
  import opened WriteBehindLosses
  import opened RedisLayout
  import opened RedisRepositories

  // ----- the same answers from the same observable state -----

  datatype Request =
    | AskReserve(subject: Subject, delta: ResourceDelta, default: QuotaEntry)
    | AskUpdate(subject: Subject, delta: ResourceDelta)
    | AskSetLimit(subject: Subject, quota: QuotaEntry)
    | AskUsage(subject: Subject)
    | AskLimit(subject: Subject)

  datatype Reply = Decided(result: CheckResult) | Used(usage: UsageEntry) | Limited(limit: Option<QuotaEntry>) | Done

  function ReplyTo(usage: UsageTable, limits: LimitTable, request: Request): Reply {
    match request
    case AskReserve(s, delta, default) => Decided(Verdict(usage, s, LimitOf(limits, s, default), delta))
    case AskUsage(s) => Used(UsageOf(usage, s))
    case AskLimit(s) => Limited(if s in limits then Some(limits[s]) else None)
    case _ => Done
  }

  function UsageAfter(usage: UsageTable, limits: LimitTable, request: Request): UsageTable {
    match request
    case AskReserve(s, delta, default) => Reserved(usage, s, LimitOf(limits, s, default), delta)
    case AskUpdate(s, delta) => Applied(usage, s, delta)
    case _ => usage
  }

  function LimitsAfter(limits: LimitTable, request: Request): LimitTable {
    if request.AskSetLimit? then limits[request.subject := request.quota] else limits
  }

  function Replies(usage: UsageTable, limits: LimitTable, requests: seq<Request>): seq<Reply>
    decreases |requests|
  {
    if requests == [] then []
    else
      var usage', limits' := UsageAfter(usage, limits, requests[0]), LimitsAfter(limits, requests[0]);
      [ReplyTo(usage, limits, requests[0])] + Replies(usage', limits', requests[1..])
  }

  /** The tables after a sequence of requests. */
  function Served(usage: UsageTable, limits: LimitTable, requests: seq<Request>): (UsageTable, LimitTable)
    decreases |requests|
  {
    if requests == [] then (usage, limits)
    else Served(UsageAfter(usage, limits, requests[0]), LimitsAfter(limits, requests[0]), requests[1..])
  }

  /** One request, served by the cache itself. */
  method ServeOne(cache: MemoryCache, request: Request) returns (reply: Reply)
    modifies cache
    ensures reply == ReplyTo(old(cache.usage), old(cache.limits), request)
    ensures cache.usage == UsageAfter(old(cache.usage), old(cache.limits), request)
    ensures cache.limits == LimitsAfter(old(cache.limits), request)
  {
    match request {
      case AskReserve(s, delta, default) =>
        var result := cache.CheckAndReserve(s, delta, default);
        reply := Decided(result);
      case AskUpdate(s, delta) =>
        cache.Update(s, delta);
        reply := Done;
      case AskSetLimit(s, quota) =>
        cache.SetLimit(s, quota);
        reply := Done;
      case AskUsage(s) =>
        reply := Used(if s in cache.usage then cache.usage[s] else NO_USAGE);
      case AskLimit(s) =>
        reply := Limited(if s in cache.limits then Some(cache.limits[s]) else None);
    }
  }

  /** The replies and tables that the functions give are those of the cache's own operations. */
  method Serve(cache: MemoryCache, requests: seq<Request>) returns (replies: seq<Reply>)
    modifies cache
    ensures replies == Replies(old(cache.usage), old(cache.limits), requests)
    ensures (cache.usage, cache.limits) == Served(old(cache.usage), old(cache.limits), requests)
  {
    replies := [];
    assert requests[0..] == requests;
    for k := 0 to |requests|
      invariant Replies(old(cache.usage), old(cache.limits), requests)
             == replies + Replies(cache.usage, cache.limits, requests[k..])
      invariant Served(old(cache.usage), old(cache.limits), requests)
             == Served(cache.usage, cache.limits, requests[k..])
    {
      assert requests[k..][1..] == requests[k + 1..] && requests[k..][0] == requests[k];
      var reply := ServeOne(cache, requests[k]);
      replies := replies + [reply];
    }
    assert requests[|requests|..] == [];
  }

  /** Two caches that agree on all subjects but some answer alike to requests that spare those. */
  method ServeBoth(a: MemoryCache, b: MemoryCache, ghost gone: iset<Subject>, requests: seq<Request>)
    returns (x: seq<Reply>, y: seq<Reply>)
    requires a != b && forall s :: s !in gone ==> Same(a.usage, a.limits, b.usage, b.limits, s)
    requires Spares(requests, gone)
    modifies a, b
    ensures x == y
  {
    SameReplies(a.usage, a.limits, b.usage, b.limits, gone, requests);
    x := Serve(a, requests);
    y := Serve(b, requests);
  }

  /** Two caches agree on the usage and the limit of a subject. */
  ghost predicate Same(a: UsageTable, aLimits: LimitTable, b: UsageTable, bLimits: LimitTable, s: Subject) {
    && UsageOf(a, s) == UsageOf(b, s)
    && (s in aLimits <==> s in bLimits) && (s in aLimits ==> aLimits[s] == bLimits[s])
  }

  ghost predicate Spares(requests: seq<Request>, gone: iset<Subject>) {
    forall k :: 0 <= k < |requests| ==> requests[k].subject !in gone
  }

  lemma SameAfter(a: UsageTable, aLimits: LimitTable, b: UsageTable, bLimits: LimitTable, request: Request, s: Subject)
    requires Same(a, aLimits, b, bLimits, s) && Same(a, aLimits, b, bLimits, request.subject)
    ensures ReplyTo(a, aLimits, request) == ReplyTo(b, bLimits, request)
    ensures Same(UsageAfter(a, aLimits, request), LimitsAfter(aLimits, request),
                 UsageAfter(b, bLimits, request), LimitsAfter(bLimits, request), s)
  {
  }

  /** Caches that agree on all subjects but some cannot be told apart by requests that spare those, whether or not one
      of the caches has zero entries that the other lacks. */
  lemma {:induction false} SameReplies(a: UsageTable, aLimits: LimitTable, b: UsageTable, bLimits: LimitTable,
                                       gone: iset<Subject>, requests: seq<Request>)
    requires forall s :: s !in gone ==> Same(a, aLimits, b, bLimits, s)
    requires Spares(requests, gone)
    ensures Replies(a, aLimits, requests) == Replies(b, bLimits, requests)
    decreases |requests|
  {
    if requests != [] {
      var first, rest := requests[0], requests[1..];
      var a', b' := UsageAfter(a, aLimits, first), UsageAfter(b, bLimits, first);
      var aLimits', bLimits' := LimitsAfter(aLimits, first), LimitsAfter(bLimits, first);
      forall s | s !in gone ensures Same(a', aLimits', b', bLimits', s) {
        SameAfter(a, aLimits, b, bLimits, first, s);
      }
      SameAfter(a, aLimits, b, bLimits, first, first.subject);
      assert forall k :: 0 <= k < |rest| ==> rest[k] == requests[k + 1];
      SameReplies(a', aLimits', b', bLimits', gone, rest);
    }
  }

  // ----- tables and their records -----

  ghost function UsageRecords(usage: UsageTable): map<Subject, Record> {
    map s | s in usage :: UsageRecord(usage[s])
  }

  ghost function LimitRecords(limits: LimitTable): map<Subject, Record> {
    map s | s in limits :: LimitRecord(limits[s])
  }

  lemma {:induction false} UsageRowsInsert(rows: seq<(Subject, Record)>)
    ensures UsageRecords(InsertAll(map[], UsageRows(rows))) == InsertAll(map[], rows)
  {
    if rows != [] {
      var n := |rows| - 1;
      UsageRowsInsert(rows[..n]);
      assert UsageRows(rows)[..n] == UsageRows(rows[..n]);
    }
  }

  lemma {:induction false} LimitRowsInsert(rows: seq<(Subject, Record)>)
    ensures LimitRecords(InsertAll(map[], LimitRows(rows))) == InsertAll(map[], rows)
  {
    if rows != [] {
      var n := |rows| - 1;
      LimitRowsInsert(rows[..n]);
      assert LimitRows(rows)[..n] == LimitRows(rows[..n]);
    }
  }

  lemma UsageRecordsInjective(a: UsageTable, b: UsageTable)
    requires UsageRecords(a) == UsageRecords(b)
    ensures a == b
  {
    assert a.Keys == UsageRecords(a).Keys && b.Keys == UsageRecords(b).Keys;
    forall s | s in a ensures a[s] == b[s] {
      assert UsageRecords(a)[s] == UsageRecords(b)[s];
    }
  }

  lemma LimitRecordsInjective(a: LimitTable, b: LimitTable)
    requires LimitRecords(a) == LimitRecords(b)
    ensures a == b
  {
    assert a.Keys == LimitRecords(a).Keys && b.Keys == LimitRecords(b).Keys;
    forall s | s in a ensures a[s] == b[s] {
      assert LimitRecords(a)[s] == LimitRecords(b)[s];
    }
  }

  // ----- the hashes along a run -----

  /** What a step does to the hashes: a write of the flush loop and the last step of a deletion reach Redis, unless they
      fail without effect. */
  ghost function HashesAfter(hashes: Hashes, st: State, a: Action): Hashes
    requires Enabled(st, a)
  {
    match a
    case Store(outcome) =>
      var row := st.flush.rows[st.flush.n];
      if outcome.Written? || outcome.written then Put(hashes, Usage, row.subject, UsageRecord(row.usage)) else hashes
    case RemoveStored(h, outcome) =>
      if outcome.Written? || outcome.written then Drop(hashes, st.handlers[h].call.subject) else hashes
    case _ => hashes
  }

  lemma InsertRecord(usage: UsageTable, s: Subject, entry: UsageEntry)
    ensures UsageRecords(usage[s := entry]) == UsageRecords(usage)[s := UsageRecord(entry)]
  {
  }

  lemma StoreHashes(hashes: Hashes, st: State, outcome: WriteOutcome)
    requires Enabled(st, Store(outcome)) && Encodes(hashes, Usage, UsageRecords(st.stored))
    ensures Encodes(HashesAfter(hashes, st, Store(outcome)), Usage, UsageRecords(DoStore(st, outcome).stored))
  {
    var row, stored' := st.flush.rows[st.flush.n], DoStore(st, outcome).stored;
    if outcome.Written? || outcome.written {
      PutEncodes(hashes, Usage, row.subject, UsageRecord(row.usage), UsageRecords(st.stored));
      InsertRecord(st.stored, row.subject, row.usage);
    } else {
      assert stored' == st.stored;
    }
  }

  lemma RemovalHashes(hashes: Hashes, st: State, h: nat, outcome: WriteOutcome)
    requires Enabled(st, RemoveStored(h, outcome)) && Encodes(hashes, Usage, UsageRecords(st.stored))
    ensures Encodes(HashesAfter(hashes, st, RemoveStored(h, outcome)), Usage, UsageRecords(DoRemoveStored(st, h, outcome).stored))
  {
    var s, stored' := st.handlers[h].call.subject, DoRemoveStored(st, h, outcome).stored;
    if outcome.Written? || outcome.written {
      DropEncodes(hashes, Usage, s, UsageRecords(st.stored));
      assert UsageRecords(stored') == UsageRecords(st.stored) - {s};
    } else {
      assert stored' == st.stored;
    }
  }

  /** Every step, failed or not, keeps the hashes an encoding of the stored usage. */
  lemma StepHashes(hashes: Hashes, st: State, a: Action)
    requires Enabled(st, a) && Encodes(hashes, Usage, UsageRecords(st.stored))
    ensures Encodes(HashesAfter(hashes, st, a), Usage, UsageRecords(Step(st, a).stored))
  {
    match a {
      case Store(outcome) => StoreHashes(hashes, st, outcome);
      case RemoveStored(h, outcome) => RemovalHashes(hashes, st, h, outcome);
      case _ => assert Step(st, a).stored == st.stored;
    }
  }

  ghost predicate SameUsageHashes(a: Hashes, b: Hashes) {
    forall s: Subject :: Read(a, Usage, KeyOf(Usage, s)) == Read(b, Usage, KeyOf(Usage, s))
  }

  /** The hashes along a run. Between its steps anything may happen to the limit hashes, which are written elsewhere. */
  ghost predicate Trace(hashes: seq<Hashes>, states: seq<State>, actions: seq<Action>)
    requires Run(states, actions)
  {
    && |hashes| == |states| && Encodes(hashes[0], Usage, UsageRecords(states[0].stored))
    && forall k :: 0 <= k < |actions| ==> SameUsageHashes(HashesAfter(hashes[k], states[k], actions[k]), hashes[k + 1])
  }

  lemma SameUsageEncodes(a: Hashes, b: Hashes, table: map<Subject, Record>)
    requires SameUsageHashes(a, b) && Encodes(a, Usage, table)
    ensures Encodes(b, Usage, table)
  {
    forall s: Subject
      ensures Read(b, Usage, KeyOf(Usage, s)) == if s in table then Some(table[s]) else None
    {
      assert Read(a, Usage, KeyOf(Usage, s)) == Read(b, Usage, KeyOf(Usage, s));
    }
  }

  /** At every moment of every run the usage hashes hold exactly the stored table. */
  lemma {:induction false} HashesHoldTheStore(hashes: seq<Hashes>, states: seq<State>, actions: seq<Action>, k: nat)
    requires Run(states, actions) && Trace(hashes, states, actions) && k < |states|
    ensures Encodes(hashes[k], Usage, UsageRecords(states[k].stored))
  {
    if k > 0 {
      HashesHoldTheStore(hashes, states, actions, k - 1);
      var st, a := states[k - 1], actions[k - 1];
      assert Enabled(st, a) && states[k - 1 + 1] == Step(st, a);
      StepHashes(hashes[k - 1], st, a);
      assert SameUsageHashes(HashesAfter(hashes[k - 1], st, a), hashes[k - 1 + 1]);
      SameUsageEncodes(HashesAfter(hashes[k - 1], st, a), hashes[k], UsageRecords(states[k].stored));
    }
  }

  // ----- restart -----

  /** Every key of the table was scanned and read, and decodes to its subject. */
  ghost predicate CompleteScan(family: Family, keys: seq<string>, failed: set<nat>, table: map<Subject, Record>) {
    && Scan(family, keys)
    && forall s :: s in table ==> !(Prefix(family) <= s) && ReadFrom(family, keys, failed, s)
  }

  lemma UsageReloaded(hashes: Hashes, keys: seq<string>, failed: set<nat>, usage: UsageTable)
    requires Encodes(hashes, Usage, UsageRecords(usage)) && CompleteScan(Usage, keys, failed, UsageRecords(usage))
    ensures InsertAll(map[], UsageRows(LoadedRows(hashes, Usage, keys, failed))) == usage
  {
    var rows := LoadedRows(hashes, Usage, keys, failed);
    LoadRebuildsIff(hashes, Usage, keys, failed, UsageRecords(usage));
    UsageRowsInsert(rows);
    UsageRecordsInjective(InsertAll(map[], UsageRows(rows)), usage);
  }

  /** A load gives a subject its stored usage exactly when that is nothing, or its key has no prefix inside and was
      scanned and read, whatever became of the other subjects. */
  lemma UsageLoadedIff(hashes: Hashes, keys: seq<string>, failed: set<nat>, stored: UsageTable, s: Subject)
    requires Encodes(hashes, Usage, UsageRecords(stored)) && Scan(Usage, keys) && NoTwin(Usage, UsageRecords(stored), s)
    ensures UsageOf(InsertAll(map[], UsageRows(LoadedRows(hashes, Usage, keys, failed))), s) == UsageOf(stored, s)
            <==> UsageOf(stored, s) == NO_USAGE || (!(Prefix(Usage) <= s) && ReadFrom(Usage, keys, failed, s))
  {
    var rows := LoadedRows(hashes, Usage, keys, failed);
    var usage := InsertAll(map[], UsageRows(rows));
    UsageRowsInsert(rows);
    LoadedIff(hashes, Usage, keys, failed, UsageRecords(stored), s);
    assert s in usage <==> s in UsageRecords(usage);
    if s in usage {
      assert UsageRecord(usage[s]) == UsageRecords(usage)[s] == UsageRecords(stored)[s] == UsageRecord(stored[s]);
    }
  }

  /** After a start-up load, nothing of a subject will be lost in any run exactly under that condition. */
  lemma KeptAfterLoadIff(st: State, hashes: Hashes, keys: seq<string>, failed: set<nat>, s: Subject)
    requires Initial(st) && Encodes(hashes, Usage, UsageRecords(st.stored)) && Scan(Usage, keys)
    requires NoTwin(Usage, UsageRecords(st.stored), s)
    requires st.usage == InsertAll(map[], UsageRows(LoadedRows(hashes, Usage, keys, failed)))
    ensures NeverLost(st, s)
            <==> UsageOf(st.stored, s) == NO_USAGE || (!(Prefix(Usage) <= s) && ReadFrom(Usage, keys, failed, s))
  {
    NeverLostIff(st, s);
    UsageLoadedIff(hashes, keys, failed, st.stored, s);
  }

  lemma LimitsReloaded(hashes: Hashes, keys: seq<string>, failed: set<nat>, limits: LimitTable)
    requires Encodes(hashes, Limits, LimitRecords(limits)) && CompleteScan(Limits, keys, failed, LimitRecords(limits))
    ensures InsertAll(map[], LimitRows(LoadedRows(hashes, Limits, keys, failed))) == limits
  {
    var rows := LoadedRows(hashes, Limits, keys, failed);
    LoadRebuildsIff(hashes, Limits, keys, failed, LimitRecords(limits));
    LimitRowsInsert(rows);
    LimitRecordsInjective(InsertAll(map[], LimitRows(rows)), limits);
  }

  /** A run whose last part, from a moment on, is a clean flush. */
  ghost predicate EndsWithCleanFlush(states: seq<State>, actions: seq<Action>, from: nat) {
    Run(states, actions) && from <= |actions| && CleanFlush(states[from..], actions[from..])
  }

  lemma FlushedUsage(states: seq<State>, actions: seq<Action>, from: nat, s: Subject)
    requires EndsWithCleanFlush(states, actions, from) && s !in states[|actions|].excluded
    ensures UsageOf(states[|actions|].stored, s) == UsageOf(states[|actions|].usage, s)
  {
    var flushStates, flushActions := states[from..], actions[from..];
    RunInv(states, actions, from);
    assert flushStates[0] == states[from] && flushStates[|flushActions|] == states[|actions|];
    CleanFlushInv(flushStates, flushActions, |flushActions|);
    CleanFlushPersists(flushStates, flushActions, s);
  }

  /** Redis holds the limit that the cache has, or neither has one. */
  ghost predicate LimitPersisted(stored: LimitTable, cached: LimitTable, s: Subject) {
    (s in stored <==> s in cached) && (s in stored ==> stored[s] == cached[s])
  }

  /** The load gives the subject what is stored for it: nobody else decodes to its name, and if there is anything, its
      key was scanned and read and it does not start with the prefix. */
  ghost predicate Readable(family: Family, keys: seq<string>, failed: set<nat>, table: map<Subject, Record>,
                           s: Subject) {
    && NoTwin(family, table, s)
    && (s in table ==> !(Prefix(family) <= s) && ReadFrom(family, keys, failed, s))
  }

  lemma LimitLoaded(hashes: Hashes, keys: seq<string>, failed: set<nat>, limits: LimitTable, s: Subject)
    requires Encodes(hashes, Limits, LimitRecords(limits)) && Scan(Limits, keys)
    requires Readable(Limits, keys, failed, LimitRecords(limits), s)
    ensures LimitPersisted(InsertAll(map[], LimitRows(LoadedRows(hashes, Limits, keys, failed))), limits, s)
  {
    var rows := LoadedRows(hashes, Limits, keys, failed);
    var loaded := InsertAll(map[], LimitRows(rows));
    LimitRowsInsert(rows);
    LoadedIff(hashes, Limits, keys, failed, LimitRecords(limits), s);
    assert s in loaded <==> s in LimitRecords(loaded);
    if s in loaded {
      assert LimitRecord(loaded[s]) == LimitRecords(loaded)[s] == LimitRecords(limits)[s] == LimitRecord(limits[s]);
    }
  }

  lemma UsageLoaded(hashes: Hashes, keys: seq<string>, failed: set<nat>, stored: UsageTable, s: Subject)
    requires Encodes(hashes, Usage, UsageRecords(stored)) && Scan(Usage, keys)
    requires Readable(Usage, keys, failed, UsageRecords(stored), s)
    ensures UsageOf(InsertAll(map[], UsageRows(LoadedRows(hashes, Usage, keys, failed))), s) == UsageOf(stored, s)
  {
    UsageLoadedIff(hashes, keys, failed, stored, s);
  }

  /** After any run that ends with a clean flush, a load into an empty cache gives a subject the usage and the limit it
      had, and every later sequence of requests on such subjects gets the replies the uninterrupted cache would have given.
      This holds of each subject that is not excluded, whose limit is persisted and whose keys are readable, whatever
      becomes of the others, the `gone` ones. `limits` is what Redis holds of the limits. */
  lemma RestartIsInvisible(states: seq<State>, actions: seq<Action>, from: nat, hashes: seq<Hashes>, limits: LimitTable,
                           usageKeys: seq<string>, failedUsage: set<nat>, limitKeys: seq<string>, failedLimits:
                           set<nat>,
                           gone: iset<Subject>, requests: seq<Request>)
    requires EndsWithCleanFlush(states, actions, from) && Trace(hashes, states, actions)
    requires Encodes(hashes[|actions|], Limits, LimitRecords(limits))
    requires Scan(Usage, usageKeys) && Scan(Limits, limitKeys)
    requires forall s :: s !in gone ==>
      && s !in states[|actions|].excluded && LimitPersisted(limits, states[|actions|].limits, s)
      && Readable(Usage, usageKeys, failedUsage, UsageRecords(states[|actions|].stored), s)
      && Readable(Limits, limitKeys, failedLimits, LimitRecords(limits), s)
    requires Spares(requests, gone)
    ensures var end := states[|actions|];
            var usage := InsertAll(map[], UsageRows(LoadedRows(hashes[|actions|], Usage, usageKeys, failedUsage)));
            var loaded := InsertAll(map[], LimitRows(LoadedRows(hashes[|actions|], Limits, limitKeys, failedLimits)));
            && (forall s :: s !in gone ==> Same(usage, loaded, end.usage, end.limits, s))
            && Replies(usage, loaded, requests) == Replies(end.usage, end.limits, requests)
  {
    var end := states[|actions|];
    var usage := InsertAll(map[], UsageRows(LoadedRows(hashes[|actions|], Usage, usageKeys, failedUsage)));
    var loaded := InsertAll(map[], LimitRows(LoadedRows(hashes[|actions|], Limits, limitKeys, failedLimits)));
    HashesHoldTheStore(hashes, states, actions, |actions|);
    forall s | s !in gone ensures Same(usage, loaded, end.usage, end.limits, s) {
      FlushedUsage(states, actions, from, s);
      UsageLoaded(hashes[|actions|], usageKeys, failedUsage, end.stored, s);
      LimitLoaded(hashes[|actions|], limitKeys, failedLimits, limits, s);
    }
    SameReplies(usage, loaded, end.usage, end.limits, gone, requests);
  }
}
