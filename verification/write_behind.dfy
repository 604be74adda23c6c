/** The write-behind cache as it runs: any number of request handlers and one flush loop, interleaved at every point
    where the source releases a lock. The history fields (`start`, `log`, `version`, `inForce`, `excluded`) record what
    happened and are never read by a step's effect on the other fields. */
module WriteBehind {
  import opened QuotaDomain
  import opened QuotaLedger
  import opened CacheTables

  datatype Call =
    | Reserve(subject: Subject, delta: ResourceDelta, default: QuotaEntry)
    | Update(subject: Subject, delta: ResourceDelta)
    | SetLimit(subject: Subject, quota: QuotaEntry)
    | Delete(subject: Subject)

  /** How far a call in flight has come. `Marking` has written its usage and owes the dirty mark; `Deleting(n)` has
      made n of its four removals: usage, limit, mark, stored entry. */
  datatype Progress = Begun | LimitRead(limit: QuotaEntry) | Marking | Deleting(removed: nat)

  datatype Handler = Handler(call: Call, progress: Progress)

  /** A row of the flush snapshot; `version` says how many accesses the usage had seen when it was read. */
  datatype Row = Row(subject: Subject, usage: UsageEntry, version: nat)

  /** Where the flush loop is. The first `n` keys or rows have been dealt with. `due` are the subjects that were dirty
      when collecting began: the iteration may or may not see marks set while it runs. */
  datatype Flush =
    | Idle
    | Collecting(due: set<Subject>, keys: seq<Subject>)
    | Unmarking(keys: seq<Subject>, n: nat)
    | Reading(keys: seq<Subject>, n: nat, rows: seq<Row>)
    | Storing(rows: seq<Row>, n: nat)
    | Remarking(rows: seq<Row>, n: nat)

  datatype State = State(
    usage: UsageTable,
    limits: LimitTable,
    dirty: set<Subject>,
    stored: UsageTable,
    handlers: map<nat, Handler>,
    flush: Flush,
    start: UsageTable,
    log: map<Subject, seq<Event>>,
    version: map<Subject, nat>,
    inForce: map<Subject, set<QuotaEntry>>,
    excluded: set<Subject>)

  /** A write to the store succeeds, or fails with the write made or not made. */
  datatype WriteOutcome = Written | Failed(written: bool)

  datatype Action =
    | Begin(h: nat, call: Call)
    | ReadLimit(h: nat)
    | Access(h: nat)
    | Mark(h: nat)
    | InsertLimit(h: nat)
    | Remove(h: nat)
    | RemoveStored(h: nat, outcome: WriteOutcome)
    | StartFlush
    | Collect(subject: Subject)
    | EndCollect
    | Unmark
    | ReadUsage
    | Store(outcome: WriteOutcome)
    | Remark
    | NextPhase

  // ----- what the history says about one subject -----

  function StartOf(st: State, s: Subject): UsageEntry {
    UsageOf(st.start, s)
  }

  function LogOf(st: State, s: Subject): seq<Event> {
    if s in st.log then st.log[s] else []
  }

  /** How many accesses the stored value of a subject reflects. */
  function VersionOf(st: State, s: Subject): nat {
    if s in st.version then st.version[s] else 0
  }

  /** Every limit a reservation for the subject could have been checked against so far. */
  function InForce(st: State, s: Subject): set<QuotaEntry> {
    if s in st.inForce then st.inForce[s] else {}
  }

  // ----- steps -----

  predicate InFlight(st: State, h: nat) {
    h in st.handlers
  }

  predicate Enabled(st: State, a: Action) {
    match a
    case Begin(h, call) => !InFlight(st, h)
    case ReadLimit(h) => InFlight(st, h) && st.handlers[h].call.Reserve? && st.handlers[h].progress.Begun?
    case Access(h) =>
      && InFlight(st, h)
      && ((st.handlers[h].call.Reserve? && st.handlers[h].progress.LimitRead?)
          || (st.handlers[h].call.Update? && st.handlers[h].progress.Begun?))
    case Mark(h) => InFlight(st, h) && st.handlers[h].progress.Marking?
    case InsertLimit(h) => InFlight(st, h) && st.handlers[h].call.SetLimit? && st.handlers[h].progress.Begun?
    case Remove(h) =>
      && InFlight(st, h) && st.handlers[h].call.Delete?
      && (st.handlers[h].progress.Begun? || (st.handlers[h].progress.Deleting? && st.handlers[h].progress.removed < 3))
    case RemoveStored(h, _) =>
      InFlight(st, h) && st.handlers[h].call.Delete? && st.handlers[h].progress == Deleting(3)
    case StartFlush => st.flush.Idle?
    case Collect(s) => st.flush.Collecting? && s in st.dirty && s !in st.flush.keys
    case EndCollect => st.flush.Collecting? && forall s :: s in st.flush.due && s in st.dirty ==> s in st.flush.keys
    case Unmark => st.flush.Unmarking? && st.flush.n < |st.flush.keys|
    case ReadUsage => st.flush.Reading? && st.flush.n < |st.flush.keys|
    case Store(_) => st.flush.Storing? && st.flush.n < |st.flush.rows|
    case Remark => st.flush.Remarking? && st.flush.n < |st.flush.rows|
    case NextPhase =>
      match st.flush
      case Unmarking(keys, n) => n == |keys|
      case Reading(keys, n, _) => n == |keys|
      case Storing(rows, n) => n == |rows|
      case Remarking(rows, n) => n == |rows|
      case _ => false
  }

  function Progressed(st: State, h: nat, progress: Progress): map<nat, Handler>
    requires InFlight(st, h)
  {
    st.handlers[h := Handler(st.handlers[h].call, progress)]
  }

  function DoBegin(st: State, h: nat, call: Call): State {
    st.(handlers := st.handlers[h := Handler(call, Begun)],
        excluded := if call.Delete? then st.excluded + {call.subject} else st.excluded)
  }

  function DoReadLimit(st: State, h: nat): State
    requires Enabled(st, ReadLimit(h))
  {
    var call := st.handlers[h].call;
    var limit := LimitOf(st.limits, call.subject, call.default);
    st.(handlers := Progressed(st, h, LimitRead(limit)),
        inForce := st.inForce[call.subject := InForce(st, call.subject) + {limit}])
  }

  function DoInsertLimit(st: State, h: nat): State
    requires Enabled(st, InsertLimit(h))
  {
    var call := st.handlers[h].call;
    st.(handlers := st.handlers - {h},
        limits := st.limits[call.subject := call.quota],
        inForce := st.inForce[call.subject := InForce(st, call.subject) + {call.quota}])
  }

  /** The entry that an access adds to its subject's log. */
  function AccessEvent(st: State, h: nat): Event
    requires Enabled(st, Access(h))
  {
    var Handler(call, progress) := st.handlers[h];
    if call.Update? then Unchecked(call.delta)
    else Checked(call.delta, progress.limit, Verdict(st.usage, call.subject, progress.limit, call.delta).Allowed?)
  }

  /** One locked access to a usage entry. A refused reservation is done; everything else goes on to its mark. */
  function DoAccess(st: State, h: nat): State
    requires Enabled(st, Access(h))
  {
    var call, event := st.handlers[h].call, AccessEvent(st, h);
    st.(usage := if call.Update? then Applied(st.usage, call.subject, call.delta)
                 else Reserved(st.usage, call.subject, event.limit, call.delta),
        log := st.log[call.subject := LogOf(st, call.subject) + [event]],
        handlers := if event.Checked? && !event.granted then st.handlers - {h} else Progressed(st, h, Marking))
  }

  function DoMark(st: State, h: nat): State
    requires Enabled(st, Mark(h))
  {
    st.(dirty := st.dirty + {st.handlers[h].call.subject}, handlers := st.handlers - {h})
  }

  /** The next of the removals that a deletion makes in memory. */
  function DoRemove(st: State, h: nat): State
    requires Enabled(st, Remove(h))
  {
    var s, progress := st.handlers[h].call.subject, st.handlers[h].progress;
    var removed := if progress.Begun? then 0 else progress.removed;
    st.(usage := if removed == 0 then st.usage - {s} else st.usage,
        limits := if removed == 1 then st.limits - {s} else st.limits,
        dirty := if removed == 2 then st.dirty - {s} else st.dirty,
        handlers := Progressed(st, h, Deleting(removed + 1)))
  }

  function DoRemoveStored(st: State, h: nat, outcome: WriteOutcome): State
    requires Enabled(st, RemoveStored(h, outcome))
  {
    st.(stored := if outcome.Written? || outcome.written then st.stored - {st.handlers[h].call.subject} else st.stored,
        handlers := st.handlers - {h})
  }

  function DoReadUsage(st: State): State
    requires Enabled(st, ReadUsage)
  {
    var key := st.flush.keys[st.flush.n];
    var rows := if key in st.usage then [Row(key, st.usage[key], |LogOf(st, key)|)] else [];
    st.(flush := Reading(st.flush.keys, st.flush.n + 1, st.flush.rows + rows))
  }

  /** Writing the next row; a failure ends the writing and sends every row back to be marked again. */
  function DoStore(st: State, outcome: WriteOutcome): State
    requires Enabled(st, Store(outcome))
  {
    var rows, n := st.flush.rows, st.flush.n;
    var row, written := rows[n], outcome.Written? || outcome.written;
    st.(stored := if written then st.stored[row.subject := row.usage] else st.stored,
        version := if written then st.version[row.subject := row.version] else st.version,
        flush := if outcome.Written? then Storing(rows, n + 1) else Remarking(rows, 0))
  }

  function DoNextPhase(st: State): State
    requires Enabled(st, NextPhase)
  {
    st.(flush := match st.flush
                 case Unmarking(keys, _) => Reading(keys, 0, [])
                 case Reading(_, _, rows) => Storing(rows, 0)
                 case _ => Idle)
  }

  function Step(st: State, a: Action): State
    requires Enabled(st, a)
  {
    match a
    case Begin(h, call) => DoBegin(st, h, call)
    case ReadLimit(h) => DoReadLimit(st, h)
    case Access(h) => DoAccess(st, h)
    case Mark(h) => DoMark(st, h)
    case InsertLimit(h) => DoInsertLimit(st, h)
    case Remove(h) => DoRemove(st, h)
    case RemoveStored(h, outcome) => DoRemoveStored(st, h, outcome)
    case StartFlush => st.(flush := Collecting(st.dirty, []))
    case Collect(s) => st.(flush := Collecting(st.flush.due, st.flush.keys + [s]))
    case EndCollect => st.(flush := Unmarking(st.flush.keys, 0))
    case Unmark => st.(dirty := st.dirty - {st.flush.keys[st.flush.n]}, flush := Unmarking(st.flush.keys, st.flush.n + 1))
    case ReadUsage => DoReadUsage(st)
    case Store(outcome) => DoStore(st, outcome)
    case Remark =>
      st.(dirty := st.dirty + {st.flush.rows[st.flush.n].subject}, flush := Remarking(st.flush.rows, st.flush.n + 1))
    case NextPhase => DoNextPhase(st)
  }

  /** The subjects whose usage in memory is not the stored one. */
  ghost function Misloaded(st: State): set<Subject> {
    set s | s in st.usage.Keys + st.stored.Keys && UsageOf(st.stored, s) != UsageOf(st.usage, s)
  }

  /** The service has just loaded the store into memory, as far as it could be read, and started its flush loop. What
      the store may lose is excluded from the start: the subjects that did not get their stored usage. */
  ghost predicate Initial(st: State) {
    && st.usage == st.start && st.excluded == Misloaded(st)
    && st.dirty == {} && st.handlers == map[] && st.flush == Idle
    && st.log == map[] && st.version == map[]
    && st.inForce == map s | s in st.limits :: {st.limits[s]}
  }

  /** Every interleaving of handlers and flush loop, as the states it goes through. */
  ghost predicate Run(states: seq<State>, actions: seq<Action>) {
    && |states| == |actions| + 1
    && Initial(states[0])
    && forall k :: 0 <= k < |actions| ==> Enabled(states[k], actions[k]) && states[k + 1] == Step(states[k], actions[k])
  }

  // ----- obligations -----

  ghost predicate InSync(st: State, s: Subject) {
    UsageOf(st.stored, s) == UsageOf(st.usage, s)
  }

  /** A handler has changed the subject's usage and not yet marked it. */
  ghost predicate HandlerOwes(st: State, s: Subject) {
    exists h :: InFlight(st, h) && st.handlers[h].call.subject == s && st.handlers[h].progress.Marking?
  }

  /** A row of the subject, from position n on. */
  ghost predicate HasRow(rows: seq<Row>, n: nat, s: Subject) {
    exists j :: n <= j < |rows| && rows[j].subject == s
  }

  ghost predicate HasKey(keys: seq<Subject>, n: nat, s: Subject) {
    exists j :: n <= j < |keys| && keys[j] == s
  }

  /** The flush loop has taken the subject's mark, and still has to read, write or mark it again. */
  ghost predicate FlushOwes(st: State, s: Subject) {
    match st.flush
    case Unmarking(keys, _) => HasKey(keys, 0, s)
    case Reading(keys, n, rows) => HasKey(keys, n, s) || HasRow(rows, 0, s)
    case Storing(rows, n) => HasRow(rows, n, s)
    case Remarking(rows, n) => HasRow(rows, n, s)
    case _ => false
  }

  /** Nothing about the subject has been forgotten. */
  ghost predicate Remembered(st: State, s: Subject) {
    InSync(st, s) || s in st.dirty || HandlerOwes(st, s) || FlushOwes(st, s)
  }

  // ----- invariant -----

  ghost predicate HandlerOk(st: State, h: nat)
    requires InFlight(st, h)
  {
    var Handler(call, progress) := st.handlers[h];
    match progress
    case LimitRead(limit) => call.Reserve? && limit in InForce(st, call.subject)
    case Marking => (call.Reserve? || call.Update?) && (call.subject in st.usage || call.subject in st.excluded)
    case Deleting(_) => call.subject in st.excluded
    case Begun => call.Delete? ==> call.subject in st.excluded
  }

  /** Memory is the replay of the subject's log, and the store is the replay of a prefix of it. */
  ghost predicate HistoryOk(st: State, s: Subject) {
    && HonestLog(StartOf(st, s), LogOf(st, s))
    && UsageOf(st.usage, s) == Replay(StartOf(st, s), LogOf(st, s))
    && VersionOf(st, s) <= |LogOf(st, s)|
    && UsageOf(st.stored, s) == Replay(StartOf(st, s), LogOf(st, s)[..VersionOf(st, s)])
    && (forall k :: 0 <= k < |LogOf(st, s)| && LogOf(st, s)[k].Checked? ==> LogOf(st, s)[k].limit in InForce(st, s))
  }

  ghost predicate SubjectOk(st: State, s: Subject) {
    HistoryOk(st, s) && (s in st.dirty ==> s in st.usage) && Remembered(st, s)
  }

  /** A row holds a usage that the subject really had, not older than the stored one; it is the current usage unless
      a newer one is marked or about to be. */
  ghost predicate RowOk(st: State, row: Row) {
    var s := row.subject;
    && VersionOf(st, s) <= row.version <= |LogOf(st, s)|
    && row.usage == Replay(StartOf(st, s), LogOf(st, s)[..row.version])
    && (row.usage == UsageOf(st.usage, s) || s in st.dirty || HandlerOwes(st, s))
  }

  /** The rows from position n on are good, and no two rows speak for the same subject. */
  ghost predicate RowsOk(st: State, rows: seq<Row>, n: nat) {
    && (forall j :: n <= j < |rows| && rows[j].subject !in st.excluded ==> RowOk(st, rows[j]))
    && (forall i, j :: 0 <= i < j < |rows| ==> rows[i].subject != rows[j].subject)
    && (forall j :: 0 <= j < |rows| && rows[j].subject !in st.excluded ==> rows[j].subject in st.usage)
  }

  ghost predicate KeysOk(st: State, keys: seq<Subject>) {
    && (forall j :: 0 <= j < |keys| && keys[j] !in st.excluded ==> keys[j] in st.usage)
    && (forall i, j :: 0 <= i < j < |keys| ==> keys[i] != keys[j])
  }

  ghost predicate FlushOk(st: State) {
    match st.flush
    case Idle => true
    case Collecting(_, keys) => KeysOk(st, keys)
    case Unmarking(keys, n) => n <= |keys| && KeysOk(st, keys)
    case Reading(keys, n, rows) =>
      && n <= |keys| && KeysOk(st, keys) && RowsOk(st, rows, 0)
      && (forall i, j :: 0 <= i < |rows| && n <= j < |keys| ==> rows[i].subject != keys[j])
    case Storing(rows, n) => n <= |rows| && RowsOk(st, rows, n)
    case Remarking(rows, n) => n <= |rows| && RowsOk(st, rows, |rows|)
  }

  ghost predicate HandlersOk(st: State) {
    forall h :: InFlight(st, h) ==> HandlerOk(st, h)
  }

  /** Subjects that were loaded as they were stored and that nobody has asked to delete. */
  ghost predicate SubjectsOk(st: State) {
    forall s :: s !in st.excluded ==> SubjectOk(st, s)
  }

  ghost predicate Inv(st: State) {
    HandlersOk(st) && SubjectsOk(st) && FlushOk(st)
  }

  // ----- frames -----

  /** Nothing that the history promises about the subject has changed. */
  ghost predicate SameHistory(st: State, st': State, s: Subject) {
    && UsageOf(st'.usage, s) == UsageOf(st.usage, s)
    && UsageOf(st'.stored, s) == UsageOf(st.stored, s)
    && StartOf(st', s) == StartOf(st, s)
    && LogOf(st', s) == LogOf(st, s)
    && VersionOf(st', s) == VersionOf(st, s)
    && InForce(st, s) <= InForce(st', s)
  }

  lemma HistoryFrame(st: State, st': State, s: Subject)
    requires HistoryOk(st, s) && SameHistory(st, st', s)
    ensures HistoryOk(st', s)
  {
  }

  /** Handlers that owe a mark for the subject still do. */
  ghost predicate KeepsOwing(st: State, st': State, s: Subject) {
    forall h :: InFlight(st, h) && st.handlers[h].call.subject == s && st.handlers[h].progress.Marking? ==>
      InFlight(st', h) && st'.handlers[h] == st.handlers[h]
  }

  lemma OwingFrame(st: State, st': State, s: Subject)
    requires KeepsOwing(st, st', s)
    ensures HandlerOwes(st, s) ==> HandlerOwes(st', s)
  {
    if HandlerOwes(st, s) {
      var h :| InFlight(st, h) && st.handlers[h].call.subject == s && st.handlers[h].progress.Marking?;
      assert InFlight(st', h);
    }
  }

  /** What a step must keep for the rows of the subject to stay good: the log only grows, and the usage changes only
      under somebody who owes a mark. */
  ghost predicate RowsSafe(st: State, st': State, s: Subject) {
    && StartOf(st', s) == StartOf(st, s)
    && LogOf(st, s) <= LogOf(st', s)
    && VersionOf(st', s) == VersionOf(st, s)
    && (UsageOf(st'.usage, s) == UsageOf(st.usage, s) || HandlerOwes(st', s))
    && (s in st.dirty ==> s in st'.dirty)
    && (HandlerOwes(st, s) ==> HandlerOwes(st', s) || s in st'.dirty)
    && (s in st.usage ==> s in st'.usage)
  }

  lemma RowFrame(st: State, st': State, row: Row)
    requires RowOk(st, row) && RowsSafe(st, st', row.subject)
    ensures RowOk(st', row)
  {
    assert LogOf(st', row.subject)[..row.version] == LogOf(st, row.subject)[..row.version];
  }

  lemma RowsFrame(st: State, st': State, rows: seq<Row>, n: nat)
    requires RowsOk(st, rows, n) && st.excluded <= st'.excluded
    requires forall j :: n <= j < |rows| && rows[j].subject !in st'.excluded ==> RowsSafe(st, st', rows[j].subject)
    requires forall s :: s !in st'.excluded && s in st.usage ==> s in st'.usage
    ensures RowsOk(st', rows, n)
  {
    forall j | n <= j < |rows| && rows[j].subject !in st'.excluded ensures RowOk(st', rows[j]) {
      RowFrame(st, st', rows[j]);
    }
  }

  lemma FlushFrame(st: State, st': State)
    requires FlushOk(st) && st'.flush == st.flush && st.excluded <= st'.excluded
    requires forall s :: s !in st'.excluded ==> RowsSafe(st, st', s)
    ensures FlushOk(st')
  {
    assert forall s :: s !in st'.excluded && s in st.usage ==> s in st'.usage by {
      assert forall s :: s !in st'.excluded ==> RowsSafe(st, st', s);
    }
    match st.flush {
      case Reading(_, _, rows) => RowsFrame(st, st', rows, 0);
      case Storing(rows, n) => RowsFrame(st, st', rows, n);
      case Remarking(rows, n) => RowsFrame(st, st', rows, |rows|);
      case _ =>
    }
  }

  // ----- steps of the handlers -----

  lemma InitialOk(st: State)
    requires Initial(st)
    ensures Inv(st)
  {
  }

  /** A step of a handler that leaves marks, store and flush alone and takes over no obligation. */
  lemma HandlerStepKeeps(st: State, st': State, x: Subject)
    requires Inv(st)
    requires st'.stored == st.stored || x in st'.excluded
    requires st'.flush == st.flush && st'.start == st.start && st'.version == st.version && st.excluded <= st'.excluded
    requires forall s :: s != x ==> st'.dirty * {s} == st.dirty * {s}
    requires forall s :: s != x ==>
      KeepsOwing(st, st', s) && SameHistory(st, st', s) && (s in st'.usage <==> s in st.usage)
    requires x !in st'.excluded ==> SubjectOk(st', x) && RowsSafe(st, st', x)
    ensures SubjectsOk(st') && FlushOk(st')
  {
    forall s | s !in st'.excluded ensures SubjectOk(st', s) && RowsSafe(st, st', s) {
      if s != x {
        assert SubjectOk(st, s) && SameHistory(st, st', s);
        assert s in st'.dirty * {s} <==> s in st.dirty * {s};
        OwingFrame(st, st', s);
        HistoryFrame(st, st', s);
      }
    }
    FlushFrame(st, st');
  }

  /** A step that starts a call, reads or changes a limit. */
  lemma LimitStepKeeps(st: State, st': State, h: nat, x: Subject)
    requires Inv(st)
    requires st'.usage == st.usage && st'.dirty == st.dirty && st'.stored == st.stored && st'.flush == st.flush
    requires st'.start == st.start && st'.log == st.log && st'.version == st.version && st.excluded <= st'.excluded
    requires forall s :: InForce(st, s) <= InForce(st', s)
    requires forall k :: k != h && k in st'.handlers ==> k in st.handlers && st'.handlers[k] == st.handlers[k]
    requires forall k :: k in st.handlers && st.handlers[k].progress.Marking? ==>
      k in st'.handlers && st'.handlers[k] == st.handlers[k]
    requires h in st'.handlers ==> HandlerOk(st', h)
    ensures Inv(st')
  {
    assert forall s :: KeepsOwing(st, st', s);
    OwingFrame(st, st', x);
    if x !in st'.excluded {
      assert SubjectOk(st, x) && SameHistory(st, st', x);
      HistoryFrame(st, st', x);
    }
    HandlerStepKeeps(st, st', x);
    forall k | InFlight(st', k) ensures HandlerOk(st', k) {
      if k != h { assert InFlight(st, k) && HandlerOk(st, k); }
    }
  }

  /** What an access does, in terms of the event it logs. */
  ghost predicate AccessEffect(st: State, st': State, h: nat, x: Subject, event: Event) {
    && LogOf(st', x) == LogOf(st, x) + [event]
    && Honest(UsageOf(st.usage, x), event)
    && UsageOf(st'.usage, x) == After(UsageOf(st.usage, x), event)
    && (event.Checked? ==> event.limit in InForce(st, x))
    && InForce(st', x) == InForce(st, x)
    && x in st'.usage
    && st'.stored == st.stored && st'.dirty == st.dirty && st'.start == st.start && st'.version == st.version
    && st'.flush == st.flush && st'.excluded == st.excluded
    && KeepsOwing(st, st', x)
    && (HandlerOwes(st', x) || UsageOf(st'.usage, x) == UsageOf(st.usage, x))
  }

  lemma AccessHasEffect(st: State, h: nat)
    requires Enabled(st, Access(h)) && HandlerOk(st, h)
    ensures AccessEffect(st, DoAccess(st, h), h, st.handlers[h].call.subject, AccessEvent(st, h))
  {
    var st', x := DoAccess(st, h), st.handlers[h].call.subject;
    if InFlight(st', h) {
      assert st'.handlers[h] == Handler(st.handlers[h].call, Marking);
      assert HandlerOwes(st', x);
    }
  }

  lemma AccessKeepsSubject(st: State, st': State, h: nat, x: Subject, event: Event)
    requires SubjectOk(st, x) && AccessEffect(st, st', h, x, event)
    ensures SubjectOk(st', x) && RowsSafe(st, st', x)
  {
    var log := LogOf(st, x);
    ReplayAppend(StartOf(st, x), log, event);
    HonestAppend(StartOf(st, x), log, event);
    assert (log + [event])[..VersionOf(st, x)] == log[..VersionOf(st, x)];
    OwingFrame(st, st', x);
  }

  lemma AccessKeeps(st: State, h: nat)
    requires Inv(st) && Enabled(st, Access(h))
    ensures Inv(DoAccess(st, h))
  {
    var st', x := DoAccess(st, h), st.handlers[h].call.subject;
    assert HandlerOk(st, h);
    AccessHasEffect(st, h);
    if x !in st'.excluded {
      AccessKeepsSubject(st, st', h, x, AccessEvent(st, h));
    }
    AccessKeepsHandlers(st, h);
    forall s | s != x
      ensures KeepsOwing(st, st', s) && SameHistory(st, st', s) && (s in st'.usage <==> s in st.usage)
    {
      AccessLeavesOthers(st, h, s);
    }
    HandlerStepKeeps(st, st', x);
  }

  lemma AccessLeavesOthers(st: State, h: nat, s: Subject)
    requires Enabled(st, Access(h)) && s != st.handlers[h].call.subject
    ensures var st' := DoAccess(st, h);
            KeepsOwing(st, st', s) && SameHistory(st, st', s) && (s in st'.usage <==> s in st.usage)
  {
  }

  lemma AccessKeepsHandlers(st: State, h: nat)
    requires HandlersOk(st) && Enabled(st, Access(h))
    ensures HandlersOk(DoAccess(st, h))
  {
    var st' := DoAccess(st, h);
    assert HandlerOk(st, h);
    forall k | InFlight(st', k) ensures HandlerOk(st', k) {
      assert InFlight(st, k) && HandlerOk(st, k);
      assert st'.limits == st.limits && st'.inForce == st.inForce && st'.excluded == st.excluded;
      if k != h { assert st'.handlers[k] == st.handlers[k]; }
    }
  }

  lemma MarkKeeps(st: State, h: nat)
    requires Inv(st) && Enabled(st, Mark(h))
    ensures Inv(DoMark(st, h))
  {
    var st', x := DoMark(st, h), st.handlers[h].call.subject;
    assert HandlerOk(st, h);
    forall k | InFlight(st', k) ensures HandlerOk(st', k) {
      assert InFlight(st, k) && HandlerOk(st, k);
    }
    if x !in st'.excluded {
      assert SubjectOk(st, x) && SameHistory(st, st', x);
      HistoryFrame(st, st', x);
    }
    HandlerStepKeeps(st, st', x);
  }

  /** A deletion touches only its own subject, which is no longer spoken for. */
  lemma DeletionKeeps(st: State, st': State, h: nat, x: Subject)
    requires Inv(st) && x in st.excluded && InFlight(st, h) && st.handlers[h].call.Delete?
    requires forall s :: s != x ==> (s in st'.usage <==> s in st.usage) && (s in st'.dirty <==> s in st.dirty)
    requires forall s :: s != x ==> SameHistory(st, st', s)
    requires st'.flush == st.flush && st'.start == st.start && st'.version == st.version && st'.excluded == st.excluded
    requires forall s :: InForce(st, s) <= InForce(st', s)
    requires forall k :: k != h ==> (k in st'.handlers <==> k in st.handlers)
    requires forall k :: k != h && k in st.handlers ==> st'.handlers[k] == st.handlers[k]
    requires h in st'.handlers ==> st'.handlers[h].call == st.handlers[h].call && st'.handlers[h].progress.Deleting?
    requires st.handlers[h].call.subject == x
    ensures Inv(st')
  {
    assert HandlerOk(st, h);
    forall k | InFlight(st', k) ensures HandlerOk(st', k) {
      if k != h { assert InFlight(st, k) && HandlerOk(st, k); }
    }
    HandlerStepKeeps(st, st', x);
  }

  lemma RemoveKeeps(st: State, h: nat)
    requires Inv(st) && Enabled(st, Remove(h))
    ensures Inv(DoRemove(st, h))
  {
    var st', x := DoRemove(st, h), st.handlers[h].call.subject;
    assert HandlerOk(st, h);
    forall s ensures InForce(st, s) <= InForce(st', s) && (s != x ==> SameHistory(st, st', s)) {
      RemoveLeavesOthers(st, h, s);
    }
    DeletionKeeps(st, st', h, x);
  }

  lemma RemoveLeavesOthers(st: State, h: nat, s: Subject)
    requires Enabled(st, Remove(h))
    ensures InForce(st, s) <= InForce(DoRemove(st, h), s)
    ensures s != st.handlers[h].call.subject ==> SameHistory(st, DoRemove(st, h), s)
  {
  }

  lemma RemoveStoredKeeps(st: State, h: nat, outcome: WriteOutcome)
    requires Inv(st) && Enabled(st, RemoveStored(h, outcome))
    ensures Inv(DoRemoveStored(st, h, outcome))
  {
    assert HandlerOk(st, h);
    DeletionKeeps(st, DoRemoveStored(st, h, outcome), h, st.handlers[h].call.subject);
  }

  // ----- steps of the flush loop -----

  /** What no step of the flush loop touches. */
  ghost predicate HandlersAlone(st: State, st': State) {
    && st'.handlers == st.handlers && st'.usage == st.usage && st'.limits == st.limits && st'.inForce == st.inForce
    && st'.excluded == st.excluded && st'.start == st.start && st'.log == st.log
  }

  lemma HandlersFrame(st: State, st': State)
    requires HandlersOk(st) && HandlersAlone(st, st')
    ensures HandlersOk(st')
  {
    forall h | InFlight(st', h) ensures HandlerOk(st', h) {
      assert InFlight(st, h) && HandlerOk(st, h);
    }
  }

  /** A flush step that leaves the store alone, and drops no obligation. */
  lemma FlushStepKeeps(st: State, st': State)
    requires Inv(st) && HandlersAlone(st, st') && st'.stored == st.stored && st'.version == st.version
    requires forall s :: s !in st.excluded && s in st'.dirty ==> s in st.usage
    requires forall s :: s !in st.excluded && s in st.dirty ==> s in st'.dirty || FlushOwes(st', s)
    requires forall s :: s !in st.excluded && FlushOwes(st, s) ==> s in st'.dirty || FlushOwes(st', s)
    ensures HandlersOk(st') && SubjectsOk(st')
  {
    HandlersFrame(st, st');
    forall s | s !in st'.excluded ensures SubjectOk(st', s) {
      assert SubjectOk(st, s);
      OwingFrame(st, st', s);
      HistoryFrame(st, st', s);
    }
  }

  lemma CollectKeeps(st: State, a: Action)
    requires Inv(st) && Enabled(st, a) && (a.StartFlush? || a.Collect? || a.EndCollect?)
    ensures Inv(Step(st, a))
  {
    assert forall s :: s !in st.excluded ==> SubjectOk(st, s);
    FlushStepKeeps(st, Step(st, a));
  }

  /** The mark is taken, and the flush loop owes the subject instead. */
  lemma UnmarkKeeps(st: State)
    requires Inv(st) && Enabled(st, Unmark)
    ensures Inv(Step(st, Unmark))
  {
    assert forall s :: s !in st.excluded ==> SubjectOk(st, s);
    FlushStepKeeps(st, Step(st, Unmark));
  }

  /** Reading comes after unmarking, so the row holds the current usage. */
  lemma ReadUsageKeeps(st: State)
    requires Inv(st) && Enabled(st, ReadUsage)
    ensures Inv(DoReadUsage(st))
  {
    var st' := DoReadUsage(st);
    forall s | s !in st.excluded && FlushOwes(st, s) ensures FlushOwes(st', s) {
      ReadingKeepsOwing(st, s);
    }
    assert forall s :: s !in st.excluded ==> SubjectOk(st, s);
    FlushStepKeeps(st, st');
    ReadingKeepsRows(st);
  }

  lemma ReadingKeepsOwing(st: State, s: Subject)
    requires Enabled(st, ReadUsage) && FlushOwes(st, s) && FlushOk(st) && s !in st.excluded
    ensures FlushOwes(DoReadUsage(st), s)
  {
    var keys, n, rows, rows' := st.flush.keys, st.flush.n, st.flush.rows, DoReadUsage(st).flush.rows;
    if HasRow(rows, 0, s) {
      var j :| 0 <= j < |rows| && rows[j].subject == s;
      assert rows'[j].subject == s;
    } else {
      var j :| n <= j < |keys| && keys[j] == s;
      if j == n {
        assert rows'[|rows|].subject == s;
      }
    }
  }

  lemma ReadingKeepsRows(st: State)
    requires Inv(st) && Enabled(st, ReadUsage)
    ensures FlushOk(DoReadUsage(st))
  {
    var st' := DoReadUsage(st);
    var rows, rows', key := st.flush.rows, st'.flush.rows, st.flush.keys[st.flush.n];
    forall j | 0 <= j < |rows| && rows[j].subject !in st'.excluded ensures RowsSafe(st, st', rows[j].subject) {
      OwingFrame(st, st', rows[j].subject);
    }
    RowsFrame(st, st', rows, 0);
    if key in st.usage && key !in st.excluded {
      assert SubjectOk(st, key);
      assert LogOf(st, key)[..|LogOf(st, key)|] == LogOf(st, key);
      assert RowOk(st', rows'[|rows|]);
    }
  }

  lemma StoreKeeps(st: State, outcome: WriteOutcome)
    requires Inv(st) && Enabled(st, Store(outcome))
    ensures Inv(DoStore(st, outcome))
  {
    var st' := DoStore(st, outcome);
    HandlersFrame(st, st');
    forall s | s !in st'.excluded ensures SubjectOk(st', s) {
      assert SubjectOk(st, s);
      OwingFrame(st, st', s);
      StoreKeepsSubject(st, outcome, s);
    }
    if outcome.Written? {
      StoreKeepsRows(st);
    }
  }

  lemma StoreKeepsRows(st: State)
    requires FlushOk(st) && Enabled(st, Store(Written))
    ensures FlushOk(DoStore(st, Written))
  {
    var st', rows, n := DoStore(st, Written), st.flush.rows, st.flush.n;
    forall j | n + 1 <= j < |rows| && rows[j].subject !in st'.excluded ensures RowsSafe(st, st', rows[j].subject) {
      assert rows[n].subject != rows[j].subject;
      OwingFrame(st, st', rows[j].subject);
    }
    RowsFrame(st, st', rows, n + 1);
  }

  lemma StoreKeepsSubject(st: State, outcome: WriteOutcome, s: Subject)
    requires FlushOk(st) && Enabled(st, Store(outcome)) && SubjectOk(st, s) && s !in st.excluded
    requires HandlerOwes(st, s) ==> HandlerOwes(DoStore(st, outcome), s)
    ensures SubjectOk(DoStore(st, outcome), s)
  {
    var st', row := DoStore(st, outcome), st.flush.rows[st.flush.n];
    if s == row.subject && (outcome.Written? || outcome.written) {
      WrittenRow(st, st', row);
      assert !InSync(st', s) ==> s in st'.dirty || HandlerOwes(st', s);
    } else {
      HistoryFrame(st, st', s);
      if FlushOwes(st, s) { StoreKeepsOwing(st, outcome, s); }
      assert s == row.subject ==> FlushOwes(st, s);
    }
  }

  /** Once written, a good row is what the store holds. */
  lemma WrittenRow(st: State, st': State, row: Row)
    requires RowOk(st, row) && HistoryOk(st, row.subject)
    requires UsageOf(st'.stored, row.subject) == row.usage && VersionOf(st', row.subject) == row.version
    requires HandlersAlone(st, st') && st'.dirty == st.dirty
    ensures HistoryOk(st', row.subject)
    ensures InSync(st', row.subject) || row.subject in st'.dirty || HandlerOwes(st, row.subject)
  {
  }

  lemma StoreKeepsOwing(st: State, outcome: WriteOutcome, s: Subject)
    requires Enabled(st, Store(outcome)) && FlushOwes(st, s)
    ensures (outcome.Written? && s == st.flush.rows[st.flush.n].subject) || FlushOwes(DoStore(st, outcome), s)
  {
    var rows, n := st.flush.rows, st.flush.n;
    var j :| n <= j < |rows| && rows[j].subject == s;
    assert j > n || !outcome.Written? ==> FlushOwes(DoStore(st, outcome), s);
  }

  lemma RemarkKeeps(st: State)
    requires Inv(st) && Enabled(st, Remark)
    ensures Inv(Step(st, Remark))
  {
    assert forall s :: s !in st.excluded ==> SubjectOk(st, s);
    FlushStepKeeps(st, Step(st, Remark));
  }

  lemma NextPhaseKeeps(st: State)
    requires Inv(st) && Enabled(st, NextPhase)
    ensures Inv(DoNextPhase(st))
  {
    var st' := DoNextPhase(st);
    forall s | s !in st.excluded ensures (s in st.dirty ==> s in st.usage) && (FlushOwes(st, s) ==> FlushOwes(st', s)) {
      assert SubjectOk(st, s);
    }
    FlushStepKeeps(st, st');
    if st.flush.Reading? {
      forall s | s !in st'.excluded ensures RowsSafe(st, st', s) {
        OwingFrame(st, st', s);
      }
      RowsFrame(st, st', st.flush.rows, 0);
    }
  }

  lemma BeginKeeps(st: State, h: nat, call: Call)
    requires Inv(st) && Enabled(st, Begin(h, call))
    ensures Inv(DoBegin(st, h, call))
  {
    LimitStepKeeps(st, DoBegin(st, h, call), h, call.subject);
  }

  lemma ReadLimitKeeps(st: State, h: nat)
    requires Inv(st) && Enabled(st, ReadLimit(h))
    ensures Inv(DoReadLimit(st, h))
  {
    LimitStepKeeps(st, DoReadLimit(st, h), h, st.handlers[h].call.subject);
  }

  lemma InsertLimitKeeps(st: State, h: nat)
    requires Inv(st) && Enabled(st, InsertLimit(h))
    ensures Inv(DoInsertLimit(st, h))
  {
    LimitStepKeeps(st, DoInsertLimit(st, h), h, st.handlers[h].call.subject);
  }

  lemma StepKeeps(st: State, a: Action)
    requires Inv(st) && Enabled(st, a)
    ensures Inv(Step(st, a))
  {
    match a
    case Begin(h, call) => BeginKeeps(st, h, call);
    case ReadLimit(h) => ReadLimitKeeps(st, h);
    case InsertLimit(h) => InsertLimitKeeps(st, h);
    case Access(h) => AccessKeeps(st, h);
    case Mark(h) => MarkKeeps(st, h);
    case Remove(h) => RemoveKeeps(st, h);
    case RemoveStored(h, outcome) => RemoveStoredKeeps(st, h, outcome);
    case StartFlush => CollectKeeps(st, a);
    case Collect(_) => CollectKeeps(st, a);
    case EndCollect => CollectKeeps(st, a);
    case Unmark => UnmarkKeeps(st);
    case ReadUsage => ReadUsageKeeps(st);
    case Store(outcome) => StoreKeeps(st, outcome);
    case Remark => RemarkKeeps(st);
    case NextPhase => NextPhaseKeeps(st);
  }

  lemma {:induction false} RunInv(states: seq<State>, actions: seq<Action>, k: nat)
    requires Run(states, actions) && k < |states|
    ensures Inv(states[k])
  {
    if k == 0 {
      InitialOk(states[0]);
    } else {
      RunInv(states, actions, k - 1);
      StepKeeps(states[k - 1], actions[k - 1]);
    }
  }

  // ----- memory alone -----

  /** Nobody has asked to delete the subject before moment k. */
  ghost predicate Undeleted(actions: seq<Action>, k: nat, s: Subject)
    requires k <= |actions|
  {
    forall m :: 0 <= m < k ==> !Deletes(actions[m], s)
  }

  ghost predicate Deletes(a: Action, s: Subject) {
    a.Begin? && a.call == Delete(s)
  }

  /** What holds of a subject's usage in memory, whatever the store holds. */
  ghost predicate MemoryOk(st: State, s: Subject) {
    && HonestLog(StartOf(st, s), LogOf(st, s))
    && UsageOf(st.usage, s) == Replay(StartOf(st, s), LogOf(st, s))
    && (forall k :: 0 <= k < |LogOf(st, s)| && LogOf(st, s)[k].Checked? ==> LogOf(st, s)[k].limit in InForce(st, s))
    && (forall h :: InFlight(st, h) && st.handlers[h].call.subject == s ==> MemoryHandlerOk(st, st.handlers[h]))
  }

  ghost predicate MemoryHandlerOk(st: State, handler: Handler) {
    && !handler.call.Delete?
    && (handler.progress.LimitRead? ==> handler.progress.limit in InForce(st, handler.call.subject))
  }

  lemma MemoryStep(st: State, a: Action, s: Subject)
    requires MemoryOk(st, s) && Enabled(st, a) && !Deletes(a, s)
    ensures MemoryOk(Step(st, a), s)
  {
    match a {
      case Access(h) => MemoryAccess(st, h, s);
      case Remove(h) => MemoryRemove(st, h, s);
      case _ => MemoryFrame(st, Step(st, a), a, s);
    }
  }

  /** Steps that neither access nor remove a usage entry. */
  lemma MemoryFrame(st: State, st': State, a: Action, s: Subject)
    requires MemoryOk(st, s) && Enabled(st, a) && !Deletes(a, s) && !a.Access? && !a.Remove? && st' == Step(st, a)
    ensures MemoryOk(st', s)
  {
    assert st'.usage == st.usage && st'.log == st.log && st'.start == st.start;
    assert InForce(st, s) <= InForce(st', s);
    forall h | InFlight(st', h) && st'.handlers[h].call.subject == s ensures MemoryHandlerOk(st', st'.handlers[h]) {
      assert InForce(st, s) <= InForce(st', s);
    }
  }

  lemma MemoryRemove(st: State, h: nat, s: Subject)
    requires MemoryOk(st, s) && Enabled(st, Remove(h))
    ensures MemoryOk(DoRemove(st, h), s)
  {
    var st' := DoRemove(st, h);
    assert st.handlers[h].call.subject != s;
    assert UsageOf(st'.usage, s) == UsageOf(st.usage, s);
    forall k | InFlight(st', k) && st'.handlers[k].call.subject == s ensures MemoryHandlerOk(st', st'.handlers[k]) {
      assert InFlight(st, k) && MemoryHandlerOk(st, st.handlers[k]);
    }
  }

  lemma MemoryAccess(st: State, h: nat, s: Subject)
    requires MemoryOk(st, s) && Enabled(st, Access(h))
    ensures MemoryOk(DoAccess(st, h), s)
  {
    var st', x, event := DoAccess(st, h), st.handlers[h].call.subject, AccessEvent(st, h);
    assert st'.start == st.start && st'.inForce == st.inForce;
    if x == s {
      assert MemoryHandlerOk(st, st.handlers[h]);
      assert LogOf(st', s) == LogOf(st, s) + [event] && UsageOf(st'.usage, s) == After(UsageOf(st.usage, s), event);
      ReplayAppend(StartOf(st, s), LogOf(st, s), event);
      HonestAppend(StartOf(st, s), LogOf(st, s), event);
    } else {
      AccessLeavesOthers(st, h, s);
    }
    MemoryAccessHandlers(st, h, s);
  }

  lemma MemoryAccessHandlers(st: State, h: nat, s: Subject)
    requires MemoryOk(st, s) && Enabled(st, Access(h))
    ensures var st' := DoAccess(st, h);
            forall k :: InFlight(st', k) && st'.handlers[k].call.subject == s ==> MemoryHandlerOk(st', st'.handlers[k])
  {
    var st' := DoAccess(st, h);
    forall k | InFlight(st', k) && st'.handlers[k].call.subject == s ensures MemoryHandlerOk(st', st'.handlers[k]) {
      assert InFlight(st, k) && MemoryHandlerOk(st, st.handlers[k]);
    }
  }

  lemma {:induction false} RunMemory(states: seq<State>, actions: seq<Action>, k: nat, s: Subject)
    requires Run(states, actions) && k < |states| && Undeleted(actions, k, s)
    ensures MemoryOk(states[k], s)
  {
    if k > 0 {
      RunMemory(states, actions, k - 1, s);
      assert Enabled(states[k - 1], actions[k - 1]) && states[k - 1 + 1] == Step(states[k - 1], actions[k - 1]);
      assert !Deletes(actions[k - 1], s);
      MemoryStep(states[k - 1], actions[k - 1], s);
    }
  }

  /** The store's guarantees cover exactly the subjects that were loaded as stored and that nobody has asked to delete.
      */
  lemma {:induction false} CoveredIff(states: seq<State>, actions: seq<Action>, k: nat, s: Subject)
    requires Run(states, actions) && k < |states|
    ensures s !in states[k].excluded <==> InSync(states[0], s) && Undeleted(actions, k, s)
  {
    if k == 0 {
      MisloadedIff(states[0], s);
    } else {
      CoveredIff(states, actions, k - 1, s);
      UndeletedStep(actions, k - 1, s);
      assert Enabled(states[k - 1], actions[k - 1]) && states[k - 1 + 1] == Step(states[k - 1], actions[k - 1]);
      ExcludedStep(states[k - 1], actions[k - 1], s);
    }
  }

  lemma MisloadedIff(st: State, s: Subject)
    ensures s in Misloaded(st) <==> !InSync(st, s)
  {
  }

  lemma UndeletedStep(actions: seq<Action>, k: nat, s: Subject)
    requires k < |actions|
    ensures Undeleted(actions, k + 1, s) <==> Undeleted(actions, k, s) && !Deletes(actions[k], s)
  {
  }

  lemma ExcludedStep(st: State, a: Action, s: Subject)
    requires Enabled(st, a)
    ensures s in Step(st, a).excluded <==> s in st.excluded || Deletes(a, s)
  {
  }
}
