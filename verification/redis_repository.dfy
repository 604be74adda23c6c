/** The quota service's Redis layout: one hash per subject and family, under a prefixed key. */
module RedisLayout {
  import opened Options
  import opened QuotaDomain
  import opened CacheTables

  /** The usage hashes and the limit hashes. */
  datatype Family = Usage | Limits

  /** The three numbers of a hash, in the order bytes, objects, buckets. */
  datatype Record = Record(bytes: int, objects: int, buckets: int)

  type Hash = map<string, int>
  type Hashes = map<string, Hash>

  function Prefix(family: Family): (p: string)
    ensures |p| == 12
  {
    match family
    case Usage => "quota:usage:"
    case Limits => "quota:limit:"
  }

  function KeyOf(family: Family, subject: Subject): string {
    Prefix(family) + subject
  }

  /** Strips a prefix as often as it occurs. */
  function TrimStart(s: string, prefix: string): string
    requires prefix != ""
    decreases |s|
  {
    if prefix <= s then TrimStart(s[|prefix|..], prefix) else s
  }

  function SubjectOf(family: Family, key: string): Subject {
    TrimStart(key, Prefix(family))
  }

  lemma {:induction false} TrimStartEnds(s: string, prefix: string)
    requires prefix != ""
    ensures !(prefix <= TrimStart(s, prefix)) && |TrimStart(s, prefix)| <= |s|
    ensures prefix <= s ==> |TrimStart(s, prefix)| < |s|
    decreases |s|
  {
    if prefix <= s {
      TrimStartEnds(s[|prefix|..], prefix);
    }
  }

  /** A subject comes back from its key exactly when it does not itself start with the prefix. */
  lemma KeyRoundTripIff(family: Family, subject: Subject)
    ensures SubjectOf(family, KeyOf(family, subject)) == subject <==> !(Prefix(family) <= subject)
  {
    var p := Prefix(family);
    assert p <= p + subject && (p + subject)[|p|..] == subject;
    TrimStartEnds(subject, p);
  }

  /** On subjects without the prefix, different subjects have different keys, and their keys decode differently. */
  lemma KeysAreDistinct(family: Family, a: Subject, b: Subject)
    requires !(Prefix(family) <= a) && !(Prefix(family) <= b) && a != b
    ensures SubjectOf(family, KeyOf(family, a)) != SubjectOf(family, KeyOf(family, b))
  {
    KeyRoundTripIff(family, a);
    KeyRoundTripIff(family, b);
  }

  /** A prefixed subject and its stripped form share one decoded name, so one of the two entries is lost on load. */
  lemma PrefixedSubjectCollides(family: Family, subject: Subject)
    requires !(Prefix(family) <= subject)
    ensures var prefixed := KeyOf(family, subject);
            && prefixed != subject
            && SubjectOf(family, KeyOf(family, prefixed)) == SubjectOf(family, KeyOf(family, subject)) == subject
  {
    var p := Prefix(family);
    var prefixed := p + subject;
    KeyRoundTripIff(family, subject);
    assert (p + prefixed)[|p|..] == prefixed;
    assert |prefixed| > |subject|;
  }

  function Fields(family: Family): (string, string, string) {
    match family
    case Usage => ("bytes", "objects", "buckets")
    case Limits => ("bytes_limit", "objects_limit", "buckets_limit")
  }

  /** What a missing field stands for: no usage, or no limit. */
  function Missing(family: Family): int {
    match family
    case Usage => 0
    case Limits => UNLIMITED
  }

  function FieldOr(hash: Hash, field: string, default: int): int {
    if field in hash then hash[field] else default
  }

  /** A key without a hash, or with none of the three fields, has no record. */
  function Read(hashes: Hashes, family: Family, key: string): Option<Record> {
    var (b, o, k) := Fields(family);
    if key !in hashes || (b !in hashes[key] && o !in hashes[key] && k !in hashes[key]) then None
    else
      var hash, missing := hashes[key], Missing(family);
      Some(Record(FieldOr(hash, b, missing), FieldOr(hash, o, missing), FieldOr(hash, k, missing)))
  }

  /** Sets the three fields of a subject's hash, leaving any other field of it alone. */
  function Put(hashes: Hashes, family: Family, subject: Subject, record: Record): Hashes {
    var key, (b, o, k) := KeyOf(family, subject), Fields(family);
    var hash := if key in hashes then hashes[key] else map[];
    hashes[key := hash[b := record.bytes][o := record.objects][k := record.buckets]]
  }

  /** The hashes of a family hold exactly the given table. */
  ghost predicate Encodes(hashes: Hashes, family: Family, table: map<Subject, Record>) {
    forall s: Subject :: Read(hashes, family, KeyOf(family, s)) == if s in table then Some(table[s]) else None
  }

  lemma KeysDiffer(family: Family, a: Subject, other: Family, b: Subject)
    ensures KeyOf(family, a) == KeyOf(other, b) ==> family == other && a == b
  {
    var x, y := KeyOf(family, a), KeyOf(other, b);
    if x == y {
      assert x[6] == Prefix(family)[6] && y[6] == Prefix(other)[6];
      assert a == x[12..] && b == y[12..];
    }
  }

  /** What has been put is read back, and nothing else changes, in either family. */
  lemma ReadAfterPut(hashes: Hashes, family: Family, subject: Subject, record: Record, other: Family, s: Subject)
    ensures Read(Put(hashes, family, subject, record), other, KeyOf(other, s))
            == if other == family && s == subject then Some(record) else Read(hashes, other, KeyOf(other, s))
  {
    KeysDiffer(family, subject, other, s);
    FieldsDiffer(family);
  }

  lemma FieldsDiffer(family: Family)
    ensures Fields(family).0 != Fields(family).1 && Fields(family).1 != Fields(family).2
      && Fields(family).0 != Fields(family).2
  {
    assert "bytes"[1] == 'y' && "objects"[1] == 'b' && "buckets"[1] == 'u';
    assert "bytes_limit"[1] == 'y' && "objects_limit"[1] == 'b' && "buckets_limit"[1] == 'u';
  }

  lemma PutEncodes(hashes: Hashes, family: Family, subject: Subject, record: Record, table: map<Subject, Record>)
    requires Encodes(hashes, family, table)
    ensures Encodes(Put(hashes, family, subject, record), family, table[subject := record])
  {
    forall s: Subject
      ensures var table' := table[subject := record];
              Read(Put(hashes, family, subject, record), family, KeyOf(family, s))
              == if s in table' then Some(table'[s]) else None
    {
      ReadAfterPut(hashes, family, subject, record, family, s);
    }
  }

  lemma PutLeavesOtherFamily(hashes: Hashes, family: Family, subject: Subject, record: Record, other: Family,
                             table: map<Subject, Record>)
    requires other != family && Encodes(hashes, other, table)
    ensures Encodes(Put(hashes, family, subject, record), other, table)
  {
    forall s: Subject
      ensures Read(Put(hashes, family, subject, record), other, KeyOf(other, s)) == if s in table then Some(table[s]) else None
    {
      ReadAfterPut(hashes, family, subject, record, other, s);
    }
  }

  function PutAll(hashes: Hashes, family: Family, rows: seq<(Subject, Record)>): Hashes {
    if rows == [] then hashes
    else Put(PutAll(hashes, family, rows[..|rows| - 1]), family, rows[|rows| - 1].0, rows[|rows| - 1].1)
  }

  /** Writing rows to the hashes is inserting them into the table the hashes hold; the other family is untouched. */
  lemma {:induction false} PutAllEncodes(hashes: Hashes, family: Family, rows: seq<(Subject, Record)>,
                                         table: map<Subject, Record>, other: Family, otherTable: map<Subject, Record>)
    requires Encodes(hashes, family, table) && other != family && Encodes(hashes, other, otherTable)
    ensures Encodes(PutAll(hashes, family, rows), family, InsertAll(table, rows))
    ensures Encodes(PutAll(hashes, family, rows), other, otherTable)
  {
    if rows != [] {
      var front, last := rows[..|rows| - 1], rows[|rows| - 1];
      PutAllEncodes(hashes, family, front, table, other, otherTable);
      PutEncodes(PutAll(hashes, family, front), family, last.0, last.1, InsertAll(table, front));
      PutLeavesOtherFamily(PutAll(hashes, family, front), family, last.0, last.1, other, otherTable);
    }
  }

  /** Removes both hashes of a subject. */
  function Drop(hashes: Hashes, subject: Subject): Hashes {
    hashes - {KeyOf(Usage, subject), KeyOf(Limits, subject)}
  }

  /** Removing a subject takes exactly its record out of the stored table, in either family. */
  lemma DropEncodes(hashes: Hashes, family: Family, subject: Subject, table: map<Subject, Record>)
    requires Encodes(hashes, family, table)
    ensures Encodes(Drop(hashes, subject), family, table - {subject})
  {
    forall s: Subject
      ensures Read(Drop(hashes, subject), family, KeyOf(family, s))
              == if s in table - {subject} then Some((table - {subject})[s]) else None
    {
      KeysDiffer(family, s, Usage, subject);
      KeysDiffer(family, s, Limits, subject);
      assert Read(hashes, family, KeyOf(family, s)) == if s in table then Some(table[s]) else None;
    }
  }

  // ----- loading -----

  /** The rows that a load makes of the scanned keys; a key whose read fails is skipped. */
  function LoadedRows(hashes: Hashes, family: Family, keys: seq<string>, failed: set<nat>): seq<(Subject, Record)> {
    if keys == [] then []
    else
      var n := |keys| - 1;
      var rows := LoadedRows(hashes, family, keys[..n], failed);
      var record := Read(hashes, family, keys[n]);
      if n !in failed && record.Some? then rows + [(SubjectOf(family, keys[n]), record.value)] else rows
  }

  /** A scan may give its keys in any order, more than once, and with keys that have gone meanwhile; all of them carry
      the prefix. */
  ghost predicate Scan(family: Family, keys: seq<string>) {
    forall k :: 0 <= k < |keys| ==> Prefix(family) <= keys[k]
  }

  /** The key of the subject is scanned, and read without failure. */
  ghost predicate ReadFrom(family: Family, keys: seq<string>, failed: set<nat>, s: Subject) {
    exists k :: 0 <= k < |keys| && keys[k] == KeyOf(family, s) && k !in failed
  }

  /** Where a loaded row comes from. */
  lemma {:induction false} RowOrigin(hashes: Hashes, family: Family, keys: seq<string>, failed: set<nat>,
                                     j: nat) returns (k: nat)
    requires j < |LoadedRows(hashes, family, keys, failed)|
    ensures k < |keys| && k !in failed
    ensures LoadedRows(hashes, family, keys, failed)[j].0 == SubjectOf(family, keys[k])
    ensures Read(hashes, family, keys[k]) == Some(LoadedRows(hashes, family, keys, failed)[j].1)
  {
    var n := |keys| - 1;
    if j < |LoadedRows(hashes, family, keys[..n], failed)| {
      k := RowOrigin(hashes, family, keys[..n], failed, j);
    } else {
      k := n;
    }
  }

  /** Every record that is read becomes a row. */
  lemma {:induction false} RowOfKey(hashes: Hashes, family: Family, keys: seq<string>, failed: set<nat>, k: nat)
    requires k < |keys| && k !in failed && Read(hashes, family, keys[k]).Some?
    ensures (SubjectOf(family, keys[k]), Read(hashes, family, keys[k]).value) in LoadedRows(hashes, family, keys, failed)
  {
    var n := |keys| - 1;
    if k < n {
      RowOfKey(hashes, family, keys[..n], failed, k);
    }
  }

  lemma {:induction false} InsertAllKeys<V>(rows: seq<(Subject, V)>, s: Subject)
    ensures s in InsertAll(map[], rows) <==> exists k :: 0 <= k < |rows| && rows[k].0 == s
  {
    if rows != [] {
      InsertAllKeys(rows[..|rows| - 1], s);
    }
  }

  /** A load rebuilds the stored table exactly when no stored subject starts with the prefix and every stored subject
      was
      scanned and read at least once; order and repetition do not matter. */
  lemma LoadRebuildsIff(hashes: Hashes, family: Family, keys: seq<string>, failed: set<nat>,
                        table: map<Subject, Record>)
    requires Encodes(hashes, family, table) && Scan(family, keys)
    ensures InsertAll(map[], LoadedRows(hashes, family, keys, failed)) == table
            <==> forall s :: s in table ==> !(Prefix(family) <= s) && ReadFrom(family, keys, failed, s)
  {
    var rows := LoadedRows(hashes, family, keys, failed);
    if forall s :: s in table ==> !(Prefix(family) <= s) && ReadFrom(family, keys, failed, s) {
      LoadRebuilds(hashes, family, keys, failed, table);
    } else if InsertAll(map[], rows) == table {
      forall s | s in table ensures !(Prefix(family) <= s) {
        var _ := LoadedSubject(hashes, family, keys, failed, s);
      }
      forall s | s in table ensures ReadFrom(family, keys, failed, s) {
        var k := LoadedSubject(hashes, family, keys, failed, s);
        var t := keys[k][|Prefix(family)|..];
        assert keys[k] == KeyOf(family, t);
        assert t in table;
        KeyRoundTripIff(family, t);
      }
    }
  }

  lemma {:induction false} InsertAllValue<V>(rows: seq<(Subject, V)>, s: Subject, value: V)
    requires forall k :: 0 <= k < |rows| && rows[k].0 == s ==> rows[k].1 == value
    ensures s in InsertAll(map[], rows) ==> InsertAll(map[], rows)[s] == value
  {
    if rows != [] {
      InsertAllValue(rows[..|rows| - 1], s, value);
    }
  }

  /** No other stored subject has a key that decodes to this one. */
  ghost predicate NoTwin(family: Family, table: map<Subject, Record>, s: Subject) {
    forall t :: t in table && SubjectOf(family, KeyOf(family, t)) == s ==> t == s
  }

  /** One subject's part in a load: it gets its stored record exactly when it has one, does not start with the prefix
      and was scanned and read, whatever became of the other subjects; otherwise it gets none. */
  lemma LoadedIff(hashes: Hashes, family: Family, keys: seq<string>, failed: set<nat>, table: map<Subject, Record>,
                  s: Subject)
    requires Encodes(hashes, family, table) && Scan(family, keys) && NoTwin(family, table, s)
    ensures var loaded := InsertAll(map[], LoadedRows(hashes, family, keys, failed));
            && (s in loaded <==> s in table && !(Prefix(family) <= s) && ReadFrom(family, keys, failed, s))
            && (s in loaded ==> loaded[s] == table[s])
  {
    var rows := LoadedRows(hashes, family, keys, failed);
    InsertAllKeys(rows, s);
    forall j | 0 <= j < |rows| && rows[j].0 == s
      ensures s in table && rows[j].1 == table[s] && !(Prefix(family) <= s) && ReadFrom(family, keys, failed, s)
    {
      var k := RowOrigin(hashes, family, keys, failed, j);
      var t := keys[k][|Prefix(family)|..];
      assert keys[k] == KeyOf(family, t);
      assert t in table;
      KeyRoundTripIff(family, s);
    }
    if s in table {
      InsertAllValue(rows, s, table[s]);
      if !(Prefix(family) <= s) && ReadFrom(family, keys, failed, s) {
        var k :| 0 <= k < |keys| && keys[k] == KeyOf(family, s) && k !in failed;
        KeyRoundTripIff(family, s);
        RowOfKey(hashes, family, keys, failed, k);
      }
    }
  }

  lemma LoadStep(hashes: Hashes, family: Family, keys: seq<string>, failed: set<nat>)
    requires keys != []
    ensures var n := |keys| - 1;
            var before := InsertAll(map[], LoadedRows(hashes, family, keys[..n], failed));
            var record := Read(hashes, family, keys[n]);
            InsertAll(map[], LoadedRows(hashes, family, keys, failed))
            == if n !in failed && record.Some? then before[SubjectOf(family, keys[n]) := record.value] else before
  {
    var n := |keys| - 1;
    var rows, record := LoadedRows(hashes, family, keys[..n], failed), Read(hashes, family, keys[n]);
    if n !in failed && record.Some? {
      var more := rows + [(SubjectOf(family, keys[n]), record.value)];
      assert more[..|more| - 1] == rows;
    }
  }

  /** Among stored subjects that decode to the same name, the one that is read last wins. */
  lemma {:induction false} LastReadWins(hashes: Hashes, family: Family, keys: seq<string>, failed: set<nat>, k: nat)
    requires k < |keys| && k !in failed && Read(hashes, family, keys[k]).Some?
    requires forall m :: k < m < |keys| && SubjectOf(family, keys[m]) == SubjectOf(family, keys[k]) ==>
      m in failed || Read(hashes, family, keys[m]).None?
    ensures var loaded, s := InsertAll(map[], LoadedRows(hashes, family, keys, failed)), SubjectOf(family, keys[k]);
            s in loaded && loaded[s] == Read(hashes, family, keys[k]).value
    decreases |keys|
  {
    LoadStep(hashes, family, keys, failed);
    var n := |keys| - 1;
    if k < n {
      LastReadWins(hashes, family, keys[..n], failed, k);
    }
  }

  /** A subject that a load produces was read from a key that decodes to it, and does not start with the prefix. */
  lemma LoadedSubject(hashes: Hashes, family: Family, keys: seq<string>, failed: set<nat>, s: Subject) returns (k: nat)
    requires s in InsertAll(map[], LoadedRows(hashes, family, keys, failed))
    ensures !(Prefix(family) <= s)
    ensures k < |keys| && k !in failed && SubjectOf(family, keys[k]) == s && Read(hashes, family, keys[k]).Some?
  {
    var rows := LoadedRows(hashes, family, keys, failed);
    InsertAllKeys(rows, s);
    var j :| 0 <= j < |rows| && rows[j].0 == s;
    k := RowOrigin(hashes, family, keys, failed, j);
    TrimStartEnds(keys[k], Prefix(family));
  }

  lemma LoadRebuilds(hashes: Hashes, family: Family, keys: seq<string>, failed: set<nat>, table: map<Subject, Record>)
    requires Encodes(hashes, family, table) && Scan(family, keys)
    requires forall s :: s in table ==> !(Prefix(family) <= s) && ReadFrom(family, keys, failed, s)
    ensures InsertAll(map[], LoadedRows(hashes, family, keys, failed)) == table
  {
    var rows := LoadedRows(hashes, family, keys, failed);
    forall j | 0 <= j < |rows| ensures rows[j].0 in table && table[rows[j].0] == rows[j].1 {
      var k := RowOrigin(hashes, family, keys, failed, j);
      var s := keys[k][|Prefix(family)|..];
      assert keys[k] == KeyOf(family, s);
      assert s in table;
      KeyRoundTripIff(family, s);
    }
    forall s | s in table ensures exists j :: 0 <= j < |rows| && rows[j].0 == s {
      var k :| 0 <= k < |keys| && keys[k] == KeyOf(family, s) && k !in failed;
      KeyRoundTripIff(family, s);
      RowOfKey(hashes, family, keys, failed, k);
      assert (s, table[s]) in rows;
    }
    InsertAllRebuilds(rows, table);
  }
}

/** The repository's batch operations and the service's start-up load. */
module RedisRepositories {
  import opened Options
  import opened QuotaDomain
  import opened CacheTables
  import opened MemoryCaches
  import opened RedisLayout

  function UsageRecord(usage: UsageEntry): Record {
    Record(usage.bytes, usage.objects, usage.buckets)
  }

  function RecordUsage(record: Record): UsageEntry {
    UsageEntry(record.bytes, record.objects, record.buckets)
  }

  function LimitRecord(quota: QuotaEntry): Record {
    Record(quota.bytesLimit, quota.objectsLimit, quota.bucketsLimit)
  }

  function RecordLimit(record: Record): QuotaEntry {
    QuotaEntry(record.bytes, record.objects, record.buckets)
  }

  function UsageRows(rows: seq<(Subject, Record)>): seq<(Subject, UsageEntry)> {
    seq(|rows|, i requires 0 <= i < |rows| => (rows[i].0, RecordUsage(rows[i].1)))
  }

  function LimitRows(rows: seq<(Subject, Record)>): seq<(Subject, QuotaEntry)> {
    seq(|rows|, i requires 0 <= i < |rows| => (rows[i].0, RecordLimit(rows[i].1)))
  }

  // ----- the layout, literally -----

  /** A usage hash has the fields bytes, objects and buckets; one that is missing counts as zero, and a hash with none of
      them as no entry. */
  lemma UsageHash(hashes: Hashes, s: Subject)
    requires "quota:usage:" + s in hashes
    ensures var hash := hashes["quota:usage:" + s];
            var read := Read(hashes, Usage, KeyOf(Usage, s));
            if "bytes" !in hash && "objects" !in hash && "buckets" !in hash then read == None
            else
              && read.Some?
              && RecordUsage(read.value) == UsageEntry(
                   if "bytes" in hash then hash["bytes"] else 0,
                   if "objects" in hash then hash["objects"] else 0,
                   if "buckets" in hash then hash["buckets"] else 0)
  {
  }

  /** A limit hash has the fields bytes_limit, objects_limit and buckets_limit; one that is missing counts as no limit. */
  lemma LimitHash(hashes: Hashes, s: Subject)
    requires "quota:limit:" + s in hashes
    ensures var hash := hashes["quota:limit:" + s];
            var read := Read(hashes, Limits, KeyOf(Limits, s));
            if "bytes_limit" !in hash && "objects_limit" !in hash && "buckets_limit" !in hash then read == None
            else
              && read.Some?
              && RecordLimit(read.value) == QuotaEntry(
                   if "bytes_limit" in hash then hash["bytes_limit"] else -1,
                   if "objects_limit" in hash then hash["objects_limit"] else -1,
                   if "buckets_limit" in hash then hash["buckets_limit"] else -1)
  {
  }

  ghost predicate OnlyChanged(before: Hashes, after: Hashes, changed: string) {
    forall key :: key != changed ==>
      (key in after <==> key in before) && (key in after ==> after[key] == before[key])
  }

  /** What is written for a usage, field by field. */
  lemma UsageWritten(hashes: Hashes, s: Subject, usage: UsageEntry)
    ensures var after := Put(hashes, Usage, s, UsageRecord(usage));
            && "quota:usage:" + s in after
            && var hash := after["quota:usage:" + s];
               && "bytes" in hash && hash["bytes"] == usage.bytes
               && "objects" in hash && hash["objects"] == usage.objects
               && "buckets" in hash && hash["buckets"] == usage.buckets
    ensures OnlyChanged(hashes, Put(hashes, Usage, s, UsageRecord(usage)), "quota:usage:" + s)
  {
    FieldsDiffer(Usage);
  }

  lemma LimitWritten(hashes: Hashes, s: Subject, quota: QuotaEntry)
    ensures var after := Put(hashes, Limits, s, LimitRecord(quota));
            && "quota:limit:" + s in after
            && var hash := after["quota:limit:" + s];
               && "bytes_limit" in hash && hash["bytes_limit"] == quota.bytesLimit
               && "objects_limit" in hash && hash["objects_limit"] == quota.objectsLimit
               && "buckets_limit" in hash && hash["buckets_limit"] == quota.bucketsLimit
    ensures OnlyChanged(hashes, Put(hashes, Limits, s, LimitRecord(quota)), "quota:limit:" + s)
  {
    FieldsDiffer(Limits);
  }

  class RedisRepository {
    var hashes: Hashes

    constructor (hashes: Hashes)
      ensures this.hashes == hashes
    {
      this.hashes := hashes;
    }

    /** Writes row after row and stops at the first failure: the write at position `failing`, which may or may not have
        reached Redis. A batch shorter than that succeeds. */
    method Flush(family: Family, rows: seq<(Subject, Record)>, failing: nat, reached: bool) returns (ok: bool)
      modifies this
      ensures ok <==> |rows| <= failing
      ensures var written := if ok then |rows| else if reached then failing + 1 else failing;
              hashes == PutAll(old(hashes), family, rows[..written])
    {
      for i := 0 to |rows|
        invariant i <= failing
        invariant hashes == PutAll(old(hashes), family, rows[..i])
      {
        assert rows[..i + 1][..i] == rows[..i];
        if i == failing {
          if reached {
            hashes := Put(hashes, family, rows[i].0, rows[i].1);
          }
          return false;
        }
        hashes := Put(hashes, family, rows[i].0, rows[i].1);
      }
      return true;
    }

    /** Deletes a subject's two hashes with one command, which may fail with or without effect. */
    method DeleteSubject(subject: Subject, failing: bool, reached: bool) returns (ok: bool)
      modifies this
      ensures ok <==> !failing
      ensures hashes == if ok || reached then Drop(old(hashes), subject) else old(hashes)
    {
      if !failing || reached {
        hashes := hashes - {KeyOf(Usage, subject), KeyOf(Limits, subject)};
      }
      return !failing;
    }

    /** Reads every scanned key; one that has no record, or whose read fails, adds nothing. */
    method LoadAll(family: Family, keys: seq<string>, failed: set<nat>) returns (rows: seq<(Subject, Record)>)
      ensures rows == LoadedRows(hashes, family, keys, failed)
    {
      rows := [];
      for i := 0 to |keys|
        invariant rows == LoadedRows(hashes, family, keys[..i], failed)
      {
        assert keys[..i + 1][..i] == keys[..i];
        var record := Read(hashes, family, keys[i]);
        if i !in failed && record.Some? {
          rows := rows + [(SubjectOf(family, keys[i]), record.value)];
        }
      }
      assert keys[..|keys|] == keys;
    }
  }

  /** Start-up: both loads are done before the cache is filled, so a failed scan leaves it as it was. */
  method LoadFromStorage(repo: RedisRepository, cache: MemoryCache, usageScan: Option<seq<string>>,
                         failedUsage: set<nat>,
                         limitScan: Option<seq<string>>, failedLimits: set<nat>)
    returns (ok: bool)
    modifies cache
    ensures ok <==> usageScan.Some? && limitScan.Some?
    ensures !ok ==> cache.usage == old(cache.usage) && cache.limits == old(cache.limits)
    ensures ok ==>
      && cache.usage == InsertAll(old(cache.usage), UsageRows(LoadedRows(repo.hashes, Usage, usageScan.value, failedUsage)))
      && cache.limits == InsertAll(old(cache.limits), LimitRows(LoadedRows(repo.hashes, Limits, limitScan.value, failedLimits)))
    ensures cache.dirty == old(cache.dirty)
  {
    if usageScan.None? {
      return false;
    }
    var usage := repo.LoadAll(Usage, usageScan.value, failedUsage);
    if limitScan.None? {
      return false;
    }
    var limits := repo.LoadAll(Limits, limitScan.value, failedLimits);
    cache.LoadUsage(UsageRows(usage));
    cache.LoadLimits(LimitRows(limits));
    return true;
  }
}
