/** The two tables of the in-memory cache, and what one atomic access does to an entry. */
module CacheTables {
  import opened QuotaDomain

  type Subject = string
  type UsageTable = map<Subject, UsageEntry>
  type LimitTable = map<Subject, QuotaEntry>

  /** An unknown subject has used nothing. */
  function UsageOf(usage: UsageTable, subject: Subject): UsageEntry {
    if subject in usage then usage[subject] else NO_USAGE
  }

  function LimitOf(limits: LimitTable, subject: Subject, default: QuotaEntry): QuotaEntry {
    if subject in limits then limits[subject] else default
  }

  function Verdict(usage: UsageTable, subject: Subject, limit: QuotaEntry, delta: ResourceDelta): CheckResult {
    var refusal := WouldExceed(UsageOf(usage, subject), limit, delta);
    if refusal.Some? then Denied(refusal.value) else Allowed
  }

  /** A delta is allowed exactly if it fits in every dimension, and a refusal is explained by the first in which it does
      not. */
  ghost predicate RightVerdict(result: CheckResult, used: UsageEntry, limit: QuotaEntry, delta: ResourceDelta) {
    && (result.Allowed? <==> forall dim: Dimension :: Fits(used, limit, delta, dim))
    && (result.Denied? ==> Explains(result.reason, used, limit, delta, false))
  }

  /** The limit set for the subject, or the default if there is none, decides alone. */
  lemma VerdictIff(usage: UsageTable, limits: LimitTable, subject: Subject, default: QuotaEntry, delta: ResourceDelta)
    ensures var limit := if subject in limits then limits[subject] else default;
            var verdict := Verdict(usage, subject, LimitOf(limits, subject, default), delta);
            RightVerdict(verdict, UsageOf(usage, subject), limit, delta)
  {
    AdmittedIffFits(UsageOf(usage, subject), LimitOf(limits, subject, default), delta);
    RefusalIsExplained(UsageOf(usage, subject), LimitOf(limits, subject, default), delta);
  }

  function Applied(usage: UsageTable, subject: Subject, delta: ResourceDelta): UsageTable {
    usage[subject := UsageOf(usage, subject).Apply(delta)]
  }

  /** A granted reservation is applied; a refused one leaves the usage as it was, but may add a zero entry. */
  function Reserved(usage: UsageTable, subject: Subject, limit: QuotaEntry, delta: ResourceDelta): UsageTable {
    if Verdict(usage, subject, limit, delta).Allowed? then Applied(usage, subject, delta)
    else usage[subject := UsageOf(usage, subject)]
  }

  /** A table after a list of insertions, the later ones winning. */
  function InsertAll<V>(table: map<Subject, V>, rows: seq<(Subject, V)>): map<Subject, V> {
    if rows == [] then table
    else InsertAll(table, rows[..|rows| - 1])[rows[|rows| - 1].0 := rows[|rows| - 1].1]
  }

  /** If every row carries the value a table gives its subject, and every subject has a row, then inserting the rows
      into an empty table rebuilds the table, in whatever order and however often the rows come. */
  lemma {:induction false} InsertAllRebuilds<V>(rows: seq<(Subject, V)>, table: map<Subject, V>)
    requires forall k :: 0 <= k < |rows| ==> rows[k].0 in table && table[rows[k].0] == rows[k].1
    requires forall s :: s in table ==> exists k :: 0 <= k < |rows| && rows[k].0 == s
    ensures InsertAll(map[], rows) == table
  {
    InsertAllCovers(map[], rows, table);
  }

  lemma {:induction false} InsertAllCovers<V>(base: map<Subject, V>, rows: seq<(Subject, V)>, table: map<Subject, V>)
    requires forall k :: 0 <= k < |rows| ==> rows[k].0 in table && table[rows[k].0] == rows[k].1
    ensures var result := InsertAll(base, rows);
            && (forall k :: 0 <= k < |rows| ==> rows[k].0 in result && result[rows[k].0] == table[rows[k].0])
            && (forall s :: s in result ==>
                  (exists k :: 0 <= k < |rows| && rows[k].0 == s && result[s] == table[s])
                    || (s in base && result[s] == base[s]))
  {
    if rows != [] {
      InsertAllCovers(base, rows[..|rows| - 1], table);
    }
  }

  /** Undoing a granted delta by its negation restores the usage exactly when applying it clamped nothing. */
  lemma RollbackExactIff(usage: UsageEntry, delta: ResourceDelta)
    requires usage.NonNegative()
    ensures usage.Apply(delta).Apply(delta.Negate()) == usage <==>
            forall dim: Dimension :: usage.In(dim) + delta.In(dim) >= 0
  {
    var undone := usage.Apply(delta).Apply(delta.Negate());
    forall dim: Dimension
      ensures undone.In(dim) == usage.In(dim) <==> usage.In(dim) + delta.In(dim) >= 0
    {
      assert usage.In(dim) >= 0 && delta.Negate().In(dim) == -delta.In(dim);
    }
    if forall dim: Dimension :: usage.In(dim) + delta.In(dim) >= 0 {
      assert forall dim: Dimension :: undone.In(dim) == usage.In(dim);
      SameUsage(undone, usage);
    } else {
      var dim: Dimension :| usage.In(dim) + delta.In(dim) < 0;
      assert undone.In(dim) != usage.In(dim);
    }
  }
}

/** The in-memory quota cache and the reserve-and-roll-back check built on it, one call at a time. */
module MemoryCaches {
  import opened Options
  import opened QuotaDomain
  import opened CacheTables

  class MemoryCache {
    var usage: UsageTable
    var limits: LimitTable
    var dirty: set<Subject>

    constructor ()
      ensures usage == map[] && limits == map[] && dirty == {}
    {
      usage, limits, dirty := map[], map[], {};
    }

    method LoadUsage(entries: seq<(Subject, UsageEntry)>)
      modifies this`usage
      ensures usage == InsertAll(old(usage), entries)
    {
      for i := 0 to |entries|
        invariant usage == InsertAll(old(usage), entries[..i])
      {
        usage := usage[entries[i].0 := entries[i].1];
        assert entries[..i + 1][..i] == entries[..i];
      }
      assert entries[..|entries|] == entries;
    }

    method LoadLimits(entries: seq<(Subject, QuotaEntry)>)
      modifies this`limits
      ensures limits == InsertAll(old(limits), entries)
    {
      for i := 0 to |entries|
        invariant limits == InsertAll(old(limits), entries[..i])
      {
        limits := limits[entries[i].0 := entries[i].1];
        assert entries[..i + 1][..i] == entries[..i];
      }
      assert entries[..|entries|] == entries;
    }

    /** Reserves `delta` if it fits the subject's limit; only a granted reservation changes what is used and marks
        the subject for persistence. */
    method CheckAndReserve(subject: Subject, delta: ResourceDelta,
                           defaultLimit: QuotaEntry) returns (result: CheckResult)
      modifies this`usage, this`dirty
      ensures result == Verdict(old(usage), subject, LimitOf(limits, subject, defaultLimit), delta)
      ensures usage == Reserved(old(usage), subject, LimitOf(limits, subject, defaultLimit), delta)
      ensures dirty == if result.Allowed? then old(dirty) + {subject} else old(dirty)
      ensures result.Denied? ==> forall s :: UsageOf(usage, s) == UsageOf(old(usage), s)
      ensures var q := if subject in limits then limits[subject] else defaultLimit;
              RightVerdict(result, UsageOf(old(usage), subject), q, delta)
    {
      VerdictIff(usage, limits, subject, defaultLimit, delta);
      var limit := if subject in limits then limits[subject] else defaultLimit;
      var denied: Option<DenyReason> := None;
      if subject in usage {
        var refusal := WouldExceed(usage[subject], limit, delta);
        if refusal.Some? {
          denied := refusal;
        } else {
          usage := usage[subject := usage[subject].Apply(delta)];
        }
      } else {
        var candidate := FromDelta(delta);
        var refusal := WouldExceed(NO_USAGE, limit, delta);
        if refusal.Some? {
          denied := refusal;
          usage := usage[subject := NO_USAGE];
        } else {
          usage := usage[subject := candidate];
        }
      }
      result := if denied.Some? then Denied(denied.value) else Allowed;
      if result == Allowed {
        dirty := dirty + {subject};
      }
    }

    method Update(subject: Subject, delta: ResourceDelta)
      modifies this`usage, this`dirty
      ensures usage == Applied(old(usage), subject, delta)
      ensures dirty == old(dirty) + {subject}
    {
      if subject in usage {
        usage := usage[subject := usage[subject].Apply(delta)];
      } else {
        usage := usage[subject := FromDelta(delta)];
      }
      dirty := dirty + {subject};
    }

    method SetLimit(subject: Subject, quota: QuotaEntry)
      modifies this`limits
      ensures limits == old(limits)[subject := quota]
    {
      limits := limits[subject := quota];
    }

    method DeleteSubject(subject: Subject)
      modifies this
      ensures usage == old(usage) - {subject} && limits == old(limits) - {subject} && dirty == old(dirty) - {subject}
    {
      usage := usage - {subject};
      limits := limits - {subject};
      dirty := dirty - {subject};
    }

    method MarkDirty(subjects: seq<Subject>)
      modifies this`dirty
      ensures dirty == old(dirty) + set s | s in subjects
    {
      for i := 0 to |subjects|
        invariant dirty == old(dirty) + set s | s in subjects[..i]
      {
        dirty := dirty + {subjects[i]};
        assert subjects[..i + 1] == subjects[..i] + [subjects[i]];
      }
      assert subjects[..|subjects|] == subjects;
    }

    /** The marked subjects, each once, in any order. */
    method CollectDirty() returns (keys: seq<Subject>)
      ensures forall s :: s in keys <==> s in dirty
      ensures forall i, j :: 0 <= i < j < |keys| ==> keys[i] != keys[j]
    {
      keys := [];
      var unseen := dirty;
      while unseen != {}
        invariant unseen <= dirty
        invariant forall s :: s in keys <==> s in dirty && s !in unseen
        invariant forall i, j :: 0 <= i < j < |keys| ==> keys[i] != keys[j]
      {
        var key :| key in unseen;
        keys, unseen := keys + [key], unseen - {key};
      }
    }

    method Unmark(keys: seq<Subject>)
      modifies this`dirty
      ensures forall s :: s in dirty <==> s in old(dirty) && s !in keys
    {
      for i := 0 to |keys|
        invariant forall s :: s in dirty <==> s in old(dirty) && s !in keys[..i]
      {
        dirty := dirty - {keys[i]};
        assert keys[..i + 1] == keys[..i] + [keys[i]];
      }
      assert keys[..|keys|] == keys;
    }

    /** The current usage of every key that has an entry. */
    method ReadRows(keys: seq<Subject>) returns (rows: seq<(Subject, UsageEntry)>)
      requires forall i, j :: 0 <= i < j < |keys| ==> keys[i] != keys[j]
      ensures forall i, j :: 0 <= i < j < |rows| ==> rows[i].0 != rows[j].0
      ensures forall k :: 0 <= k < |rows| ==> rows[k].0 in keys && rows[k].0 in usage && rows[k].1 == usage[rows[k].0]
      ensures forall s :: s in keys && s in usage ==> (s, usage[s]) in rows
    {
      rows := [];
      for i := 0 to |keys|
        invariant forall k :: 0 <= k < |rows| ==>
          rows[k].0 in keys[..i] && rows[k].0 in usage && rows[k].1 == usage[rows[k].0]
        invariant forall s :: s in keys[..i] && s in usage ==> (s, usage[s]) in rows
        invariant forall a, b :: 0 <= a < b < |rows| ==> rows[a].0 != rows[b].0
      {
        assert keys[..i + 1] == keys[..i] + [keys[i]] && keys[i] !in keys[..i];
        if keys[i] in usage {
          rows := rows + [(keys[i], usage[keys[i]])];
        }
      }
      assert keys[..|keys|] == keys;
    }

    /** Drains the marks into the current usage of every marked subject that has an entry, each subject once. */
    method SnapshotDirty() returns (rows: seq<(Subject, UsageEntry)>)
      modifies this`dirty
      ensures dirty == {}
      ensures forall i, j :: 0 <= i < j < |rows| ==> rows[i].0 != rows[j].0
      ensures forall k :: 0 <= k < |rows| ==>
        rows[k].0 in old(dirty) && rows[k].0 in usage && rows[k].1 == usage[rows[k].0]
      ensures forall s :: s in old(dirty) && s in usage ==> (s, usage[s]) in rows
    {
      var keys := CollectDirty();
      Unmark(keys);
      rows := ReadRows(keys);
    }
  }

  datatype QuotaError = InvalidArgument

  datatype Outcome<+T> = Ok(value: T) | Err(error: QuotaError)

  /** A refusal by the bucket's byte limit is reported as the bucket's, not the user's. */
  function BucketReason(reason: DenyReason): DenyReason {
    match reason
    case UserStorageExceeded(used, limit) => BucketStorageExceeded(used, limit)
    case _ => reason
  }

  lemma BucketReasonExplains(reason: DenyReason, current: UsageEntry, limit: QuotaEntry, delta: ResourceDelta)
    requires Explains(reason, current, limit, delta, false)
    ensures Explains(BucketReason(reason), current, limit, delta, true)
  {
  }

  /** What a check answers: the user's verdict, or else the bucket's, which is reached with the delta already held. */
  function CheckVerdict(usage: UsageTable, limits: LimitTable, userDefault: QuotaEntry, bucketDefault: QuotaEntry,
                        subject: Subject, bucket: Option<Subject>, delta: ResourceDelta): CheckResult {
    var user := Verdict(usage, subject, LimitOf(limits, subject, userDefault), delta);
    if user.Denied? || bucket.None? || bucket.value == "" then user
    else
      var held := Applied(usage, subject, delta);
      var second := Verdict(held, bucket.value, LimitOf(limits, bucket.value, bucketDefault), delta);
      if second.Denied? then Denied(BucketReason(second.reason)) else Allowed
  }

  /** The user's own limit, or else the default, refuses the delta. */
  ghost predicate UserRefuses(usage: UsageTable, limits: LimitTable, userDefault: QuotaEntry, subject: Subject,
                              delta: ResourceDelta) {
    var limit := if subject in limits then limits[subject] else userDefault;
    exists dim: Dimension :: !Fits(UsageOf(usage, subject), limit, delta, dim)
  }

  /** What a check does to the usage of every subject: a granted delta is added to the user and to the bucket, if one is
      named. A refusal by the user changes nothing, one by the bucket only what adding and taking back may change. */
  ghost predicate CheckEffect(before: UsageTable, after: UsageTable, limits: LimitTable, userDefault: QuotaEntry,
                              subject: Subject, bucket: Option<Subject>, delta: ResourceDelta, result: CheckResult) {
    var used := UsageOf(before, subject);
    if result.Allowed? then
      if bucket.Some? && bucket.value != "" then
        if bucket.value == subject then
          UsageOf(after, subject) == used.Apply(delta).Apply(delta) && SameBut(before, after, {subject})
        else
          && UsageOf(after, subject) == used.Apply(delta)
          && UsageOf(after, bucket.value) == UsageOf(before, bucket.value).Apply(delta)
          && SameBut(before, after, {subject, bucket.value})
      else
        UsageOf(after, subject) == used.Apply(delta) && SameBut(before, after, {subject})
    else if UserRefuses(before, limits, userDefault, subject, delta) then
      SameBut(before, after, {})
    else
      UsageOf(after, subject) == used.Apply(delta).Apply(delta.Negate()) && SameBut(before, after, {subject})
  }

  ghost predicate SameBut(before: UsageTable, after: UsageTable, changed: set<Subject>) {
    forall s :: s !in changed ==> UsageOf(after, s) == UsageOf(before, s)
  }

  /** The subjects that a check marks: those it wrote a delta to. */
  ghost function Touched(before: UsageTable, limits: LimitTable, userDefault: QuotaEntry, subject: Subject,
                         bucket: Option<Subject>, delta: ResourceDelta, result: CheckResult): set<Subject> {
    if result.Denied? && UserRefuses(before, limits, userDefault, subject, delta) then {}
    else if result.Allowed? && bucket.Some? && bucket.value != "" then {subject, bucket.value}
    else {subject}
  }

  /** A check refuses what does not fit the user, with the user's reason; then what does not fit the bucket, with the
      bucket's; and nothing else. The limits are the ones that are set, or else the defaults. */
  ghost predicate RightlyDecided(result: CheckResult, usage: UsageTable, limits: LimitTable, userDefault: QuotaEntry,
                                 bucketDefault: QuotaEntry, subject: Subject, bucket: Option<Subject>, delta: ResourceDelta) {
    var userLimit := if subject in limits then limits[subject] else userDefault;
    var used := UsageOf(usage, subject);
    if UserRefuses(usage, limits, userDefault, subject, delta) then
      result.Denied? && Explains(result.reason, used, userLimit, delta, false)
    else if bucket.Some? && bucket.value != "" then
      var bucketLimit := if bucket.value in limits then limits[bucket.value] else bucketDefault;
      var inBucket := if bucket.value == subject then used.Apply(delta) else UsageOf(usage, bucket.value);
      && (result.Allowed? <==> forall dim: Dimension :: Fits(inBucket, bucketLimit, delta, dim))
      && (result.Denied? ==> Explains(result.reason, inBucket, bucketLimit, delta, true))
    else
      result.Allowed?
  }

  lemma CheckIsRight(usage: UsageTable, limits: LimitTable, userDefault: QuotaEntry, bucketDefault: QuotaEntry,
                     subject: Subject, bucket: Option<Subject>, delta: ResourceDelta)
    ensures var result := CheckVerdict(usage, limits, userDefault, bucketDefault, subject, bucket, delta);
            RightlyDecided(result, usage, limits, userDefault, bucketDefault, subject, bucket, delta)
  {
    VerdictIff(usage, limits, subject, userDefault, delta);
    var user := Verdict(usage, subject, LimitOf(limits, subject, userDefault), delta);
    if user.Allowed? && bucket.Some? && bucket.value != "" {
      var held := Applied(usage, subject, delta);
      VerdictIff(held, limits, bucket.value, bucketDefault, delta);
      var second := Verdict(held, bucket.value, LimitOf(limits, bucket.value, bucketDefault), delta);
      var limit := if bucket.value in limits then limits[bucket.value] else bucketDefault;
      if second.Denied? {
        BucketReasonExplains(second.reason, UsageOf(held, bucket.value), limit, delta);
      }
    }
  }

  class QuotaService {
    const cache: MemoryCache
    const userDefault: QuotaEntry
    const bucketDefault: QuotaEntry

    constructor (cache: MemoryCache, userDefault: QuotaEntry, bucketBytes: int, bucketObjects: int)
      ensures this.cache == cache && this.userDefault == userDefault
      ensures bucketDefault == QuotaEntry(bucketBytes, bucketObjects, UNLIMITED)
    {
      this.cache, this.userDefault := cache, userDefault;
      this.bucketDefault := QuotaEntry(bucketBytes, bucketObjects, UNLIMITED);
    }

    /** Reserves for the user, then for the bucket if one is named; a bucket refusal takes the user's part back. */
    method ReserveBoth(subject: Subject, bucket: Option<Subject>, delta: ResourceDelta) returns (result: CheckResult)
      modifies cache`usage, cache`dirty
      ensures result == CheckVerdict(old(cache.usage), cache.limits, userDefault, bucketDefault, subject, bucket, delta)
      ensures CheckEffect(old(cache.usage), cache.usage, cache.limits, userDefault, subject, bucket, delta, result)
      ensures cache.dirty == old(cache.dirty) + Touched(old(cache.usage), cache.limits, userDefault, subject, bucket, delta, result)
    {
      var userResult := cache.CheckAndReserve(subject, delta, userDefault);
      if userResult.Denied? {
        return userResult;
      }
      if bucket.Some? && bucket.value != "" {
        var bucketResult := cache.CheckAndReserve(bucket.value, delta, bucketDefault);
        if bucketResult.Denied? {
          cache.Update(subject, delta.Negate());
          return Denied(BucketReason(bucketResult.reason));
        }
      }
      return Allowed;
    }

    /** The quota check. An empty subject is an error and changes nothing. */
    method CheckQuota(subject: Subject, bucket: Option<Subject>, delta: ResourceDelta)
      returns (result: Outcome<CheckResult>)
      modifies cache`usage, cache`dirty
      ensures result.Err? <==> subject == ""
      ensures result.Err? ==> cache.usage == old(cache.usage) && cache.dirty == old(cache.dirty)
      ensures result.Ok? ==>
        && RightlyDecided(result.value, old(cache.usage), cache.limits, userDefault, bucketDefault, subject, bucket, delta)
        && CheckEffect(old(cache.usage), cache.usage, cache.limits, userDefault, subject, bucket, delta, result.value)
        && cache.dirty ==
             old(cache.dirty)
             + Touched(old(cache.usage), cache.limits, userDefault, subject, bucket, delta, result.value)
    {
      if subject == "" {
        return Err(InvalidArgument);
      }
      CheckIsRight(cache.usage, cache.limits, userDefault, bucketDefault, subject, bucket, delta);
      var value := ReserveBoth(subject, bucket, delta);
      return Ok(value);
    }

    /** Applies a delta to the user and, if one is named, to the bucket, without any check. */
    method UpdateUsage(subject: Subject, bucket: Option<Subject>, delta: ResourceDelta) returns (result: Outcome<()>)
      modifies cache`usage, cache`dirty
      ensures result.Err? <==> subject == ""
      ensures var both := bucket.Some? && bucket.value != "";
              cache.usage ==
                if subject == "" then old(cache.usage)
                else if both then Applied(Applied(old(cache.usage), subject, delta), bucket.value, delta)
                else Applied(old(cache.usage), subject, delta)
      ensures cache.dirty ==
                old(cache.dirty)
                + (if subject == "" then {} else {subject})
                + (if subject != "" && bucket.Some? && bucket.value != "" then {bucket.value} else {})
    {
      if subject == "" {
        return Err(InvalidArgument);
      }
      cache.Update(subject, delta);
      if bucket.Some? && bucket.value != "" {
        cache.Update(bucket.value, delta);
      }
      return Ok(());
    }
  }

  /** Once a limit is set, it decides the next reservation of the subject, whatever default comes with that. */
  method SetThenReserve(cache: MemoryCache, subject: Subject, quota: QuotaEntry, delta: ResourceDelta, default: QuotaEntry)
    returns (result: CheckResult)
    modifies cache
    ensures RightVerdict(result, UsageOf(old(cache.usage), subject), quota, delta)
  {
    cache.SetLimit(subject, quota);
    result := cache.CheckAndReserve(subject, delta, default);
  }

  /** A user refused only by the bucket keeps the usage they had exactly when the delta, taken alone, would not have
      driven any of their counters below zero. */
  lemma RefusedByBucketIsNeutralIff(before: UsageTable, after: UsageTable, subject: Subject, delta: ResourceDelta)
    requires UsageOf(before, subject).NonNegative()
    requires forall s :: s != subject ==> UsageOf(after, s) == UsageOf(before, s)
    requires UsageOf(after, subject) == UsageOf(before, subject).Apply(delta).Apply(delta.Negate())
    ensures (forall s :: UsageOf(after, s) == UsageOf(before, s)) <==>
            forall dim: Dimension :: UsageOf(before, subject).In(dim) + delta.In(dim) >= 0
  {
    RollbackExactIff(UsageOf(before, subject), delta);
  }

  lemma InflatedUser(before: UsageTable, after: UsageTable, noLimit: QuotaEntry, noObjects: QuotaEntry, user: Subject,
                     bucket: Subject, delta: ResourceDelta, result: CheckResult)
    requires user != bucket && bucket != "" && before == map[user := UsageEntry(5, 0, 0)]
    requires delta == ResourceDelta(-10, 1, 0) && noLimit == QuotaEntry(-1, -1, -1) && noObjects == QuotaEntry(-1, 0, -1)
    requires RightlyDecided(result, before, map[], noLimit, noObjects, user, Some(bucket), delta)
    requires CheckEffect(before, after, map[], noLimit, user, Some(bucket), delta, result)
    ensures result == Denied(UserObjectLimitReached(1, 0)) && UsageOf(after, user).bytes == 10
  {
    assert forall dim: Dimension :: Fits(UsageOf(before, user), noLimit, delta, dim);
    assert !UserRefuses(before, map[], noLimit, user, delta);
    assert !Fits(UsageOf(before, bucket), noObjects, delta, Objects);
    assert Fits(UsageOf(before, bucket), noObjects, delta, Bytes);
  }

  /** A refused call that inflates usage: 5 bytes used, a delta of -10 bytes and +1 object, a bucket without room for
      an object. The user ends with 10 bytes. */
  method RollbackCanInflate(user: Subject, bucket: Subject) returns (result: Outcome<CheckResult>, bytes: int)
    requires user != "" && bucket != "" && user != bucket
    ensures result == Ok(Denied(UserObjectLimitReached(1, 0)))
    ensures bytes == 10
  {
    var cache := new MemoryCache();
    var service := new QuotaService(cache, QuotaEntry(UNLIMITED, UNLIMITED, UNLIMITED), UNLIMITED, 0);
    cache.Update(user, ResourceDelta(5, 0, 0));
    ghost var before := cache.usage;
    assert before[user] == UsageEntry(5, 0, 0);
    var delta := ResourceDelta(-10, 1, 0);
    result := service.CheckQuota(user, Some(bucket), delta);
    InflatedUser(before, cache.usage, service.userDefault, service.bucketDefault, user, bucket, delta, result.value);
    bytes := UsageOf(cache.usage, user).bytes;
  }
}
