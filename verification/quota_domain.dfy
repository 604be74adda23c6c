/** Resource counters, limits and the admission test of the quota service. */
module QuotaDomain {
  import opened Options

  /** The three counters that every usage, limit and delta carries. */
  datatype Dimension = Bytes | Objects | Buckets

  /** Marks a dimension without a limit. */
  const UNLIMITED: int := -1

  function Max(a: int, b: int): int {
    if a >= b then a else b
  }

  datatype ResourceDelta = ResourceDelta(bytes: int, objects: int, buckets: int) {

    function In(dim: Dimension): int {
      match dim
      case Bytes => bytes
      case Objects => objects
      case Buckets => buckets
    }

    function Negate(): ResourceDelta {
      ResourceDelta(-bytes, -objects, -buckets)
    }

    ghost predicate NonNegative() {
      forall dim: Dimension :: In(dim) >= 0
    }
  }

  datatype QuotaEntry = QuotaEntry(bytesLimit: int, objectsLimit: int, bucketsLimit: int) {

    function In(dim: Dimension): int {
      match dim
      case Bytes => bytesLimit
      case Objects => objectsLimit
      case Buckets => bucketsLimit
    }

    predicate Unlimited(dim: Dimension) {
      In(dim) == UNLIMITED
    }
  }

  datatype UsageEntry = UsageEntry(bytes: int, objects: int, buckets: int) {

    function In(dim: Dimension): int {
      match dim
      case Bytes => bytes
      case Objects => objects
      case Buckets => buckets
    }

    /** Adds a delta; a counter that would fall below zero stops at zero. */
    function Apply(delta: ResourceDelta): (r: UsageEntry)
      ensures forall dim: Dimension :: r.In(dim) >= 0 && r.In(dim) >= In(dim) + delta.In(dim)
      ensures forall dim: Dimension :: r.In(dim) > 0 ==> r.In(dim) == In(dim) + delta.In(dim)
    {
      UsageEntry(Max(bytes + delta.bytes, 0), Max(objects + delta.objects, 0), Max(buckets + delta.buckets, 0))
    }

    ghost predicate NonNegative() {
      forall dim: Dimension :: In(dim) >= 0
    }
  }

  /** What an unknown subject has used. */
  const NO_USAGE: UsageEntry := UsageEntry(0, 0, 0)

  /** The first usage of a subject that has no entry yet. */
  function FromDelta(delta: ResourceDelta): UsageEntry {
    UsageEntry(Max(delta.bytes, 0), Max(delta.objects, 0), Max(delta.buckets, 0))
  }

  datatype DenyReason =
    | UserStorageExceeded(used: int, limit: int)
    | BucketStorageExceeded(used: int, limit: int)
    | UserBucketLimitReached(used: int, limit: int)
    | UserObjectLimitReached(used: int, limit: int)

  datatype CheckResult = Allowed | Denied(reason: DenyReason)

  /** The reason to refuse `delta`, if there is one; bytes are looked at first, then objects, then buckets. */
  function WouldExceed(current: UsageEntry, limit: QuotaEntry, delta: ResourceDelta): Option<DenyReason> {
    if !limit.Unlimited(Bytes) && delta.bytes > 0 && current.bytes + delta.bytes > limit.bytesLimit then
      Some(UserStorageExceeded(current.bytes + delta.bytes, limit.bytesLimit))
    else if !limit.Unlimited(Objects) && delta.objects > 0 && current.objects + delta.objects > limit.objectsLimit then
      Some(UserObjectLimitReached(current.objects + delta.objects, limit.objectsLimit))
    else if !limit.Unlimited(Buckets) && delta.buckets > 0 && current.buckets + delta.buckets > limit.bucketsLimit then
      Some(UserBucketLimitReached(current.buckets + delta.buckets, limit.bucketsLimit))
    else
      None
  }

  /** One dimension of a delta stays within its limit; releasing, or not touching, a dimension always does. */
  predicate Fits(current: UsageEntry, limit: QuotaEntry, delta: ResourceDelta, dim: Dimension) {
    limit.Unlimited(dim) || delta.In(dim) <= 0 || current.In(dim) + delta.In(dim) <= limit.In(dim)
  }

  /** The dimension a refusal is about. */
  function Blamed(reason: DenyReason): Dimension {
    match reason
    case UserStorageExceeded(_, _) => Bytes
    case BucketStorageExceeded(_, _) => Bytes
    case UserObjectLimitReached(_, _) => Objects
    case UserBucketLimitReached(_, _) => Buckets
  }

  /** A delta is admitted exactly when it fits in every dimension, and a refusal names a dimension it does not
      fit in, with the usage it would have reached. */
  lemma AdmittedIffFits(current: UsageEntry, limit: QuotaEntry, delta: ResourceDelta)
    ensures WouldExceed(current, limit, delta).None? <==> forall dim: Dimension :: Fits(current, limit, delta, dim)
    ensures var refusal := WouldExceed(current, limit, delta);
            refusal.Some? ==>
              var dim := Blamed(refusal.value);
              && !Fits(current, limit, delta, dim)
              && refusal.value.used == current.In(dim) + delta.In(dim)
              && refusal.value.limit == limit.In(dim)
              && !refusal.value.BucketStorageExceeded?
  {
    if WouldExceed(current, limit, delta).None? {
      forall dim: Dimension ensures Fits(current, limit, delta, dim) {
        match dim case Bytes => case Objects => case Buckets =>
      }
    } else {
      assert !Fits(current, limit, delta, Blamed(WouldExceed(current, limit, delta).value));
    }
  }

  /** The admission test in plain numbers: -1 stands for no limit, and a limit may be used up exactly. */
  lemma AdmittedInNumbers(current: UsageEntry, limit: QuotaEntry, delta: ResourceDelta)
    ensures WouldExceed(current, limit, delta).None? <==>
            && (limit.bytesLimit == -1 || delta.bytes <= 0 || current.bytes + delta.bytes <= limit.bytesLimit)
            && (limit.objectsLimit == -1 || delta.objects <= 0 || current.objects + delta.objects <= limit.objectsLimit)
            && (limit.bucketsLimit == -1 || delta.buckets <= 0 || current.buckets + delta.buckets <= limit.bucketsLimit)
  {
  }

  /** The reason names the first of bytes, objects and buckets that does not fit, with the usage it would have reached and
      the limit. For bytes it says whose limit it is, the bucket's or the user's. */
  ghost predicate Explains(reason: DenyReason, current: UsageEntry, limit: QuotaEntry, delta: ResourceDelta, bucket: bool) {
    match reason
    case UserStorageExceeded(used, most) =>
      !bucket && !Fits(current, limit, delta, Bytes) && used == current.bytes + delta.bytes && most == limit.bytesLimit
    case BucketStorageExceeded(used, most) =>
      bucket && !Fits(current, limit, delta, Bytes) && used == current.bytes + delta.bytes && most == limit.bytesLimit
    case UserObjectLimitReached(used, most) =>
      && Fits(current, limit, delta, Bytes) && !Fits(current, limit, delta, Objects)
      && used == current.objects + delta.objects && most == limit.objectsLimit
    case UserBucketLimitReached(used, most) =>
      && Fits(current, limit, delta, Bytes) && Fits(current, limit, delta, Objects) && !Fits(current, limit, delta, Buckets)
      && used == current.buckets + delta.buckets && most == limit.bucketsLimit
  }

  lemma RefusalIsExplained(current: UsageEntry, limit: QuotaEntry, delta: ResourceDelta)
    ensures var refusal := WouldExceed(current, limit, delta);
            refusal.Some? ==> Explains(refusal.value, current, limit, delta, false)
  {
  }

  /** Releasing resources is never refused. */
  lemma ReleaseIsAlwaysAdmitted(current: UsageEntry, limit: QuotaEntry, delta: ResourceDelta)
    requires forall dim: Dimension :: delta.In(dim) <= 0
    ensures WouldExceed(current, limit, delta).None?
  {
    assert delta.In(Bytes) <= 0 && delta.In(Objects) <= 0 && delta.In(Buckets) <= 0;
  }

  /** Two usages that agree in every dimension are the same. */
  lemma SameUsage(a: UsageEntry, b: UsageEntry)
    requires forall dim: Dimension :: a.In(dim) == b.In(dim)
    ensures a == b
  {
    assert a.In(Bytes) == b.In(Bytes) && a.In(Objects) == b.In(Objects) && a.In(Buckets) == b.In(Buckets);
  }
}
