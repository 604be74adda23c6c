/** What the sequence of atomic accesses to one usage entry guarantees, whoever makes them. */
module QuotaLedger {
  import opened Options
  import opened QuotaDomain

  /** One atomic access to a subject's usage: a checked reservation, with the limit it was checked against and its
      outcome, or an unchecked update. */
  datatype Event =
    | Checked(delta: ResourceDelta, limit: QuotaEntry, granted: bool)
    | Unchecked(delta: ResourceDelta)

  function After(usage: UsageEntry, event: Event): UsageEntry {
    if event.Checked? && !event.granted then usage else usage.Apply(event.delta)
  }

  /** A reservation was granted exactly when its delta did not exceed its limit. */
  predicate Honest(usage: UsageEntry, event: Event) {
    event.Checked? ==> (event.granted <==> WouldExceed(usage, event.limit, event.delta).None?)
  }

  function Replay(start: UsageEntry, log: seq<Event>): UsageEntry {
    if log == [] then start else After(Replay(start, log[..|log| - 1]), log[|log| - 1])
  }

  ghost predicate HonestLog(start: UsageEntry, log: seq<Event>) {
    forall k :: 0 <= k < |log| ==> Honest(Replay(start, log[..k]), log[k])
  }

  lemma ReplayAppend(start: UsageEntry, log: seq<Event>, event: Event)
    ensures Replay(start, log + [event]) == After(Replay(start, log), event)
  {
    assert (log + [event])[..|log|] == log;
  }

  lemma ReplayStep(start: UsageEntry, log: seq<Event>, n: nat)
    requires n < |log|
    ensures Replay(start, log[..n + 1]) == After(Replay(start, log[..n]), log[n])
  {
    assert log[..n + 1][..n] == log[..n];
  }

  lemma HonestAppend(start: UsageEntry, log: seq<Event>, event: Event)
    requires HonestLog(start, log) && Honest(Replay(start, log), event)
    ensures HonestLog(start, log + [event])
  {
    var longer := log + [event];
    forall k | 0 <= k < |longer| ensures Honest(Replay(start, longer[..k]), longer[k]) {
      assert longer[..k] == log[..k];
      assert log[..|log|] == log;
    }
  }

  lemma HonestPrefix(start: UsageEntry, log: seq<Event>, n: nat)
    requires HonestLog(start, log) && n <= |log|
    ensures HonestLog(start, log[..n])
  {
    forall k | 0 <= k < n ensures Honest(Replay(start, log[..n][..k]), log[..n][k]) {
      assert log[..n][..k] == log[..k];
    }
  }

  // ----- limits -----

  function Gain(delta: ResourceDelta, dim: Dimension): nat {
    Max(delta.In(dim), 0)
  }

  /** Everything that unchecked updates added. */
  function UncheckedGain(log: seq<Event>, dim: Dimension): nat {
    if log == [] then 0
    else
      var last := log[|log| - 1];
      UncheckedGain(log[..|log| - 1], dim) + if last.Unchecked? then Gain(last.delta, dim) else 0
  }

  /** Usage never passes the largest limit any reservation was checked against, however stale that limit was,
      except by what unchecked updates added. */
  lemma {:induction false} BoundedByLimits(start: UsageEntry, log: seq<Event>, dim: Dimension, top: int)
    requires HonestLog(start, log)
    requires start.In(dim) <= top && 0 <= top
    requires forall k :: 0 <= k < |log| && log[k].Checked? ==>
      !log[k].limit.Unlimited(dim) && log[k].limit.In(dim) <= top
    ensures Replay(start, log).In(dim) <= top + UncheckedGain(log, dim)
  {
    if log != [] {
      var n := |log| - 1;
      HonestPrefix(start, log, n);
      BoundedByLimits(start, log[..n], dim, top);
      var before, last := Replay(start, log[..n]), log[n];
      assert Honest(before, last);
      if last.Checked? && last.granted {
        AdmittedIffFits(before, last.limit, last.delta);
        assert Fits(before, last.limit, last.delta, dim);
      }
    }
  }

  // ----- machine arithmetic -----

  const I64_MAX: int := 0x7fff_ffff_ffff_ffff
  const I64_MIN: int := -0x8000_0000_0000_0000

  const NO_LIMIT: QuotaEntry := QuotaEntry(UNLIMITED, UNLIMITED, UNLIMITED)

  predicate IsI64(x: int) {
    I64_MIN <= x <= I64_MAX
  }

  /** Two's-complement wrap-around at 64 bits. */
  function Wrap(x: int): (r: int)
    ensures IsI64(r)
    ensures (r - x) % 0x1_0000_0000_0000_0000 == 0
    ensures IsI64(x) ==> r == x
  {
    var m := (x - I64_MIN) % 0x1_0000_0000_0000_0000;
    m + I64_MIN
  }

  function ApplyI64(usage: UsageEntry, delta: ResourceDelta): UsageEntry {
    UsageEntry(
      Max(Wrap(usage.bytes + delta.bytes), 0),
      Max(Wrap(usage.objects + delta.objects), 0),
      Max(Wrap(usage.buckets + delta.buckets), 0))
  }

  /** The admission test with the additions the machine performs. */
  function ExceedsI64(current: UsageEntry, limit: QuotaEntry, delta: ResourceDelta): Option<DenyReason> {
    var newBytes := Wrap(current.bytes + delta.bytes);
    var newObjects := Wrap(current.objects + delta.objects);
    var newBuckets := Wrap(current.buckets + delta.buckets);
    if !limit.Unlimited(Bytes) && delta.bytes > 0 && newBytes > limit.bytesLimit then
      Some(UserStorageExceeded(newBytes, limit.bytesLimit))
    else if !limit.Unlimited(Objects) && delta.objects > 0 && newObjects > limit.objectsLimit then
      Some(UserObjectLimitReached(newObjects, limit.objectsLimit))
    else if !limit.Unlimited(Buckets) && delta.buckets > 0 && newBuckets > limit.bucketsLimit then
      Some(UserBucketLimitReached(newBuckets, limit.bucketsLimit))
    else
      None
  }

  function ReplayI64(start: UsageEntry, log: seq<Event>): UsageEntry {
    if log == [] then start
    else
      var before, last := ReplayI64(start, log[..|log| - 1]), log[|log| - 1];
      if last.Checked? && !last.granted then before else ApplyI64(before, last.delta)
  }

  /** Everything anybody ever tried to add, granted or not. */
  function AttemptedGain(log: seq<Event>, dim: Dimension): nat {
    if log == [] then 0 else AttemptedGain(log[..|log| - 1], dim) + Gain(log[|log| - 1].delta, dim)
  }

  ghost predicate DeltasAreI64(log: seq<Event>) {
    forall k, dim: Dimension :: 0 <= k < |log| ==> IsI64(log[k].delta.In(dim))
  }

  /** Usage stays between zero and the start plus everything attempted. */
  lemma {:induction false} WithinAttempts(start: UsageEntry, log: seq<Event>, dim: Dimension)
    requires start.NonNegative()
    ensures 0 <= Replay(start, log).In(dim) <= start.In(dim) + AttemptedGain(log, dim)
  {
    if log != [] {
      WithinAttempts(start, log[..|log| - 1], dim);
    }
  }

  lemma {:induction false} AttemptedGainGrows(log: seq<Event>, n: nat, dim: Dimension)
    requires n <= |log|
    ensures AttemptedGain(log[..n], dim) <= AttemptedGain(log, dim)
  {
    if n < |log| {
      assert log[..|log| - 1][..n] == log[..n];
      AttemptedGainGrows(log[..|log| - 1], n, dim);
    } else {
      assert log[..n] == log;
    }
  }

  /** The start plus everything attempted fits in 64 bits. */
  ghost predicate Budgeted(start: UsageEntry, log: seq<Event>) {
    && start.NonNegative()
    && DeltasAreI64(log)
    && forall dim: Dimension :: start.In(dim) + AttemptedGain(log, dim) <= I64_MAX
  }

  /** The k-th access forms its sums within 64 bits, and the machine's test and addition give the exact result. */
  ghost predicate AccessIsExact(start: UsageEntry, log: seq<Event>, k: nat)
    requires k < |log|
  {
    var usage, delta := Replay(start, log[..k]), log[k].delta;
    && (forall dim: Dimension :: IsI64(usage.In(dim) + delta.In(dim)))
    && ApplyI64(usage, delta) == usage.Apply(delta)
    && (log[k].Checked? ==> ExceedsI64(usage, log[k].limit, delta) == WouldExceed(usage, log[k].limit, delta))
  }

  /** In a budgeted log no access overflows: the sum it forms is exact, and so is the machine's verdict. */
  lemma NoOverflow(start: UsageEntry, log: seq<Event>, k: nat)
    requires Budgeted(start, log) && k < |log|
    ensures Replay(start, log[..k]).NonNegative() && AccessIsExact(start, log, k)
  {
    var usage, event := Replay(start, log[..k]), log[k];
    forall dim: Dimension ensures usage.In(dim) >= 0 && IsI64(usage.In(dim) + event.delta.In(dim)) {
      WithinAttempts(start, log[..k], dim);
      SumFits(start, log, k, dim);
    }
    VerdictIsExact(usage, if event.Checked? then event.limit else NO_LIMIT, event.delta);
  }

  /** In a budgeted log the machine reaches exactly the usage that unbounded integers reach. */
  lemma {:induction false} MachineReplayIsExact(start: UsageEntry, log: seq<Event>, n: nat)
    requires Budgeted(start, log) && n <= |log|
    ensures ReplayI64(start, log[..n]) == Replay(start, log[..n])
  {
    if n > 0 {
      MachineReplayIsExact(start, log, n - 1);
      NoOverflow(start, log, n - 1);
      assert log[..n][..n - 1] == log[..n - 1];
    }
  }

  lemma SumFits(start: UsageEntry, log: seq<Event>, k: nat, dim: Dimension)
    requires start.NonNegative() && DeltasAreI64(log) && k < |log|
    requires start.In(dim) + AttemptedGain(log, dim) <= I64_MAX
    ensures IsI64(Replay(start, log[..k]).In(dim) + log[k].delta.In(dim))
  {
    WithinAttempts(start, log[..k], dim);
    AttemptedGainGrows(log, k + 1, dim);
    assert log[..k + 1][..k] == log[..k] && log[..k + 1][k] == log[k];
  }

  lemma VerdictIsExact(usage: UsageEntry, limit: QuotaEntry, delta: ResourceDelta)
    requires forall dim: Dimension :: IsI64(usage.In(dim) + delta.In(dim))
    ensures ExceedsI64(usage, limit, delta) == WouldExceed(usage, limit, delta)
    ensures ApplyI64(usage, delta) == usage.Apply(delta)
  {
    assert IsI64(usage.In(Bytes) + delta.In(Bytes));
    assert IsI64(usage.In(Objects) + delta.In(Objects));
    assert IsI64(usage.In(Buckets) + delta.In(Buckets));
  }

  // ----- batches -----

  const NO_DELTA: ResourceDelta := ResourceDelta(0, 0, 0)

  function Total(deltas: seq<ResourceDelta>): ResourceDelta {
    if deltas == [] then NO_DELTA
    else
      var rest, last := Total(deltas[..|deltas| - 1]), deltas[|deltas| - 1];
      ResourceDelta(rest.bytes + last.bytes, rest.objects + last.objects, rest.buckets + last.buckets)
  }

  function Plus(usage: UsageEntry, delta: ResourceDelta): UsageEntry {
    UsageEntry(usage.bytes + delta.bytes, usage.objects + delta.objects, usage.buckets + delta.buckets)
  }

  ghost predicate AllNonNegative(deltas: seq<ResourceDelta>) {
    forall k :: 0 <= k < |deltas| ==> deltas[k].NonNegative()
  }

  /** Reserves one delta after the other under one limit: the usage reached, and whether all were granted. */
  function ServeBatch(start: UsageEntry, limit: QuotaEntry, deltas: seq<ResourceDelta>): (UsageEntry, bool) {
    if deltas == [] then (start, true)
    else
      var (usage, all) := ServeBatch(start, limit, deltas[..|deltas| - 1]);
      var last := deltas[|deltas| - 1];
      if WouldExceed(usage, limit, last).None? then (usage.Apply(last), all) else (usage, false)
  }

  /** The whole batch fits: its total fits every finite dimension that the batch grows. */
  ghost predicate TotalFits(start: UsageEntry, limit: QuotaEntry, deltas: seq<ResourceDelta>) {
    AllFit(start, limit, Total(deltas))
  }

  ghost predicate AllFit(usage: UsageEntry, limit: QuotaEntry, delta: ResourceDelta) {
    forall dim: Dimension :: Fits(usage, limit, delta, dim)
  }

  lemma {:induction false} TotalNonNegative(deltas: seq<ResourceDelta>)
    requires AllNonNegative(deltas)
    ensures Total(deltas).NonNegative()
  {
    if deltas != [] {
      TotalNonNegative(deltas[..|deltas| - 1]);
      assert deltas[|deltas| - 1].NonNegative();
      TotalStep(deltas);
    }
  }

  lemma TotalStep(deltas: seq<ResourceDelta>)
    requires deltas != []
    ensures forall dim: Dimension ::
      Total(deltas).In(dim) == Total(deltas[..|deltas| - 1]).In(dim) + deltas[|deltas| - 1].In(dim)
  {
  }

  /** Every reservation of a batch is granted exactly when the total fits, and then usage grows by the total. */
  lemma {:induction false} BatchGrantedIffTotalFits(start: UsageEntry, limit: QuotaEntry, deltas: seq<ResourceDelta>)
    requires start.NonNegative() && AllNonNegative(deltas)
    ensures ServeBatch(start, limit, deltas).1 <==> TotalFits(start, limit, deltas)
    ensures ServeBatch(start, limit, deltas).1 ==> ServeBatch(start, limit, deltas).0 == Plus(start, Total(deltas))
  {
    if deltas != [] {
      var front, last := deltas[..|deltas| - 1], deltas[|deltas| - 1];
      BatchGrantedIffTotalFits(start, limit, front);
      TotalNonNegative(front);
      assert last.NonNegative();
      TotalStep(deltas);
      if TotalFits(start, limit, front) {
        var usage := Plus(start, Total(front));
        assert forall dim: Dimension :: usage.In(dim) == start.In(dim) + Total(front).In(dim);
        AdmittedIffFits(usage, limit, last);
        SplitFits(start, limit, Total(front), last, Total(deltas));
        assert WouldExceed(usage, limit, last).None? <==> AllFit(usage, limit, last);
        if WouldExceed(usage, limit, last).None? {
          SameUsage(usage.Apply(last), Plus(start, Total(deltas)));
        }
      } else {
        var dim: Dimension :| !Fits(start, limit, Total(front), dim);
        assert !Fits(start, limit, Total(deltas), dim);
      }
    }
  }

  lemma SplitFits(start: UsageEntry, limit: QuotaEntry, front: ResourceDelta, last: ResourceDelta, whole: ResourceDelta)
    requires front.NonNegative() && last.NonNegative() && AllFit(start, limit, front)
    requires forall dim: Dimension :: whole.In(dim) == front.In(dim) + last.In(dim)
    ensures AllFit(start, limit, whole) <==> AllFit(Plus(start, front), limit, last)
  {
    forall dim: Dimension
      ensures Fits(start, limit, whole, dim) <==> Fits(Plus(start, front), limit, last, dim)
    {
      assert whole.In(dim) == front.In(dim) + last.In(dim);
      SplitFitsIn(start, limit, front, last, whole, dim);
    }
  }

  lemma SplitFitsIn(start: UsageEntry, limit: QuotaEntry, front: ResourceDelta, last: ResourceDelta,
                    whole: ResourceDelta, dim: Dimension)
    requires front.In(dim) >= 0 && last.In(dim) >= 0 && Fits(start, limit, front, dim)
    requires whole.In(dim) == front.In(dim) + last.In(dim)
    ensures Fits(start, limit, whole, dim) <==> Fits(Plus(start, front), limit, last, dim)
  {
    assert Plus(start, front).In(dim) == start.In(dim) + front.In(dim);
  }

  lemma {:induction false} TotalWithout(deltas: seq<ResourceDelta>, k: nat)
    requires k < |deltas|
    ensures forall dim: Dimension :: Total(deltas).In(dim) == Total(deltas[..k] + deltas[k + 1..]).In(dim) + deltas[k].In(dim)
  {
    var n := |deltas| - 1;
    TotalStep(deltas);
    if k == n {
      assert deltas[..k] + deltas[k + 1..] == deltas[..n];
    } else {
      var front := deltas[..n];
      TotalWithout(front, k);
      var without := deltas[..k] + deltas[k + 1..];
      assert without[..|without| - 1] == front[..k] + front[k + 1..];
      TotalStep(without);
    }
  }

  lemma CountWithout(deltas: seq<ResourceDelta>, k: nat)
    requires k < |deltas|
    ensures multiset(deltas[..k] + deltas[k + 1..]) == multiset(deltas) - multiset{deltas[k]}
  {
    assert deltas == deltas[..k] + ([deltas[k]] + deltas[k + 1..]);
  }

  lemma SameDelta(a: ResourceDelta, b: ResourceDelta)
    requires forall dim: Dimension :: a.In(dim) == b.In(dim)
    ensures a == b
  {
    assert a.In(Bytes) == b.In(Bytes) && a.In(Objects) == b.In(Objects) && a.In(Buckets) == b.In(Buckets);
  }

  lemma {:induction false} TotalIgnoresOrder(a: seq<ResourceDelta>, b: seq<ResourceDelta>)
    requires multiset(a) == multiset(b)
    ensures Total(a) == Total(b)
  {
    if a == [] {
      assert |multiset(b)| == 0;
    } else {
      var n := |a| - 1;
      assert a[n] in multiset(b);
      var k :| 0 <= k < |b| && b[k] == a[n];
      CountWithout(b, k);
      CountWithout(a, n);
      assert a[..n] + a[n + 1..] == a[..n];
      TotalIgnoresOrder(a[..n], b[..k] + b[k + 1..]);
      TotalWithout(b, k);
      TotalStep(a);
      SameDelta(Total(a), Total(b));
    }
  }

  /** The order of a batch does not decide whether all of it is granted, nor the usage it ends with. */
  lemma BatchIgnoresOrder(start: UsageEntry, limit: QuotaEntry, a: seq<ResourceDelta>, b: seq<ResourceDelta>)
    requires start.NonNegative() && AllNonNegative(a) && multiset(a) == multiset(b)
    ensures ServeBatch(start, limit, a).1 == ServeBatch(start, limit, b).1
    ensures ServeBatch(start, limit, a).1 ==> ServeBatch(start, limit, a).0 == ServeBatch(start, limit, b).0
  {
    forall k | 0 <= k < |b| ensures b[k].NonNegative() {
      assert b[k] in multiset(a);
    }
    TotalIgnoresOrder(a, b);
    BatchGrantedIffTotalFits(start, limit, a);
    BatchGrantedIffTotalFits(start, limit, b);
  }

  function DeltasOf(log: seq<Event>): seq<ResourceDelta> {
    seq(|log|, k requires 0 <= k < |log| => log[k].delta)
  }

  /** Every access was a reservation checked against this limit. */
  ghost predicate UnderLimit(log: seq<Event>, limit: QuotaEntry) {
    forall k :: 0 <= k < |log| ==> log[k].Checked? && log[k].limit == limit
  }

  ghost predicate AllGranted(log: seq<Event>) {
    forall k :: 0 <= k < |log| ==> log[k].Checked? && log[k].granted
  }

  lemma BatchStep(start: UsageEntry, limit: QuotaEntry, front: seq<ResourceDelta>, event: Event)
    requires event.Checked? && event.limit == limit && Honest(ServeBatch(start, limit, front).0, event)
    ensures var served, before := ServeBatch(start, limit, front + [event.delta]), ServeBatch(start, limit, front);
            served.0 == After(before.0, event) && (served.1 <==> before.1 && event.granted)
  {
    assert (front + [event.delta])[..|front|] == front;
  }

  lemma DeltasStep(log: seq<Event>, n: nat)
    requires n < |log|
    ensures DeltasOf(log[..n + 1]) == DeltasOf(log[..n]) + [log[n].delta]
  {
  }

  lemma GrantedStep(log: seq<Event>, n: nat)
    requires n < |log|
    ensures AllGranted(log[..n + 1]) <==> AllGranted(log[..n]) && log[n].Checked? && log[n].granted
  {
    assert forall k :: 0 <= k < n ==> log[..n + 1][k] == log[..n][k];
    assert log[..n + 1][n] == log[n];
  }

  /** Honest reservations under one limit are a batch, served in the order of the log. */
  lemma {:induction false} LogIsBatch(start: UsageEntry, log: seq<Event>, limit: QuotaEntry, n: nat)
    requires HonestLog(start, log) && UnderLimit(log, limit) && n <= |log|
    ensures ServeBatch(start, limit, DeltasOf(log[..n])).0 == Replay(start, log[..n])
    ensures ServeBatch(start, limit, DeltasOf(log[..n])).1 <==> AllGranted(log[..n])
  {
    if n > 0 {
      var m := n - 1;
      LogIsBatch(start, log, limit, m);
      BatchStep(start, limit, DeltasOf(log[..m]), log[m]);
      DeltasStep(log, m);
      ReplayStep(start, log, m);
      GrantedStep(log, m);
    }
  }

  // ----- conservation -----

  /** What has been taken and not given back. `givenBack` says which outstanding amount an event gives back, if any. */
  function Outstanding(log: seq<Event>, givenBack: seq<Option<nat>>): seq<ResourceDelta>
    requires |log| == |givenBack|
  {
    if log == [] then []
    else
      var n := |log| - 1;
      var out := Outstanding(log[..n], givenBack[..n]);
      match givenBack[n]
      case Some(i) => if i < |out| then out[..i] + out[i + 1..] else out
      case None => if log[n].Checked? && !log[n].granted then out else out + [log[n].delta]
  }

  /** Every event takes a non-negative amount, or gives back the negation of an outstanding one. */
  ghost predicate Returned(log: seq<Event>, givenBack: seq<Option<nat>>) {
    && |log| == |givenBack|
    && forall k :: 0 <= k < |log| ==>
         match givenBack[k]
         case None => log[k].delta.NonNegative()
         case Some(i) =>
           var out := Outstanding(log[..k], givenBack[..k]);
           i < |out| && log[k].delta == out[i].Negate()
  }

  lemma ReturnedPrefix(log: seq<Event>, givenBack: seq<Option<nat>>, n: nat)
    requires Returned(log, givenBack) && n <= |log|
    ensures Returned(log[..n], givenBack[..n])
  {
    assert forall k :: 0 <= k < n ==> log[..n][..k] == log[..k] && givenBack[..n][..k] == givenBack[..k];
  }

  /** A balanced account stays balanced when a non-negative amount is taken, and nothing is clamped. */
  lemma TakeKeepsBalance(start: UsageEntry, out: seq<ResourceDelta>, delta: ResourceDelta)
    requires start.NonNegative() && AllNonNegative(out) && delta.NonNegative()
    ensures Plus(start, Total(out)).Apply(delta) == Plus(start, Total(out + [delta]))
    ensures forall dim: Dimension :: Plus(start, Total(out)).In(dim) + delta.In(dim) >= 0
  {
    var more := out + [delta];
    assert more[..|more| - 1] == out;
    TotalStep(more);
    TotalNonNegative(out);
    assert forall dim: Dimension :: Plus(start, Total(out)).In(dim) == start.In(dim) + Total(out).In(dim);
    SameUsage(Plus(start, Total(out)).Apply(delta), Plus(start, Total(more)));
  }

  lemma GiveBackPart(start: UsageEntry, whole: ResourceDelta, rest: ResourceDelta, part: ResourceDelta)
    requires start.NonNegative() && rest.NonNegative()
    requires forall dim: Dimension :: whole.In(dim) == rest.In(dim) + part.In(dim)
    ensures Plus(start, whole).Apply(part.Negate()) == Plus(start, rest)
    ensures forall dim: Dimension :: Plus(start, whole).In(dim) + part.Negate().In(dim) >= 0
  {
    forall dim: Dimension
      ensures Plus(start, whole).In(dim) + part.Negate().In(dim) == Plus(start, rest).In(dim) >= 0
    {
      assert whole.In(dim) == rest.In(dim) + part.In(dim) && start.In(dim) >= 0 && rest.In(dim) >= 0;
    }
    SameUsage(Plus(start, whole).Apply(part.Negate()), Plus(start, rest));
  }

  /** A balanced account stays balanced when an outstanding amount comes back, and nothing is clamped. */
  lemma GiveBackKeepsBalance(start: UsageEntry, out: seq<ResourceDelta>, i: nat)
    requires start.NonNegative() && AllNonNegative(out) && i < |out|
    ensures AllNonNegative(out[..i] + out[i + 1..])
    ensures Plus(start, Total(out)).Apply(out[i].Negate()) == Plus(start, Total(out[..i] + out[i + 1..]))
    ensures forall dim: Dimension :: Plus(start, Total(out)).In(dim) + out[i].Negate().In(dim) >= 0
  {
    var less := out[..i] + out[i + 1..];
    TotalNonNegative(less);
    TotalWithout(out, i);
    GiveBackPart(start, Total(out), Total(less), out[i]);
  }

  /** Usage is the start plus what is outstanding, so giving everything back restores the start. */
  lemma {:induction false} Conservation(start: UsageEntry, log: seq<Event>, givenBack: seq<Option<nat>>)
    requires start.NonNegative() && HonestLog(start, log) && Returned(log, givenBack)
    ensures AllNonNegative(Outstanding(log, givenBack))
    ensures Replay(start, log) == Plus(start, Total(Outstanding(log, givenBack)))
    ensures Outstanding(log, givenBack) == [] ==> Replay(start, log) == start
  {
    if log != [] {
      var n := |log| - 1;
      HonestPrefix(start, log, n);
      ReturnedPrefix(log, givenBack, n);
      Conservation(start, log[..n], givenBack[..n]);
      var out := Outstanding(log[..n], givenBack[..n]);
      if givenBack[n].None? {
        TakeKeepsBalance(start, out, log[n].delta);
      } else {
        NeverRefused(Replay(start, log[..n]), log[n], out[givenBack[n].value]);
        GiveBackKeepsBalance(start, out, givenBack[n].value);
      }
    }
  }

  lemma NeverRefused(usage: UsageEntry, event: Event, part: ResourceDelta)
    requires Honest(usage, event) && part.NonNegative() && event.delta == part.Negate()
    ensures event.Checked? ==> event.granted
  {
    if event.Checked? {
      assert forall dim: Dimension :: event.delta.In(dim) == -part.In(dim);
      ReleaseIsAlwaysAdmitted(usage, event.limit, event.delta);
    }
  }

  /** In such a log the clamp at zero never changes a result: every sum is already non-negative. */
  lemma ClampNeverFires(start: UsageEntry, log: seq<Event>, givenBack: seq<Option<nat>>, k: nat)
    requires start.NonNegative() && HonestLog(start, log) && Returned(log, givenBack) && k < |log|
    ensures forall dim: Dimension :: Replay(start, log[..k]).In(dim) + log[k].delta.In(dim) >= 0
  {
    HonestPrefix(start, log, k);
    ReturnedPrefix(log, givenBack, k);
    Conservation(start, log[..k], givenBack[..k]);
    var out := Outstanding(log[..k], givenBack[..k]);
    match givenBack[k] {
      case None => TakeKeepsBalance(start, out, log[k].delta);
      case Some(i) => GiveBackKeepsBalance(start, out, i);
    }
  }

  // ----- a reservation that is taken back -----

  lemma {:induction false} ReplayConcat(start: UsageEntry, a: seq<Event>, b: seq<Event>)
    ensures Replay(start, a + b) == Replay(Replay(start, a), b)
    decreases |b|
  {
    if b == [] {
      assert a + b == a;
    } else {
      var n := |b| - 1;
      ReplayConcat(start, a, b[..n]);
      assert (a + b)[..|a| + n] == a + b[..n];
    }
  }

  function Effect(event: Event, dim: Dimension): int {
    if event.Checked? && !event.granted then 0 else event.delta.In(dim)
  }

  /** What the accesses add up to. */
  function Net(log: seq<Event>, dim: Dimension): int {
    if log == [] then 0 else Net(log[..|log| - 1], dim) + Effect(log[|log| - 1], dim)
  }

  /** How far below their start the accesses go at their lowest point. */
  function Depth(log: seq<Event>, dim: Dimension): nat {
    if log == [] then 0 else Max(Depth(log[..|log| - 1], dim), -Net(log, dim))
  }

  /** Clamped accesses have a closed form: a start that is not deep enough counts as one that is. */
  lemma {:induction false} ReplayClosedForm(start: UsageEntry, log: seq<Event>, dim: Dimension)
    requires start.In(dim) >= 0
    ensures Replay(start, log).In(dim) == Net(log, dim) + Max(start.In(dim), Depth(log, dim)) >= 0
  {
    if log != [] {
      ReplayClosedForm(start, log[..|log| - 1], dim);
    }
  }

  /** Holding an amount while other accesses go on, and then taking it back, is as if it had never been held. The others
      must stay above zero on their own, or end there; a negative amount must be covered all along. */
  ghost predicate LeavesNoTrace(before: int, held: int, between: seq<Event>, dim: Dimension) {
    if held >= 0 then held == 0 || Depth(between, dim) <= before || Net(between, dim) + Depth(between, dim) == 0
    else Depth(between, dim) <= before + held
  }

  /** In one dimension, a reservation and its roll-back cancel out around the accesses between them exactly then. */
  lemma RollbackCancelsIff(before: UsageEntry, held: ResourceDelta, between: seq<Event>, dim: Dimension)
    requires before.NonNegative()
    ensures Replay(before.Apply(held), between).Apply(held.Negate()).In(dim) == Replay(before, between).In(dim)
            <==> LeavesNoTrace(before.In(dim), held.In(dim), between, dim)
  {
    var start := before.Apply(held);
    ReplayClosedForm(before, between, dim);
    ReplayClosedForm(start, between, dim);
    assert held.Negate().In(dim) == -held.In(dim);
    assert start.In(dim) == Max(before.In(dim) + held.In(dim), 0);
  }

  /** An amount is reserved as event i of a log, and its negation ends the log: usage is what the other accesses alone
      would have made of it, with the outcomes they had, exactly when the pair leaves no trace in any dimension. */
  lemma PairRemovableIff(start: UsageEntry, log: seq<Event>, i: nat)
    requires start.NonNegative() && i < |log| - 1 && log[i].Checked? && log[i].granted
    requires log[|log| - 1] == Unchecked(log[i].delta.Negate())
    ensures var before, between := Replay(start, log[..i]), log[i + 1..|log| - 1];
            Replay(start, log) == Replay(start, log[..i] + between)
            <==> forall dim: Dimension :: LeavesNoTrace(before.In(dim), log[i].delta.In(dim), between, dim)
  {
    var n := |log| - 1;
    var before, between, held := Replay(start, log[..i]), log[i + 1..n], log[i].delta;
    var after, without := Replay(start, log), Replay(before, between);
    ReplayConcat(start, log[..i], between);
    PairReplay(start, log, i);
    forall dim: Dimension
      ensures before.In(dim) >= 0
      ensures after.In(dim) == without.In(dim) <==> LeavesNoTrace(before.In(dim), held.In(dim), between, dim)
    {
      BeforeIsNonNegative(start, log[..i]);
      RollbackCancelsIff(before, held, between, dim);
    }
    if forall dim: Dimension :: LeavesNoTrace(before.In(dim), held.In(dim), between, dim) {
      SameUsage(after, without);
    }
  }

  lemma BeforeIsNonNegative(start: UsageEntry, log: seq<Event>)
    requires start.NonNegative()
    ensures Replay(start, log).NonNegative()
  {
    forall dim: Dimension ensures Replay(start, log).In(dim) >= 0 {
      WithinAttempts(start, log, dim);
    }
  }

  lemma PairReplay(start: UsageEntry, log: seq<Event>, i: nat)
    requires i < |log| - 1 && log[i].Checked? && log[i].granted && log[|log| - 1] == Unchecked(log[i].delta.Negate())
    ensures var n := |log| - 1;
            Replay(start, log)
            == Replay(Replay(start, log[..i]).Apply(log[i].delta), log[i + 1..n]).Apply(log[i].delta.Negate())
  {
    var n := |log| - 1;
    assert log[..n] == log[..i + 1] + log[i + 1..n];
    ReplayConcat(start, log[..i + 1], log[i + 1..n]);
    ReplayStep(start, log, i);
  }

  /** 5 bytes used; 10 are reserved, 8 released, 4 added, and the 10 taken back: 1 is left. Without the reservation it
      would be 4, since the release stops at zero. */
  lemma InterleavedRollbackDiffers(start: UsageEntry, held: ResourceDelta, release: Event, addition: Event)
    requires start == UsageEntry(5, 0, 0) && held == ResourceDelta(10, 0, 0)
    requires release == Unchecked(ResourceDelta(-8, 0, 0)) && addition == Unchecked(ResourceDelta(4, 0, 0))
    ensures Replay(start.Apply(held), [release, addition]).Apply(held.Negate()) == UsageEntry(1, 0, 0)
    ensures Replay(start, [release, addition]) == UsageEntry(4, 0, 0)
  {
    ReplayTwo(start.Apply(held), release, addition);
    ReplayTwo(start, release, addition);
  }

  lemma ReplayTwo(start: UsageEntry, a: Event, b: Event)
    ensures Replay(start, [a, b]) == After(After(start, a), b)
  {
    ReplayAppend(start, [], a);
    ReplayAppend(start, [a], b);
    assert [] + [a] == [a] && [a] + [b] == [a, b];
  }
}
