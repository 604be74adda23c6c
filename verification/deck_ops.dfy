/** What navigation and editing do to the slides, the index and the active slide of a deck, as functions. */
module DeckOps {
  import opened DeckLists

  /** Exactly the slide at the index carries the active attribute. */
  ghost predicate OneActive(slides: seq<Node>, index: int, active: set<Node>) {
    forall k :: 0 <= k < |slides| ==> (slides[k] in active <==> k == index)
  }

  ghost predicate OneShown(slides: seq<Node>, active: set<Node>) {
    slides != [] ==> exists p :: 0 <= p < |slides| && OneActive(slides, p, active)
  }

  lemma OnlyActive(slides: seq<Node>, p: nat, q: int, active: set<Node>)
    requires p < |slides| && OneActive(slides, p, active)
    ensures OneActive(slides, q, active) ==> p == q
  {
    assert slides[p] in active;
  }

  /** Exactly the last slide that is not skipped carries the last-visible attribute. */
  ghost predicate LastMarked(slides: seq<Node>, skip: set<Node>, last: set<Node>) {
    forall k :: 0 <= k < |slides| ==>
      (slides[k] in last <==> slides[k] !in skip && forall m :: k < m < |slides| ==> slides[m] in skip)
  }

  /** Where the active slide goes when slide i moves to j. */
  function IndexAfterMove(index: int, i: int, j: int): int {
    if index == i then j
    else if i < index && j >= index then index - 1
    else if i > index && j <= index then index + 1
    else index
  }

  /** The same slide stays active when any slide moves. */
  lemma MoveKeepsActive<T>(slides: seq<T>, index: nat, i: nat, j: nat)
    requires index < |slides| && i < |slides| && j < |slides|
    ensures 0 <= IndexAfterMove(index, i, j) < |slides| == |ListMove(slides, i, j)|
    ensures ListMove(slides, i, j)[IndexAfterMove(index, i, j)] == slides[index]
  {
  }

  /** Where the active slide is once slide i is deleted; the last one gives way to the one before it. */
  function IndexAfterDelete(index: int, i: int, count: int): int {
    if i < index || (i == index && i == count - 1) then index - 1 else index
  }

  /** The slide to be active once slide i is deleted: the same one, or a neighbour if it is the one deleted. */
  function ActiveAfterDelete<T>(slides: seq<T>, index: nat, i: nat): T
    requires index < |slides| && i < |slides| && |slides| > 1
  {
    if i != index then slides[index] else if i + 1 < |slides| then slides[i + 1] else slides[i - 1]
  }

  /** Deleting another slide keeps the active one; deleting the active one makes its neighbour active. */
  lemma DeleteKeepsActive<T>(slides: seq<T>, index: nat, i: nat)
    requires index < |slides| && i < |slides| && |slides| > 1
    ensures 0 <= IndexAfterDelete(index, i, |slides|) < |RemoveAt(slides, i)|
    ensures RemoveAt(slides, i)[IndexAfterDelete(index, i, |slides|)] == ActiveAfterDelete(slides, index, i)
  {
  }

  /** The next slide takes the place of a deleted active one, or the previous one if there is no next. */
  lemma NeighbourTakesOver<T>(slides: seq<T>, index: nat, i: nat)
    requires index < |slides| && i < |slides| && |slides| > 1
    ensures 0 <= IndexAfterDelete(index, i, |slides|) < |RemoveAt(slides, i)|
    ensures i != index ==> RemoveAt(slides, i)[IndexAfterDelete(index, i, |slides|)] == slides[index]
    ensures i == index && i + 1 < |slides| ==> RemoveAt(slides, i)[IndexAfterDelete(index, i, |slides|)] == slides[i + 1]
    ensures i == index && i + 1 == |slides| ==> RemoveAt(slides, i)[IndexAfterDelete(index, i, |slides|)] == slides[i - 1]
  {
  }

  lemma MoveToOwnPlace<T>(slides: seq<T>, i: nat)
    requires i < |slides|
    ensures ListMove(slides, i, i) == slides
  {
  }

  /** Where a slide dropped on the upper or lower half of slide `target` goes, once it has left its own place. */
  function DropPosition(from: int, target: int, lower: bool): int {
    var to := if lower then target + 1 else target;
    if from < to then to - 1 else to
  }

  /** One slide was taken out of its place and put into a gap: all slides that were before the gap come before it, all
      others after it, each in their old order. */
  ghost predicate PutIntoGap(before: seq<Node>, after: seq<Node>, from: nat, gap: nat)
    requires from < |before| && gap <= |before|
  {
    after == Without(before[..gap], before[from]) + [before[from]] + Without(before[gap..], before[from])
  }

  /** A drop puts the dragged slide into the gap it points at. */
  lemma DropFillsGap(slides: seq<Node>, from: nat, target: nat, lower: bool)
    requires Distinct(slides) && from < |slides| && target < |slides|
    ensures var gap, to := if lower then target + 1 else target, DropPosition(from, target, lower);
            && 0 <= to < |slides|
            && PutIntoGap(slides, ListMove(slides, from, to), from, gap)
  {
    var gap := if lower then target + 1 else target;
    if from < gap {
      MoveDown(slides, from, gap);
    } else {
      MoveUp(slides, from, gap);
    }
  }

  lemma MoveDown(slides: seq<Node>, from: nat, gap: nat)
    requires Distinct(slides) && from < gap <= |slides|
    ensures PutIntoGap(slides, ListMove(slides, from, gap - 1), from, gap)
  {
    var head, rest := slides[..gap], RemoveAt(slides, from);
    WithoutAt(head, from);
    assert slides[from] !in slides[gap..];
    assert rest[..gap - 1] == RemoveAt(head, from);
    assert rest[gap - 1..] == slides[gap..];
  }

  lemma MoveUp(slides: seq<Node>, from: nat, gap: nat)
    requires Distinct(slides) && gap <= from < |slides|
    ensures PutIntoGap(slides, ListMove(slides, from, gap), from, gap)
  {
    var tail, rest := slides[gap..], RemoveAt(slides, from);
    WithoutAt(tail, from - gap);
    assert slides[from] !in slides[..gap];
    assert rest[..gap] == slides[..gap];
    assert rest[gap..] == RemoveAt(tail, from - gap);
  }

  /** Position k lies beyond position i in the given direction. */
  predicate Beyond(i: int, forward: bool, k: int) {
    if forward then k > i else k < i
  }

  /** Stepping from a slide in a direction: to the nearest slide that is not skipped, or nowhere. */
  ghost predicate StepsTo(slides: seq<Node>, skip: set<Node>, from: int, forward: bool, to: int) {
    if to == from then forall k :: 0 <= k < |slides| && Beyond(from, forward, k) ==> slides[k] in skip
    else
      && 0 <= to < |slides| && Beyond(from, forward, to) && slides[to] !in skip
      && forall k :: 0 <= k < |slides| && Beyond(from, forward, k) && Beyond(k, forward, to) ==> slides[k] in skip
  }

  /** From a slide that is shown, a step that goes somewhere is undone by a step in the other direction. */
  lemma StepBack(slides: seq<Node>, skip: set<Node>, from: nat, forward: bool, to: int, back: int)
    requires from < |slides| && slides[from] !in skip
    requires StepsTo(slides, skip, from, forward, to) && to != from
    requires StepsTo(slides, skip, to, !forward, back)
    ensures back == from
  {
    assert Beyond(to, !forward, from);
  }

  datatype Op = Go(i: int) | Advance(forward: bool) | Move(from: nat, to: int) | Delete(i: int) | Skip(i: int)
    | Drop(dragged: nat, target: nat, lower: bool)

  /** The operation moves a slide that does not exist to a position that does. */
  predicate Stale(op: Op, count: nat) {
    (op.Move? || op.Drop?) && count <= Source(op) && 0 <= Slot(op) < count
  }

  /** The position the operation moves a slide from. */
  function Source(op: Op): nat {
    match op
    case Move(from, _) => from
    case Drop(dragged, _, _) => dragged
    case _ => 0
  }

  /** The position or gap it moves the slide to. */
  function Slot(op: Op): int {
    match op
    case Move(_, to) => to
    case Drop(_, target, lower) => if lower then target + 1 else target
    case _ => 0
  }

  function Clamped(i: int, count: nat): int {
    if i < 0 then 0 else if i >= count then count - 1 else i
  }

  /** The first position from i on, in a direction, that holds no skipped slide; possibly beyond either end. */
  function Nearest(slides: seq<Node>, skip: set<Node>, i: int, forward: bool): int
    decreases if forward then |slides| - i else i
  {
    if 0 <= i < |slides| && slides[i] in skip then Nearest(slides, skip, if forward then i + 1 else i - 1, forward) else i
  }

  function StepFrom(slides: seq<Node>, skip: set<Node>, index: int, forward: bool): int {
    Nearest(slides, skip, if forward then index + 1 else index - 1, forward)
  }

  /** The operation makes the indexed slide the active one. */
  predicate Applies(op: Op, slides: seq<Node>, skip: set<Node>, index: int) {
    match op
    case Go(i) => slides != [] && Clamped(i, |slides|) != index
    case Advance(forward) => 0 <= StepFrom(slides, skip, index, forward) < |slides|
    case Move(from, to) => from < |slides| && 0 <= to < |slides| && from != to
    case Delete(i) => 0 <= i < |slides| && |slides| > 1
    case Skip(_) => false
    case Drop(dragged, target, lower) =>
      dragged < |slides| && target < |slides| && DropPosition(dragged, target, lower) != dragged
  }

  function SlidesAfter(op: Op, slides: seq<Node>, skip: set<Node>, index: int): seq<Node> {
    if !Applies(op, slides, skip, index) then slides
    else
      match op
      case Move(from, to) => ListMove(slides, from, to)
      case Delete(i) => RemoveAt(slides, i)
      case Drop(dragged, target, lower) => ListMove(slides, dragged, DropPosition(dragged, target, lower))
      case _ => slides
  }

  function SkipAfter(op: Op, slides: seq<Node>, skip: set<Node>): set<Node> {
    if !op.Skip? || op.i < 0 || op.i >= |slides| then skip
    else if slides[op.i] in skip then skip - {slides[op.i]} else skip + {slides[op.i]}
  }

  /** A move changes the index even if the slide to be moved does not exist. */
  function IndexAfter(op: Op, slides: seq<Node>, skip: set<Node>, index: int): int {
    if Stale(op, |slides|) then IndexAfterMove(index, Source(op), Slot(op))
    else if !Applies(op, slides, skip, index) then index
    else
      match op
      case Go(i) => Clamped(i, |slides|)
      case Advance(forward) => StepFrom(slides, skip, index, forward)
      case Move(from, to) => Clamped(IndexAfterMove(index, from, to), |slides|)
      case Delete(i) => Clamped(IndexAfterDelete(index, i, |slides|), |slides| - 1)
      case Skip(_) => index
      case Drop(dragged, target, lower) =>
        Clamped(IndexAfterMove(index, dragged, DropPosition(dragged, target, lower)), |slides|)
  }

  /** A failed move of a missing slide puts the index of a valid deck off exactly when it aims at the active slide or
      before it. */
  lemma StaleSpoilsIff(op: Op, index: nat, count: nat)
    requires Stale(op, count) && index < count
    ensures IndexAfterMove(index, Source(op), Slot(op)) == index <==> index < Slot(op)
  {
  }

  // ----- positions taken when a drag begins -----

  /** After a deletion, a position holds the same slide exactly when it lies before the deleted one. */
  lemma DeletionKeepsPositionIff(slides: seq<Node>, i: nat, dragged: nat)
    requires Distinct(slides) && i < |slides| && dragged < |slides| - 1
    ensures RemoveAt(slides, i)[dragged] == slides[dragged] <==> dragged < i
  {
  }

  /** After a move, a position holds the same slide exactly when it lies outside the stretch that was moved. */
  lemma MoveKeepsPositionIff(slides: seq<Node>, i: nat, j: nat, dragged: nat)
    requires Distinct(slides) && i < |slides| && j < |slides| && i != j && dragged < |slides|
    ensures ListMove(slides, i, j)[dragged] == slides[dragged]
            <==> (dragged < i && dragged < j) || (dragged > i && dragged > j)
  {
    var moved := ListMove(slides, i, j);
    if i <= dragged < j {
      assert moved[dragged] == slides[dragged + 1];
    } else if j < dragged <= i {
      assert moved[dragged] == slides[dragged - 1];
    } else if dragged == j {
      assert moved[dragged] == slides[i];
    }
  }

  /** The fields of a deck that operations change. */
  datatype Fields = Fields(slides: seq<Node>, skip: set<Node>, index: int, active: set<Node>)

  /** An operation did to a deck what its functions say: whether it failed, whether it made the indexed slide active,
      and what became of slides, skip marks and index. */
  ghost predicate Did(op: Op, before: Fields, after: Fields, threw: bool, applied: bool) {
    && (threw <==> Stale(op, |before.slides|))
    && (applied <==> Applies(op, before.slides, before.skip, before.index))
    && (applied || after.active == before.active)
    && after.slides == SlidesAfter(op, before.slides, before.skip, before.index)
    && after.skip == SkipAfter(op, before.slides, before.skip)
    && after.index == IndexAfter(op, before.slides, before.skip, before.index)
  }

  // ----- runs -----

  /** What a deck looks like from outside: `shown` is the position of the slide that is active, which should be the one
      at the index. */
  datatype View = View(slides: seq<Node>, skip: set<Node>, index: int, shown: int)

  function AfterOp(v: View, op: Op): View {
    var index := IndexAfter(op, v.slides, v.skip, v.index);
    View(SlidesAfter(op, v.slides, v.skip, v.index), SkipAfter(op, v.slides, v.skip), index,
         if Applies(op, v.slides, v.skip, v.index) then index else v.shown)
  }

  function AfterAll(v: View, ops: seq<Op>): View {
    if ops == [] then v else AfterOp(AfterAll(v, ops[..|ops| - 1]), ops[|ops| - 1])
  }

  /** How many slides there are after an operation; only deletions change that. */
  function CountOf(op: Op, count: nat): nat {
    if op.Delete? && 0 <= op.i < count && count > 1 then count - 1 else count
  }

  function CountAfter(ops: seq<Op>, count: nat): nat {
    if ops == [] then count else CountOf(ops[|ops| - 1], CountAfter(ops[..|ops| - 1], count))
  }

  ghost predicate WellShaped(v: View) {
    v.slides != [] && 0 <= v.index && 0 <= v.shown < |v.slides|
  }

  /** An operation leaves some slide active, and removes at most the one it deletes. */
  lemma ShapeStep(v: View, op: Op)
    requires WellShaped(v)
    ensures WellShaped(AfterOp(v, op)) && |AfterOp(v, op).slides| == CountOf(op, |v.slides|)
  {
  }

  /** Going somewhere ends at the position asked for, or at the end nearest to it. */
  lemma GoesToNearest(v: View, i: int)
    requires v.slides != []
    ensures var index := AfterOp(v, Go(i)).index;
            && (0 <= i < |v.slides| ==> index == i) && (i < 0 ==> index == 0)
            && (i >= |v.slides| ==> index == |v.slides| - 1)
  {
  }

  /** Stepping goes to the nearest slide in its direction that is not skipped, or nowhere. */
  lemma {:induction false} NearestIs(slides: seq<Node>, skip: set<Node>, i: int, forward: bool)
    ensures var n := Nearest(slides, skip, i, forward);
            && (n == i || Beyond(i, forward, n))
            && (0 <= n < |slides| ==> slides[n] !in skip)
            && forall k :: 0 <= k < |slides| && (k == i || Beyond(i, forward, k)) && Beyond(k, forward, n) ==>
                 slides[k] in skip
    decreases if forward then |slides| - i else i
  {
    if 0 <= i < |slides| && slides[i] in skip {
      NearestIs(slides, skip, if forward then i + 1 else i - 1, forward);
    }
  }

  /** Skipping flips the mark of its slide and no other, so doing it twice changes nothing. */
  lemma SkipTwice(slides: seq<Node>, skip: set<Node>, i: int)
    ensures SkipAfter(Skip(i), slides, SkipAfter(Skip(i), slides, skip)) == skip
    ensures 0 <= i < |slides| ==> (slides[i] in SkipAfter(Skip(i), slides, skip) <==> slides[i] !in skip)
    ensures forall x :: !(0 <= i < |slides| && x == slides[i]) ==> (x in SkipAfter(Skip(i), slides, skip) <==> x in skip)
  {
  }

  /** From a deck whose active slide is the indexed one, an operation leaves it so exactly if it does not move a missing
      slide to the active position or before it. */
  lemma InStepIff(v: View, op: Op)
    requires WellShaped(v) && v.index == v.shown
    ensures AfterOp(v, op).index == AfterOp(v, op).shown <==> !(Stale(op, |v.slides|) && Slot(op) <= v.index)
  {
    if Stale(op, |v.slides|) {
      StaleSpoilsIff(op, v.index, |v.slides|);
    }
  }

  /** However far off the index is, an operation that makes the indexed slide active brings it back. */
  lemma ApplyingRepairs(v: View, op: Op)
    requires WellShaped(v) && Applies(op, v.slides, v.skip, v.index)
    ensures AfterOp(v, op).index == AfterOp(v, op).shown
  {
  }

  lemma {:induction false} ShapeStays(v: View, ops: seq<Op>)
    requires WellShaped(v)
    ensures WellShaped(AfterAll(v, ops)) && |AfterAll(v, ops).slides| == CountAfter(ops, |v.slides|)
  {
    if ops != [] {
      ShapeStays(v, ops[..|ops| - 1]);
      ShapeStep(AfterAll(v, ops[..|ops| - 1]), ops[|ops| - 1]);
    }
  }

  /** Which operations of a sequence fail: those that move a slide which is missing by then. */
  ghost predicate FailuresAre(threw: seq<bool>, ops: seq<Op>, count: nat) {
    && |threw| == |ops|
    && forall k :: 0 <= k < |ops| ==> (threw[k] <==> Stale(ops[k], CountAfter(ops[..k], count)))
  }

  lemma FailuresStep(threw: seq<bool>, ops: seq<Op>, count: nat, failed: bool, op: Op)
    requires FailuresAre(threw, ops, count) && (failed <==> Stale(op, CountAfter(ops, count)))
    ensures FailuresAre(threw + [failed], ops + [op], count)
  {
    var more := ops + [op];
    assert forall k :: 0 <= k <= |ops| ==> more[..k] == ops[..k];
    assert ops[..|ops|] == ops;
  }

  /** No operation of the sequence moves a slide that is missing by then. */
  ghost predicate NoneStale(ops: seq<Op>, count: nat) {
    forall k :: 0 <= k < |ops| ==> !Stale(ops[k], CountAfter(ops[..k], count))
  }

  /** Without such operations the active slide is the indexed one after any sequence. */
  lemma {:induction false} StaysInStep(v: View, ops: seq<Op>)
    requires WellShaped(v) && v.index == v.shown && NoneStale(ops, |v.slides|)
    ensures AfterAll(v, ops).index == AfterAll(v, ops).shown
  {
    if ops != [] {
      var n := |ops| - 1;
      assert forall k :: 0 <= k < n ==> ops[..n][k] == ops[k] && ops[..n][..k] == ops[..k];
      StaysInStep(v, ops[..n]);
      ShapeStays(v, ops[..n]);
      InStepIff(AfterAll(v, ops[..n]), ops[n]);
    }
  }
}
