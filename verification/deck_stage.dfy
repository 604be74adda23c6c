/** The deck element, which carries out navigation and editing on its children, attributes and rail. */
module DeckStages {
  import opened Options
  import opened DeckLists
  import opened Rails
  import opened DeckOps

  class DeckStage {
    var children: seq<Node>
    var slides: seq<Node>
    var index: int
    var skip: set<Node>
    var active: set<Node>
    var last: set<Node>
    const rail: Rail

    /** Slides, last-visible mark and rail are in step with the children. */
    ghost predicate Intact()
      reads this, rail
    {
      && Distinct(children) && slides == SlidesOf(children) && Distinct(slides)
      && LastMarked(slides, skip, last)
      && rail.Consistent() && rail.Shows(slides, skip)
    }

    ghost predicate Collected()
      reads this, rail
    {
      Intact() && 0 <= index && (slides != [] ==> index < |slides|)
    }

    ghost predicate Valid()
      reads this, rail
    {
      Collected() && OneActive(slides, index, active)
    }

    /** What holds even after a failed move: one slide is active, though perhaps not the one at the index. */
    ghost predicate Sound()
      reads this, rail
    {
      Intact() && 0 <= index && OneShown(slides, active)
    }

    ghost function Now(): Fields
      reads this
    {
      Fields(slides, skip, index, active)
    }

    /** The deck looks like this from outside. */
    ghost predicate Looks(v: View)
      reads this, rail
    {
      && Intact() && 0 <= index
      && v == View(slides, skip, index, v.shown) && WellShaped(v) && OneActive(slides, v.shown, active)
    }

    lemma ValidIff(v: View)
      requires Looks(v)
      ensures Valid() <==> v.index == v.shown
    {
      OnlyActive(slides, v.shown, index, active);
    }

    constructor (children: seq<Node>, skip: set<Node>, hash: Option<nat>)
      requires Distinct(children)
      ensures Valid() && fresh(rail)
      ensures this.children == children && this.skip == skip
      ensures index == if hash.Some? && 1 <= hash.value <= |slides| then hash.value - 1 else 0
    {
      this.children, this.skip, this.slides := children, skip, [];
      this.index, this.active, this.last := 0, {}, {};
      this.rail := new Rail();
      new;
      CollectSlides();
      RestoreIndex(hash);
      ApplyIndex();
    }

    /** A one-based position in the location hash selects the slide, if there is one. */
    method RestoreIndex(hash: Option<nat>)
      requires Collected()
      modifies this`index
      ensures Collected()
      ensures index == if hash.Some? && 1 <= hash.value <= |slides| then hash.value - 1 else old(index)
    {
      if hash.Some? {
        var n: int := hash.value - 1;
        if n >= 0 && n < |slides| {
          index := n;
        }
      }
    }

    method ReadSlides()
      modifies this`slides
      ensures slides == SlidesOf(children)
    {
      slides := [];
      for k := 0 to |children|
        invariant slides == SlidesOf(children[..k])
      {
        assert children[..k + 1][..k] == children[..k];
        if children[k].slide {
          slides := slides + [children[k]];
        }
      }
      assert children[..|children|] == children;
    }

    /** Re-reads the slides from the children, keeps the index in range, and brings marks and rail up to date. */
    method CollectSlides()
      requires Distinct(children) && rail.Consistent() && 0 <= index
      modifies this`slides, this`index, this`last, rail
      ensures Collected()
      ensures index == if old(index) < |slides| then old(index) else if slides == [] then 0 else |slides| - 1
      ensures rail.nextId >= old(rail.nextId) && Reuses(old(rail.thumbs), rail.thumbs, old(rail.nextId), rail.nextId)
    {
      ReadSlides();
      SlidesOfDistinct(children);
      if index >= |slides| {
        index := if |slides| - 1 > 0 then |slides| - 1 else 0;
      }
      MarkLastVisible();
      rail.Render(slides, skip);
    }

    method MarkLastVisible()
      requires Distinct(slides)
      modifies this`last
      ensures LastMarked(slides, skip, last)
    {
      var found := -1;
      for k := 0 to |slides|
        invariant -1 <= found < k
        invariant forall m :: 0 <= m < k ==> slides[m] !in last
        invariant forall m :: found < m < k ==> slides[m] in skip
        invariant found >= 0 ==> slides[found] !in skip
      {
        last := last - {slides[k]};
        if slides[k] !in skip {
          found := k;
        }
      }
      if found >= 0 {
        last := last + {slides[found]};
      }
    }

    method ApplyIndex()
      requires Distinct(slides)
      modifies this`active
      ensures OneActive(slides, index, active)
    {
      if slides == [] {
        return;
      }
      for k := 0 to |slides|
        invariant forall m :: 0 <= m < k ==> (slides[m] in active <==> m == index)
      {
        if k == index {
          active := active + {slides[k]};
        } else {
          active := active - {slides[k]};
        }
      }
    }

    /** Brings everything in step after the children have changed. */
    method Refresh()
      requires Distinct(children) && rail.Consistent() && 0 <= index
      modifies this`slides, this`index, this`active, this`last, rail
      ensures Valid() && slides == SlidesOf(children)
      ensures index == if old(index) < |slides| then old(index) else if slides == [] then 0 else |slides| - 1
    {
      CollectSlides();
      ApplyIndex();
    }

    /** Goes to a slide; positions beyond either end mean that end. Nothing happens if the index is there already. */
    method GoTo(i: int) returns (applied: bool)
      requires Sound()
      modifies this`index, this`active
      ensures Sound() && (old(Valid()) ==> Valid())
      ensures applied <==> slides != [] && Clamped(i, |slides|) != old(index)
      ensures applied ==> Valid() && index == Clamped(i, |slides|)
      ensures slides != [] ==>
        && (0 <= i < |slides| ==> index == i) && (i < 0 ==> index == 0) && (i >= |slides| ==> index == |slides| - 1)
      ensures !applied ==> index == old(index) && active == old(active)
    {
      if slides == [] {
        return false;
      }
      var low := if |slides| - 1 < i then |slides| - 1 else i;
      var clamped := if 0 > low then 0 else low;
      if clamped == index {
        return false;
      }
      index := clamped;
      ApplyIndex();
      return true;
    }

    /** The first position beyond the index, in direction dir, that holds no skipped slide; possibly past the end. */
    method SkipPast(dir: int) returns (i: int)
      requires 0 <= index && (dir == 1 || dir == -1)
      ensures Beyond(index, dir == 1, i)
      ensures index > |slides| ==> i >= |slides|
      ensures i == StepFrom(slides, skip, index, dir == 1)
      ensures forall k :: 0 <= k < |slides| && Beyond(index, dir == 1, k) && Beyond(k, dir == 1, i) ==>
        slides[k] in skip
      ensures 0 <= i < |slides| ==> slides[i] !in skip
    {
      i := index + dir;
      while i >= 0 && i < |slides| && slides[i] in skip
        invariant Beyond(index, dir == 1, i) && (index > |slides| ==> i >= |slides|)
        invariant Nearest(slides, skip, i, dir == 1) == StepFrom(slides, skip, index, dir == 1)
        invariant forall k :: 0 <= k < |slides| && Beyond(index, dir == 1, k) && Beyond(k, dir == 1, i) ==>
          slides[k] in skip
        decreases if dir == 1 then |slides| - i else i + 1
      {
        i := i + dir;
      }
    }

    /** Steps forward or back over skipped slides; with nothing further in that direction it stays. */
    method AdvanceBy(dir: int) returns (applied: bool)
      requires Sound() && (dir == 1 || dir == -1)
      modifies this`index, this`active
      ensures Sound() && (old(Valid()) ==> Valid())
      ensures old(index) <= |slides| ==> StepsTo(slides, skip, old(index), dir == 1, index)
      ensures applied <==> 0 <= StepFrom(slides, skip, old(index), dir == 1) < |slides|
      ensures applied ==> Valid() && index == StepFrom(slides, skip, old(index), dir == 1)
      ensures !applied ==> index == old(index) && active == old(active)
    {
      if slides == [] {
        return false;
      }
      var i := SkipPast(dir);
      if i < 0 || i >= |slides| {
        return false;
      }
      applied := GoTo(i);
    }

    /** Puts the index where the active slide will be once slide i is at j. */
    method FollowActive(i: nat, j: nat)
      modifies this`index
      ensures index == IndexAfterMove(old(index), i, j)
    {
      var cur := index;
      if cur == i {
        index := j;
      } else if i < cur && j >= cur {
        index := cur - 1;
      } else if i > cur && j <= cur {
        index := cur + 1;
      }
    }

    /** Puts the child at its new place, and the index where the active slide will be. */
    method Reinsert(i: nat, j: nat)
      requires Distinct(children) && slides == SlidesOf(children) && i < |slides| && j < |slides| && i != j
      modifies this`children, this`index
      ensures Distinct(children) && multiset(children) == multiset(old(children))
      ensures SlidesOf(children) == ListMove(slides, i, j)
      ensures index == IndexAfterMove(old(index), i, j)
    {
      MoveMovesSlide(children, i, j);
      var slide := slides[i];
      var ref := if j < i then Some(slides[j]) else NextSibling(children, slides[j]);
      FollowActive(i, j);
      children := InsertBefore(children, slide, ref);
    }

    /** Moves slide i to position j by reordering the children; out-of-range targets are ignored. If slide i does not
        exist any more, the index is adjusted before the insertion fails, and the active slide stays. */
    method MoveSlide(i: nat, j: int) returns (threw: bool, applied: bool)
      requires Sound()
      modifies this`children, this`slides, this`index, this`active, this`last, rail
      ensures Sound() && |slides| == |old(slides)|
      ensures threw <==> |old(slides)| <= i && 0 <= j < |old(slides)|
      ensures applied <==> i < |old(slides)| && 0 <= j < |old(slides)| && i != j
      ensures applied ==>
        && Valid() && multiset(children) == multiset(old(children)) && slides == ListMove(old(slides), i, j)
        && index == Clamped(IndexAfterMove(old(index), i, j), |slides|)
        && (old(index) < |old(slides)| ==> slides[index] == old(slides)[old(index)])
      ensures !applied ==>
        && children == old(children) && slides == old(slides) && active == old(active)
        && index == if threw then IndexAfterMove(old(index), i, j) else old(index)
    {
      if j < 0 || j >= |slides| || j == i {
        return false, false;
      }
      if i >= |slides| {
        FollowActive(i, j);
        return true, false;
      }
      if index < |slides| {
        MoveKeepsActive(slides, index, i, j);
      }
      Reinsert(i, j);
      Refresh();
      return false, true;
    }

    /** Takes a slide out of the children, and puts the index where the next active slide will be. */
    method TakeOut(i: nat)
      requires Distinct(children) && slides == SlidesOf(children) && i < |slides|
      modifies this`children, this`index
      ensures Distinct(children) && children == Without(old(children), slides[i])
      ensures SlidesOf(children) == RemoveAt(slides, i)
      ensures index == IndexAfterDelete(old(index), i, |slides|)
    {
      ghost var k := StandsAtPlace(children, i);
      SlidesOfRemoveAt(children, k);
      RemoveAtDistinct(children, k);
      IndexOfDistinct(children, k);
      var wasCurrent := i == index;
      if i < index || (wasCurrent && i == |slides| - 1) {
        index := index - 1;
      }
      children := Without(children, slides[i]);
    }

    /** Deletes a slide, unless there is none at i or it is the only one. The active slide stays active; if it is the
        one
        deleted, the next one takes its place, or the one before if there is no next. */
    method DeleteSlide(i: int) returns (applied: bool)
      requires Sound()
      modifies this`children, this`slides, this`index, this`active, this`last, rail
      ensures Sound() && (old(Valid()) ==> Valid())
      ensures applied <==> 0 <= i < |old(slides)| && |old(slides)| > 1
      ensures !applied ==>
        children == old(children) && slides == old(slides) && index == old(index) && active == old(active)
      ensures applied ==>
        && Valid() && slides == RemoveAt(old(slides), i) && children == Without(old(children), old(slides)[i])
        && index == Clamped(IndexAfterDelete(old(index), i, |old(slides)|), |slides|)
        && (old(index) < |old(slides)| ==> slides[index] == ActiveAfterDelete(old(slides), old(index), i))
      ensures old(slides) != [] ==> slides != []
    {
      if i < 0 || i >= |slides| || |slides| <= 1 {
        return false;
      }
      if index < |slides| {
        DeleteKeepsActive(slides, index, i);
      }
      TakeOut(i);
      Refresh();
      return true;
    }

    /** Flips whether a slide is skipped, on the slide and on its thumb. */
    method ToggleSkip(i: int)
      requires Sound()
      modifies this`skip, this`last, rail`thumbs
      ensures Sound() && (old(Valid()) ==> Valid())
      ensures skip == SkipAfter(Skip(i), slides, old(skip))
      ensures 0 <= i < |slides| ==> (slides[i] in skip <==> slides[i] !in old(skip))
      ensures forall x :: !(0 <= i < |slides| && x == slides[i]) ==> (x in skip <==> x in old(skip))
    {
      if i < 0 || i >= |slides| {
        return;
      }
      var on := slides[i] !in skip;
      if on {
        skip := skip + {slides[i]};
      } else {
        skip := skip - {slides[i]};
      }
      ghost var before := rail.thumbs;
      rail.thumbs := rail.thumbs[i := rail.thumbs[i].(skipped := on)];
      assert ThumbsOf(rail.thumbs) == ThumbsOf(before);
      MarkLastVisible();
    }

    /** Moves the slide at the dragged position to where the drop arithmetic says, which is a gap. */
    method MoveDropped(dragged: nat, to: int, ghost target: nat, ghost lower: bool) returns (applied: bool)
      requires Sound() && dragged < |slides| && target < |slides| && to == DropPosition(dragged, target, lower)
      modifies this`children, this`slides, this`index, this`active, this`last, rail
      ensures Sound() && multiset(children) == multiset(old(children)) && |slides| == |old(slides)|
      ensures PutIntoGap(old(slides), slides, dragged, if lower then target + 1 else target)
      ensures old(index) < |old(slides)| ==> index < |slides| && slides[index] == old(slides)[old(index)]
      ensures applied <==> to != dragged
      ensures applied ==>
        && Valid() && index == Clamped(IndexAfterMove(old(index), dragged, DropPosition(dragged, target, lower)), |slides|)
        && slides == ListMove(old(slides), dragged, DropPosition(dragged, target, lower))
      ensures !applied ==> slides == old(slides) && index == old(index) && active == old(active)
    {
      DropFillsGap(slides, dragged, target, lower);
      if to != dragged {
        var _, moved := MoveSlide(dragged, to);
        applied := moved;
      } else {
        MoveToOwnPlace(slides, dragged);
        applied := false;
      }
    }

    /** Drops on the upper or lower half of the thumb at `target`. `dragged` is the position that was taken when the
        drag
        began: the slide that is there now goes into the gap before or after the target. */
    method DropOn(dragged: nat, target: nat, lower: bool) returns (applied: bool)
      requires Sound() && dragged < |slides| && target < |slides|
      modifies this`children, this`slides, this`index, this`active, this`last, rail
      ensures Sound() && multiset(children) == multiset(old(children)) && |slides| == |old(slides)|
      ensures PutIntoGap(old(slides), slides, dragged, if lower then target + 1 else target)
      ensures old(index) < |old(slides)| ==> index < |slides| && slides[index] == old(slides)[old(index)]
      ensures applied <==> DropPosition(dragged, target, lower) != dragged
      ensures applied ==>
        && Valid() && index == Clamped(IndexAfterMove(old(index), dragged, DropPosition(dragged, target, lower)), |slides|)
        && slides == ListMove(old(slides), dragged, DropPosition(dragged, target, lower))
      ensures !applied ==> slides == old(slides) && index == old(index) && active == old(active)
    {
      var to: int := if lower then target + 1 else target;
      if dragged < to {
        to := to - 1;
      }
      applied := MoveDropped(dragged, to, target, lower);
    }

    /** The position that was dragged has no slide any more when the drop comes: nothing moves, but a drop that would
        have passed the indexed slide changes the index. */
    method DropStale(dragged: nat, target: nat, lower: bool) returns (threw: bool)
      requires Sound() && |slides| <= dragged && target < |slides|
      modifies this`children, this`slides, this`index, this`active, this`last, rail
      ensures Sound() && children == old(children) && slides == old(slides) && active == old(active)
      ensures var to := if lower then target + 1 else target;
              && (threw <==> to < |slides|)
              && index == (if threw then IndexAfterMove(old(index), dragged, to) else old(index))
    {
      var to := if lower then target + 1 else target;
      if to != dragged {
        var failed, _ := MoveSlide(dragged, to);
        threw := failed;
      } else {
        threw := false;
      }
    }

    /** A drop, whether or not the dragged position still has a slide. It always comes on a thumb that is there. */
    method DropAny(dragged: nat, target: nat, lower: bool) returns (threw: bool, applied: bool)
      requires Sound()
      modifies this`children, this`slides, this`index, this`active, this`last, rail
      ensures Sound() && (applied ==> Valid())
      ensures Did(Drop(dragged, target, lower), old(Now()), Now(), threw, applied)
    {
      threw, applied := false, false;
      if target < |slides| {
        if dragged < |slides| {
          applied := DropOn(dragged, target, lower);
        } else {
          threw := DropStale(dragged, target, lower);
        }
      }
    }

    method Edit(op: Op) returns (threw: bool, applied: bool)
      requires Sound() && (op.Move? || op.Delete?)
      modifies this`children, this`slides, this`index, this`active, this`last, rail
      ensures Sound() && (applied ==> Valid())
      ensures Did(op, old(Now()), Now(), threw, applied)
    {
      if op.Move? {
        threw, applied := MoveSlide(op.from, op.to);
      } else {
        threw := false;
        applied := DeleteSlide(op.i);
      }
    }

    /** One user operation does to slides, skip marks and index what its functions say. */
    method Act(op: Op) returns (threw: bool, applied: bool)
      requires Sound() && slides != []
      modifies this, rail
      ensures Sound() && (applied ==> Valid())
      ensures Did(op, old(Now()), Now(), threw, applied)
    {
      threw, applied := false, false;
      match op {
        case Go(i) => applied := GoTo(i);
        case Advance(forward) => applied := AdvanceBy(if forward then 1 else -1);
        case Skip(i) => ToggleSkip(i);
        case Drop(dragged, target, lower) => threw, applied := DropAny(dragged, target, lower);
        case _ => threw, applied := Edit(op);
      }
    }

    /** One user operation on a deck, and when it leaves the deck valid. */
    method Do(op: Op, ghost v: View) returns (threw: bool)
      requires Looks(v)
      modifies this, rail
      ensures Looks(AfterOp(v, op))
      ensures threw <==> Stale(op, |v.slides|)
      ensures Valid() <==> AfterOp(v, op).index == AfterOp(v, op).shown
      ensures old(Valid()) ==> (Valid() <==> !(Stale(op, |v.slides|) && Slot(op) <= v.index))
    {
      ghost var wasValid := Valid();
      ValidIff(v);
      ShapeStep(v, op);
      var applied;
      threw, applied := Act(op);
      ValidIff(AfterOp(v, op));
      if wasValid {
        InStepIff(v, op);
      }
    }

    /** A sequence of user operations makes of the deck what the functions say. */
    method DoAll(ops: seq<Op>, ghost start: View) returns (threw: seq<bool>)
      requires Looks(start)
      modifies this, rail
      ensures Looks(AfterAll(start, ops)) && FailuresAre(threw, ops, |start.slides|)
    {
      threw := [];
      for k := 0 to |ops|
        invariant Looks(AfterAll(start, ops[..k]))
        invariant FailuresAre(threw, ops[..k], |start.slides|)
      {
        ShapeStays(start, ops[..k]);
        var failed := Do(ops[k], AfterAll(start, ops[..k]));
        FailuresStep(threw, ops[..k], |start.slides|, failed, ops[k]);
        threw := threw + [failed];
        assert ops[..k + 1] == ops[..k] + [ops[k]];
      }
      assert ops[..|ops|] == ops;
    }

    /** After any sequence of user operations the deck looks as the functions say, and it is valid exactly if they put the
        index on the active slide: in particular if no operation moved a missing slide. */
    method Perform(ops: seq<Op>) returns (threw: seq<bool>)
      requires Valid() && slides != []
      modifies this, rail
      ensures var end := AfterAll(View(old(slides), old(skip), old(index), old(index)), ops);
              Looks(end) && (Valid() <==> end.index == end.shown)
      ensures NoneStale(ops, |old(slides)|) ==> Valid()
      ensures FailuresAre(threw, ops, |old(slides)|)
    {
      ghost var start := View(slides, skip, index, index);
      threw := DoAll(ops, start);
      ValidIff(AfterAll(start, ops));
      if NoneStale(ops, |start.slides|) {
        StaysInStep(start, ops);
      }
    }
  }

  lemma ThreeSlides(a: Node, b: Node, c: Node)
    requires a.slide && b.slide && c.slide
    ensures SlidesOf([a, b, c]) == [a, b, c]
  {
    SlidesOfAppend([a, b], [c]);
    SlidesOfAppend([a], [b]);
    assert [a, b] + [c] == [a, b, c] && [a] + [b] == [a, b];
    assert SlidesOf([a]) == [a] && SlidesOf([b]) == [b] && SlidesOf([c]) == [c];
  }

  /** Three slides, the second one active. While the third is dragged it is deleted; dropping it on the first leaves the
      index at 2 in a deck of two. */
  method StaleDragLosesIndex(a: Node, b: Node, c: Node) returns (threw: bool, index: int, count: nat)
    requires a.slide && b.slide && c.slide && Distinct([a, b, c])
    ensures threw && index == 2 && count == 2
  {
    ThreeSlides(a, b, c);
    var deck := new DeckStage([a, b, c], {}, Some(2));
    var _ := deck.DeleteSlide(2);
    threw := deck.DropStale(2, 0, false);
    index, count := deck.index, |deck.slides|;
  }
}
