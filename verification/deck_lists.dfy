/** The child list of a deck, its slides, and what moving one child does to both. */
module DeckLists {
  import opened Options

  /** A child node of the deck element. Text, template, style and script nodes are not slides. */
  datatype Node = Node(id: nat, slide: bool)

  ghost predicate Distinct<T>(s: seq<T>) {
    forall i, j :: 0 <= i < j < |s| ==> s[i] != s[j]
  }

  function SlidesOf(children: seq<Node>): seq<Node> {
    if children == [] then []
    else
      var front, last := SlidesOf(children[..|children| - 1]), children[|children| - 1];
      if last.slide then front + [last] else front
  }

  /** The first position of an element from position k on. */
  function IndexFrom<T(==)>(s: seq<T>, x: T, k: nat): (r: nat)
    requires exists j :: k <= j < |s| && s[j] == x
    ensures k <= r < |s| && s[r] == x && forall j :: k <= j < r ==> s[j] != x
    decreases |s| - k
  {
    if s[k] == x then k else IndexFrom(s, x, k + 1)
  }

  function IndexOf<T(==)>(s: seq<T>, x: T): (r: nat)
    requires x in s
    ensures r < |s| && s[r] == x && forall j :: 0 <= j < r ==> s[j] != x
  {
    IndexFrom(s, x, 0)
  }

  function RemoveAt<T>(s: seq<T>, k: nat): seq<T>
    requires k < |s|
  {
    s[..k] + s[k + 1..]
  }

  function InsertAt<T>(s: seq<T>, k: nat, x: T): seq<T>
    requires k <= |s|
  {
    s[..k] + [x] + s[k..]
  }

  function Without<T(==)>(s: seq<T>, x: T): seq<T> {
    if x in s then RemoveAt(s, IndexOf(s, x)) else s
  }

  function NextSibling(children: seq<Node>, x: Node): Option<Node>
    requires x in children
  {
    var k := IndexOf(children, x);
    if k + 1 < |children| then Some(children[k + 1]) else None
  }

  /** The DOM's insertBefore: the node leaves its place and goes before the reference child, or to the end. A node that
      is
      its own reference goes before its next sibling. */
  function InsertBefore<T(==)>(children: seq<T>, node: T, ref: Option<T>): seq<T>
    requires ref.Some? ==> ref.value in children
  {
    if ref.Some? && ref.value == node then children
    else
      var rest := Without(children, node);
      if ref.Some? then
        WithoutKeeps(children, node, ref.value);
        InsertAt(rest, IndexOf(rest, ref.value), node)
      else
        rest + [node]
  }

  /** The list with element i taken out and put at position j. */
  function ListMove<T>(s: seq<T>, i: nat, j: nat): seq<T>
    requires i < |s| && j < |s|
  {
    InsertAt(RemoveAt(s, i), j, s[i])
  }

  /** A removed element is gone, and the others close the gap. */
  lemma RemovedIs<T>(s: seq<T>, i: nat)
    requires i < |s|
    ensures |RemoveAt(s, i)| == |s| - 1
    ensures forall k :: 0 <= k < |s| - 1 ==> RemoveAt(s, i)[k] == if k < i then s[k] else s[k + 1]
  {
  }

  /** A moved element is where it was moved to, and the others keep their order. */
  lemma MovedIs<T>(s: seq<T>, i: nat, j: nat)
    requires i < |s| && j < |s|
    ensures |ListMove(s, i, j)| == |s| && ListMove(s, i, j)[j] == s[i]
    ensures RemoveAt(ListMove(s, i, j), j) == RemoveAt(s, i)
  {
    var rest := RemoveAt(s, i);
    assert rest == rest[..j] + rest[j..];
  }

  lemma WithoutKeeps<T>(s: seq<T>, x: T, y: T)
    requires y in s && y != x
    ensures y in Without(s, x)
  {
    if x in s {
      var k, m := IndexOf(s, x), IndexOf(s, y);
      assert m != k;
      if m < k { assert RemoveAt(s, k)[m] == y; } else { assert RemoveAt(s, k)[m - 1] == y; }
    }
  }

  lemma IndexOfDistinct<T>(s: seq<T>, k: nat)
    requires Distinct(s) && k < |s|
    ensures IndexOf(s, s[k]) == k
  {
  }

  lemma WithoutAt<T>(s: seq<T>, k: nat)
    requires Distinct(s) && k < |s|
    ensures Without(s, s[k]) == RemoveAt(s, k)
  {
    IndexOfDistinct(s, k);
  }

  lemma RemoveAtDistinct<T>(s: seq<T>, k: nat)
    requires Distinct(s) && k < |s|
    ensures Distinct(RemoveAt(s, k)) && s[k] !in RemoveAt(s, k)
  {
  }

  lemma InsertAtDistinct<T>(s: seq<T>, k: nat, x: T)
    requires Distinct(s) && k <= |s| && x !in s
    ensures Distinct(InsertAt(s, k, x))
  {
    var r := InsertAt(s, k, x);
    forall i, j | 0 <= i < j < |r| ensures r[i] != r[j] {
      var a := if i < k then i else i - 1;
      var b := if j < k then j else j - 1;
      if i != k { assert r[i] == s[a]; }
      if j != k { assert r[j] == s[b]; }
    }
  }

  lemma RemoveAtCounts<T>(s: seq<T>, k: nat)
    requires k < |s|
    ensures multiset(RemoveAt(s, k)) + multiset{s[k]} == multiset(s)
  {
    assert s == s[..k] + ([s[k]] + s[k + 1..]);
  }

  lemma InsertAtCounts<T>(s: seq<T>, k: nat, x: T)
    requires k <= |s|
    ensures multiset(InsertAt(s, k, x)) == multiset(s) + multiset{x}
  {
    assert s == s[..k] + s[k..];
  }

  // ----- slides among the children -----

  lemma {:induction false} SlidesOfAppend(a: seq<Node>, b: seq<Node>)
    ensures SlidesOf(a + b) == SlidesOf(a) + SlidesOf(b)
  {
    if b == [] {
      assert a + b == a;
    } else {
      var front, last := b[..|b| - 1], b[|b| - 1];
      assert (a + b)[..|a + b| - 1] == a + front;
      SlidesOfAppend(a, front);
    }
  }

  lemma {:induction false} SlidesOfMembers(children: seq<Node>, x: Node)
    ensures x in SlidesOf(children) <==> x in children && x.slide
  {
    if children != [] {
      SlidesOfMembers(children[..|children| - 1], x);
      assert children == children[..|children| - 1] + [children[|children| - 1]];
    }
  }

  lemma {:induction false} SlidesOfDistinct(children: seq<Node>)
    requires Distinct(children)
    ensures Distinct(SlidesOf(children))
  {
    if children != [] {
      var front, last := children[..|children| - 1], children[|children| - 1];
      SlidesOfDistinct(front);
      SlidesOfMembers(front, last);
      assert last !in front;
    }
  }

  /** A slide's place among the slides is the number of slides before it. */
  lemma SlidePlace(children: seq<Node>, k: nat)
    requires k < |children| && children[k].slide
    ensures SlidesOf(children) == SlidesOf(children[..k]) + [children[k]] + SlidesOf(children[k + 1..])
    ensures SlidesOf(children[..k + 1]) == SlidesOf(children[..k]) + [children[k]]
  {
    assert children == children[..k + 1] + children[k + 1..];
    SlidesOfAppend(children[..k + 1], children[k + 1..]);
    assert children[..k + 1][..k] == children[..k];
  }

  /** Taking a slide out of the children takes it out of the slides. */
  lemma SlidesOfRemoveAt(children: seq<Node>, k: nat)
    requires k < |children| && children[k].slide
    ensures var i := |SlidesOf(children[..k])|;
            && i < |SlidesOf(children)| && SlidesOf(children)[i] == children[k]
            && SlidesOf(RemoveAt(children, k)) == RemoveAt(SlidesOf(children), i)
  {
    SlidePlace(children, k);
    SlidesOfAppend(children[..k], children[k + 1..]);
  }

  /** Putting a slide among the children puts it after the slides before it. */
  lemma SlidesOfInsertAt(children: seq<Node>, k: nat, x: Node)
    requires k <= |children| && x.slide
    ensures var i := |SlidesOf(children[..k])|;
            i <= |SlidesOf(children)| && SlidesOf(InsertAt(children, k, x)) == InsertAt(SlidesOf(children), i, x)
  {
    assert children == children[..k] + children[k..];
    SlidesOfAppend(children[..k], children[k..]);
    SlidesOfAppend(children[..k] + [x], children[k..]);
    SlidesOfAppend(children[..k], [x]);
    assert SlidesOf([x]) == [x];
  }

  /** Where a slide stands among the children, by its place among the slides. */
  lemma ChildOfSlide(children: seq<Node>, i: nat) returns (k: nat)
    requires Distinct(children) && i < |SlidesOf(children)|
    ensures k < |children| && children[k] == SlidesOf(children)[i] && |SlidesOf(children[..k])| == i
  {
    var x := SlidesOf(children)[i];
    SlidesOfMembers(children, x);
    k := IndexOf(children, x);
    SlidePlace(children, k);
    SlidesOfDistinct(children);
    var m := |SlidesOf(children[..k])|;
    assert SlidesOf(children)[m] == x;
  }

  /** The slides up to and including position k, in a list from which an earlier slide was taken. */
  lemma PlaceAfterRemoval(children: seq<Node>, gone: nat, k: nat)
    requires gone < |children| && k < |children| && gone != k && children[gone].slide && children[k].slide
    ensures var rest, k' := RemoveAt(children, gone), if k < gone then k else k - 1;
            && k' < |rest| && rest[k'] == children[k]
            && |SlidesOf(rest[..k'])| == |SlidesOf(children[..k])| - if gone < k then 1 else 0
  {
    var rest := RemoveAt(children, gone);
    if k < gone {
      assert rest[..k] == children[..k];
    } else {
      assert rest[..k - 1] == RemoveAt(children[..k], gone);
      assert children[..k][..gone] == children[..gone];
      SlidesOfRemoveAt(children[..k], gone);
    }
  }

  /** Where the source puts the moved slide. */
  function MoveRef(children: seq<Node>, slides: seq<Node>, i: nat, j: nat): Option<Node>
    requires i < |slides| && j < |slides| && slides[j] in children
  {
    if j < i then Some(slides[j]) else NextSibling(children, slides[j])
  }

  lemma OrderOfSlides(children: seq<Node>, a: nat, b: nat)
    requires a < |children| && b < |children| && children[a].slide && children[b].slide
    ensures a < b <==> |SlidesOf(children[..a])| < |SlidesOf(children[..b])|
  {
    if a < b {
      assert children[..b] == children[..a] + children[a..b];
      SlidesOfAppend(children[..a], children[a..b]);
      SlidesOfMembers(children[a..b], children[a]);
      assert children[a..b][0] == children[a];
    } else if b < a {
      assert children[..a] == children[..b] + children[b..a];
      SlidesOfAppend(children[..b], children[b..a]);
    }
  }

  /** Child a is the slide at place i. */
  ghost predicate StandsAt(children: seq<Node>, a: nat, i: nat) {
    && a < |children| && children[a].slide && |SlidesOf(children[..a])| == i && i < |SlidesOf(children)|
    && SlidesOf(children)[i] == children[a]
  }

  /** Taking out the slide at child a and putting it at child position b puts it at the place of the slide at b. */
  lemma MovedSlides(children: seq<Node>, a: nat, b: nat, i: nat, j: nat)
    requires StandsAt(children, a, i) && StandsAt(children, b, j) && i != j
    ensures SlidesOf(InsertAt(RemoveAt(children, a), b, children[a])) == ListMove(SlidesOf(children), i, j)
  {
    var rest := RemoveAt(children, a);
    SlidesOfRemoveAt(children, a);
    PlaceAfterRemoval(children, a, b);
    OrderOfSlides(children, a, b);
    if a < b {
      SlidePlace(rest, b - 1);
    }
    SlidesOfInsertAt(rest, b, children[a]);
  }

  /** Inserting a child before another one puts it where that one stands once the child has left. */
  lemma BeforeChild(children: seq<Node>, a: nat, k: nat)
    requires Distinct(children) && a < |children| && k < |children| && a != k
    ensures InsertBefore(children, children[a], Some(children[k]))
         == InsertAt(RemoveAt(children, a), if k < a then k else k - 1, children[a])
  {
    var rest, k' := RemoveAt(children, a), if k < a then k else k - 1;
    IndexOfDistinct(children, a);
    RemoveAtDistinct(children, a);
    assert rest[k'] == children[k];
    IndexOfDistinct(rest, k');
  }

  lemma AtTheEnd(children: seq<Node>, a: nat)
    requires Distinct(children) && a < |children|
    ensures InsertBefore(children, children[a], None) == InsertAt(RemoveAt(children, a), |children| - 1, children[a])
  {
    var rest := RemoveAt(children, a);
    IndexOfDistinct(children, a);
    assert rest[..|rest|] == rest && rest[|rest|..] == [];
    assert rest + [children[a]] == rest[..|rest|] + [children[a]] + rest[|rest|..];
  }

  /** The reference child: the slide itself, or the child after it. */
  lemma RefIs(children: seq<Node>, b: nat, i: nat, j: nat)
    requires Distinct(children) && StandsAt(children, b, j) && i < |SlidesOf(children)|
    ensures MoveRef(children, SlidesOf(children), i, j) ==
            if j < i then Some(children[b]) else if b + 1 < |children| then Some(children[b + 1]) else None
  {
    IndexOfDistinct(children, b);
  }

  /** The reference child stands, once the moved slide is out, where the slide belongs. */
  lemma MoveTarget(children: seq<Node>, a: nat, b: nat, ref: Option<Node>)
    requires Distinct(children) && a < |children| && b < |children| && a != b
    requires ref == if b < a then Some(children[b]) else if b + 1 < |children| then Some(children[b + 1]) else None
    ensures InsertBefore(children, children[a], ref) == InsertAt(RemoveAt(children, a), b, children[a])
  {
    if b < a {
      BeforeChild(children, a, b);
    } else if b + 1 < |children| {
      BeforeChild(children, a, b + 1);
    } else {
      AtTheEnd(children, a);
    }
  }

  lemma MovedIsPermutation(children: seq<Node>, a: nat, b: nat)
    requires Distinct(children) && a < |children| && b < |children|
    ensures var moved := InsertAt(RemoveAt(children, a), b, children[a]);
            Distinct(moved) && multiset(moved) == multiset(children)
  {
    var rest := RemoveAt(children, a);
    RemoveAtDistinct(children, a);
    InsertAtDistinct(rest, b, children[a]);
    RemoveAtCounts(children, a);
    InsertAtCounts(rest, b, children[a]);
  }

  lemma StandsAtPlace(children: seq<Node>, i: nat) returns (k: nat)
    requires Distinct(children) && i < |SlidesOf(children)|
    ensures StandsAt(children, k, i)
  {
    k := ChildOfSlide(children, i);
    SlidesOfMembers(children, SlidesOf(children)[i]);
  }

  /** Moving a slide with insertBefore, among whatever other nodes the deck has, moves it in the list of slides. */
  lemma MoveMovesSlide(children: seq<Node>, i: nat, j: nat)
    requires Distinct(children) && i < |SlidesOf(children)| && j < |SlidesOf(children)| && i != j
    ensures SlidesOf(children)[j] in children
    ensures var slides := SlidesOf(children);
            var ref := MoveRef(children, slides, i, j);
            && (ref.Some? ==> ref.value in children)
            && var moved := InsertBefore(children, slides[i], ref);
               Distinct(moved) && SlidesOf(moved) == ListMove(slides, i, j) && multiset(moved) == multiset(children)
  {
    var a := StandsAtPlace(children, i);
    var b := StandsAtPlace(children, j);
    OrderOfSlides(children, a, b);
    OrderOfSlides(children, b, a);
    RefIs(children, b, i, j);
    MoveTarget(children, a, b, MoveRef(children, SlidesOf(children), i, j));
    MovedSlides(children, a, b, i, j);
    MovedIsPermutation(children, a, b);
  }
}
