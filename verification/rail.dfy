/** The thumbnail rail: one thumb per slide, reused across renders and put in order in place. */
module Rails {
  import opened Options
  import opened DeckLists

  /** A thumb element, the slide it stands for, the position its event handlers read, and its skip attribute. */
  datatype Entry = Entry(thumb: nat, slide: Node, i: int, skipped: bool)

  function ThumbsOf(entries: seq<Entry>): (r: seq<nat>)
    ensures |r| == |entries|
    ensures forall k :: 0 <= k < |r| ==> r[k] == entries[k].thumb
  {
    seq(|entries|, k requires 0 <= k < |entries| => entries[k].thumb)
  }

  ghost predicate DistinctSlides(entries: seq<Entry>) {
    forall i, j :: 0 <= i < j < |entries| ==> entries[i].slide != entries[j].slide
  }

  ghost predicate DistinctThumbs(entries: seq<Entry>) {
    forall i, j :: 0 <= i < j < |entries| ==> entries[i].thumb != entries[j].thumb
  }

  /** The entry's slide had a thumb before. */
  ghost predicate Kept(before: seq<Entry>, entry: Entry) {
    exists j :: 0 <= j < |before| && before[j].slide == entry.slide && before[j].thumb == entry.thumb
  }

  /** The entry's slide had no thumb before, and its thumb is new. */
  ghost predicate Made(before: seq<Entry>, entry: Entry, nextId: nat, made: nat) {
    nextId <= entry.thumb < made && forall j :: 0 <= j < |before| ==> before[j].slide != entry.slide
  }

  /** The entry of each slide: the one it had, or a new one. */
  ghost predicate Reuses(before: seq<Entry>, after: seq<Entry>, nextId: nat, made: nat) {
    forall k :: 0 <= k < |after| ==>
      Kept(before, after[k]) || Made(before, after[k], nextId, made)
  }

  /** The entries whose slides have not been seen, by slide. */
  ghost predicate OrphansAre(thumbs: seq<Entry>, seen: seq<Node>, orphans: map<Node, Entry>) {
    && (forall s :: s in orphans ==> orphans[s] in thumbs && orphans[s].slide == s && s !in seen)
    && (forall j :: 0 <= j < |thumbs| && thumbs[j].slide !in seen ==>
          thumbs[j].slide in orphans && orphans[thumbs[j].slide] == thumbs[j])
  }

  /** The entries chosen so far: one for each slide seen, no thumb twice, thumbs kept where there were any. */
  ghost predicate Chosen(thumbs: seq<Entry>, seen: seq<Node>, next: seq<Entry>, nextId: nat, made: nat) {
    && |next| == |seen| && (forall m :: 0 <= m < |next| ==> next[m].slide == seen[m] && next[m].thumb < made)
    && DistinctThumbs(next) && Reuses(thumbs, next, nextId, made)
  }

  lemma ChooseKept(thumbs: seq<Entry>, seen: seq<Node>, next: seq<Entry>, nextId: nat, made: nat, entry: Entry)
    requires Chosen(thumbs, seen, next, nextId, made) && nextId <= made && entry.slide !in seen
    requires DistinctThumbs(thumbs) && DistinctSlides(thumbs) && entry in thumbs && entry.thumb < nextId
    ensures Chosen(thumbs, seen + [entry.slide], next + [entry], nextId, made)
  {
    KeptIsNew(thumbs, next, nextId, made, entry);
  }

  lemma ChooseMade(thumbs: seq<Entry>, seen: seq<Node>, next: seq<Entry>, nextId: nat, made: nat, entry: Entry)
    requires Chosen(thumbs, seen, next, nextId, made) && nextId <= made && entry.thumb == made
    requires forall j :: 0 <= j < |thumbs| ==> thumbs[j].slide != entry.slide
    ensures Chosen(thumbs, seen + [entry.slide], next + [entry], nextId, made + 1)
  {
    MadeIsNew(thumbs, next, nextId, made, entry);
  }

  lemma OrphanStep(thumbs: seq<Entry>, seen: seq<Node>, slide: Node, orphans: map<Node, Entry>)
    requires OrphansAre(thumbs, seen, orphans)
    ensures OrphansAre(thumbs, seen + [slide], orphans - {slide})
  {
  }

  /** Inserting the wanted thumb before the child that holds its place extends the ordered part by one. */
  lemma PlaceNext(children: seq<nat>, i: nat, want: nat)
    requires Distinct(children) && i <= |children| && want !in children[..i]
    requires i < |children| ==> children[i] != want
    ensures var ref := if i < |children| then Some(children[i]) else None;
            var placed := InsertBefore(children, want, ref);
            && Distinct(placed) && i < |placed| && placed[..i] == children[..i] && placed[i] == want
            && (forall x :: x in placed <==> x in children || x == want)
  {
    var rest := Without(children, want);
    if want in children {
      var k := IndexOf(children, want);
      assert k > i;
      RemoveAtDistinct(children, k);
      assert rest[..i] == children[..i] && rest[i] == children[i];
      forall x ensures x in rest <==> x in children && x != want {
        if x in children && x != want { WithoutKeeps(children, want, x); }
      }
    }
    if i < |children| {
      IndexOfDistinct(rest, i);
    }
    InsertAtDistinct(rest, i, want);
    var placed := InsertAt(rest, i, want);
    assert rest == rest[..i] + rest[i..];
    if i == |rest| { assert placed == rest + [want]; }
  }

  class Rail {
    var thumbs: seq<Entry>
    var children: seq<nat>
    var nextId: nat

    constructor ()
      ensures Consistent() && thumbs == []
    {
      thumbs, children, nextId := [], [], 0;
    }

    /** The rail's children are the thumbs of the entries, in any order. */
    ghost predicate Consistent()
      reads this
    {
      && DistinctSlides(thumbs) && DistinctThumbs(thumbs) && Distinct(children)
      && (forall x :: x in children <==> x in ThumbsOf(thumbs))
      && (forall k :: 0 <= k < |thumbs| ==> thumbs[k].thumb < nextId)
    }

    /** The rail shows the slides: children and entries follow their order, positions and skip marks are right. */
    ghost predicate Shows(slides: seq<Node>, skip: set<Node>)
      reads this
    {
      && |thumbs| == |slides| && children == ThumbsOf(thumbs)
      && forall k :: 0 <= k < |slides| ==>
           thumbs[k].slide == slides[k] && thumbs[k].i == k && (thumbs[k].skipped <==> slides[k] in skip)
    }

    /** The current entries by slide. */
    method BySlide() returns (index: map<Node, Entry>)
      requires Consistent()
      ensures forall j :: 0 <= j < |thumbs| ==> thumbs[j].slide in index && index[thumbs[j].slide] == thumbs[j]
      ensures forall s :: s in index ==> index[s] in thumbs && index[s].slide == s
    {
      index := map[];
      for j := 0 to |thumbs|
        invariant forall k :: 0 <= k < j ==> thumbs[k].slide in index && index[thumbs[k].slide] == thumbs[k]
        invariant forall s :: s in index ==> index[s] in thumbs[..j] && index[s].slide == s
      {
        index := index[thumbs[j].slide := thumbs[j]];
        assert thumbs[..j + 1] == thumbs[..j] + [thumbs[j]];
      }
    }

    /** The entries for the slides, taken from the current ones where a slide has one; the rest are orphans. */
    method Match(slides: seq<Node>) returns (next: seq<Entry>, orphans: map<Node, Entry>)
      requires Consistent() && Distinct(slides)
      modifies this`nextId
      ensures nextId >= old(nextId)
      ensures |next| == |slides| && forall k :: 0 <= k < |slides| ==> next[k].slide == slides[k]
      ensures DistinctThumbs(next) && forall k :: 0 <= k < |next| ==> next[k].thumb < nextId
      ensures Reuses(thumbs, next, old(nextId), nextId)
      ensures forall j :: 0 <= j < |thumbs| && thumbs[j].slide !in slides ==>
        thumbs[j].slide in orphans && orphans[thumbs[j].slide] == thumbs[j]
      ensures forall s :: s in orphans ==> s !in slides
    {
      orphans := BySlide();
      next := [];
      assert OrphansAre(thumbs, slides[..0], orphans) && Chosen(thumbs, slides[..0], next, nextId, nextId);
      for k := 0 to |slides|
        invariant nextId >= old(nextId)
        invariant Chosen(thumbs, slides[..k], next, old(nextId), nextId)
        invariant OrphansAre(thumbs, slides[..k], orphans)
      {
        var slide := slides[k];
        assert slides[..k + 1] == slides[..k] + [slide] && slide !in slides[..k];
        OrphanStep(thumbs, slides[..k], slide, orphans);
        var entry;
        if slide in orphans {
          entry := orphans[slide];
          ChooseKept(thumbs, slides[..k], next, old(nextId), nextId, entry);
          orphans := orphans - {slide};
        } else {
          assert orphans - {slide} == orphans;
          entry := Entry(nextId, slide, -1, false);
          ChooseMade(thumbs, slides[..k], next, old(nextId), nextId, entry);
          nextId := nextId + 1;
        }
        next := next + [entry];
      }
      assert slides[..|slides|] == slides;
    }

    /** Puts the wanted thumb at position i, unless it is there. */
    method Place(i: nat, want: nat)
      requires Distinct(children) && i <= |children| && want !in children[..i]
      modifies this`children
      ensures Distinct(children) && i < |children| && children[..i + 1] == old(children)[..i] + [want]
      ensures forall x :: x in children <==> x in old(children) || x == want
    {
      var at := if i < |children| then Some(children[i]) else None;
      if at != Some(want) {
        PlaceNext(children, i, want);
        children := InsertBefore(children, want, at);
      }
      assert children[..i + 1] == children[..i] + [want];
    }

    /** Puts the thumbs of the entries into the rail in their order, and sets each entry's position and skip mark. */
    method Order(entries: seq<Entry>, skip: set<Node>) returns (next: seq<Entry>)
      requires DistinctThumbs(entries) && Distinct(children)
      requires forall x :: x in children ==> x in ThumbsOf(entries)
      modifies this`children
      ensures |next| == |entries| && children == ThumbsOf(entries)
      ensures forall k :: 0 <= k < |next| ==>
        next[k] == Entry(entries[k].thumb, entries[k].slide, k, entries[k].slide in skip)
    {
      next := entries;
      ghost var wanted := ThumbsOf(entries);
      for i := 0 to |entries|
        invariant |next| == |entries|
        invariant forall k :: 0 <= k < i ==> next[k] == Entry(entries[k].thumb, entries[k].slide, k, entries[k].slide in skip)
        invariant forall k :: i <= k < |next| ==> next[k] == entries[k]
        invariant Distinct(children) && i <= |children| && children[..i] == wanted[..i]
        invariant forall x :: x in children ==> x in wanted
      {
        assert next[i].thumb !in wanted[..i];
        Place(i, next[i].thumb);
        assert wanted[..i + 1] == wanted[..i] + [wanted[i]];
        next := next[i := next[i].(i := i, skipped := next[i].slide in skip)];
      }
      AllPlaced(children, wanted);
    }

    /** Brings the rail to the slides: thumbs of surviving slides are kept, the others dropped, and the children end up
        exactly in the order of the slides. */
    method Render(slides: seq<Node>, skip: set<Node>)
      requires Consistent() && Distinct(slides)
      modifies this
      ensures Consistent() && Shows(slides, skip)
      ensures nextId >= old(nextId) && Reuses(old(thumbs), thumbs, old(nextId), nextId)
    {
      var entries, orphans := Match(slides);
      KeptUnlessOrphan(thumbs, slides, entries, old(nextId), nextId);
      RemoveOrphans(entries, orphans);
      var next := Order(entries, skip);
      KeepsReuse(thumbs, entries, next, old(nextId), nextId);
      thumbs := next;
      assert ThumbsOf(next) == ThumbsOf(entries);
    }

    /** Takes the thumbs of removed slides out of the rail. */
    method RemoveOrphans(ghost next: seq<Entry>, orphans: map<Node, Entry>)
      requires Distinct(children) && forall x :: x in children ==> x in ThumbsOf(thumbs)
      requires forall j :: 0 <= j < |thumbs| ==>
        Kept(next, thumbs[j]) || (thumbs[j].slide in orphans && orphans[thumbs[j].slide] == thumbs[j])
      modifies this`children
      ensures Distinct(children)
      ensures forall x :: x in children ==> x in ThumbsOf(next)
    {
      var left := orphans;
      while left != map[]
        invariant Distinct(children)
        invariant forall x :: x in children ==> x in ThumbsOf(thumbs)
        invariant forall s :: s in left ==> s in orphans && left[s] == orphans[s]
        invariant forall s :: s in orphans && s !in left ==> orphans[s].thumb !in children
        decreases |left|
      {
        var s :| s in left;
        var thumb := left[s].thumb;
        ghost var before := children;
        if thumb in children {
          RemoveAtDistinct(children, IndexOf(children, thumb));
        }
        children := Without(children, thumb);
        assert forall x :: x in children ==> x in before && x != thumb;
        left := left - {s};
      }
      forall x | x in children ensures x in ThumbsOf(next) {
        var j :| 0 <= j < |thumbs| && thumbs[j].thumb == x;
        assert Kept(next, thumbs[j]);
        var k :| 0 <= k < |next| && next[k].thumb == x;
        assert ThumbsOf(next)[k] == x;
      }
    }
  }

  /** A thumb taken over from the current entries differs from the thumbs chosen for other slides. */
  lemma KeptIsNew(before: seq<Entry>, next: seq<Entry>, nextId: nat, made: nat, entry: Entry)
    requires Reuses(before, next, nextId, made) && DistinctThumbs(before) && DistinctSlides(before)
    requires entry in before && entry.thumb < nextId
    requires forall m :: 0 <= m < |next| ==> next[m].slide != entry.slide
    ensures forall m :: 0 <= m < |next| ==> next[m].thumb != entry.thumb
    ensures Reuses(before, next + [entry], nextId, made)
  {
    var j :| 0 <= j < |before| && before[j] == entry;
    forall m | 0 <= m < |next| ensures next[m].thumb != entry.thumb {
      if Kept(before, next[m]) {
        var k :| 0 <= k < |before| && before[k].slide == next[m].slide && before[k].thumb == next[m].thumb;
        assert k != j;
      }
    }
    assert Kept(before, entry);
  }

  lemma MadeIsNew(before: seq<Entry>, next: seq<Entry>, nextId: nat, made: nat, entry: Entry)
    requires Reuses(before, next, nextId, made) && nextId <= made && entry.thumb == made
    requires forall j :: 0 <= j < |before| ==> before[j].slide != entry.slide
    ensures Reuses(before, next + [entry], nextId, made + 1)
  {
  }

  /** An entry whose slide remains is among the new entries. */
  lemma KeptUnlessOrphan(before: seq<Entry>, slides: seq<Node>, next: seq<Entry>, nextId: nat, made: nat)
    requires DistinctSlides(before) && Reuses(before, next, nextId, made)
    requires |next| == |slides| && forall k :: 0 <= k < |slides| ==> next[k].slide == slides[k]
    ensures forall j :: 0 <= j < |before| && before[j].slide in slides ==> Kept(next, before[j])
  {
    forall j | 0 <= j < |before| && before[j].slide in slides ensures Kept(next, before[j]) {
      var k :| 0 <= k < |slides| && slides[k] == before[j].slide;
      assert next[k].slide == before[j].slide;
      assert Kept(before, next[k]);
      var m :| 0 <= m < |before| && before[m].slide == next[k].slide && before[m].thumb == next[k].thumb;
      assert m == j;
    }
  }

  lemma AllPlaced(children: seq<nat>, wanted: seq<nat>)
    requires Distinct(children) && |wanted| <= |children| && children[..|wanted|] == wanted
    requires forall x :: x in children ==> x in wanted
    ensures children == wanted
  {
    if children != [] {
      var last := children[|children| - 1];
      var m := IndexOf(wanted, last);
      assert children[m] == children[..|wanted|][m] == last;
      assert m == |children| - 1;
    }
  }

  lemma KeepsReuse(before: seq<Entry>, a: seq<Entry>, b: seq<Entry>, nextId: nat, made: nat)
    requires Reuses(before, a, nextId, made) && |a| == |b|
    requires forall k :: 0 <= k < |a| ==> a[k].thumb == b[k].thumb && a[k].slide == b[k].slide
    ensures Reuses(before, b, nextId, made)
  {
    forall k | 0 <= k < |b|
      ensures Kept(before, b[k]) || Made(before, b[k], nextId, made)
    {
      if Kept(before, a[k]) {
        var j :| 0 <= j < |before| && before[j].slide == a[k].slide && before[j].thumb == a[k].thumb;
        assert before[j].slide == b[k].slide;
      }
    }
  }
}
