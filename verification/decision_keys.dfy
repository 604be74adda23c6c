/** The string keys under which decisions are cached, and when two queries share one. */
module DecisionKeys {

  /** The actions a check can be asked about. */
  datatype Verb = Read | Write | Create | Delete | Admin

  datatype Query = Query(subject: string, verb: Verb, target: string)

  const PREFIX: string := "auth_decision:"

  function Name(verb: Verb): string {
    match verb
    case Read => "read"
    case Write => "write"
    case Create => "create"
    case Delete => "delete"
    case Admin => "admin"
  }

  function Body(q: Query): string {
    q.subject + ":" + Name(q.verb) + ":" + q.target
  }

  function KeyOf(q: Query): string {
    PREFIX + Body(q)
  }

  /** The keys, literally. */
  lemma KeyIs(subject: string, target: string)
    ensures KeyOf(Query(subject, Read, target)) == "auth_decision:" + subject + ":read:" + target
    ensures KeyOf(Query(subject, Write, target)) == "auth_decision:" + subject + ":write:" + target
    ensures KeyOf(Query(subject, Create, target)) == "auth_decision:" + subject + ":create:" + target
    ensures KeyOf(Query(subject, Delete, target)) == "auth_decision:" + subject + ":delete:" + target
    ensures KeyOf(Query(subject, Admin, target)) == "auth_decision:" + subject + ":admin:" + target
  {
    assert ":" + "read" + ":" == ":read:" && ":" + "write" + ":" == ":write:" && ":" + "create" + ":" == ":create:";
    assert ":" + "delete" + ":" == ":delete:" && ":" + "admin" + ":" == ":admin:";
  }

  /** At position p the string continues with the verb between two colons. */
  predicate Splits(body: string, p: nat, verb: Verb) {
    var n := |Name(verb)|;
    p + n + 2 <= |body| && body[p] == ':' && body[p + 1..p + 1 + n] == Name(verb) && body[p + 1 + n] == ':'
  }

  /** The query that a split of its key stands for. */
  function SplitAt(body: string, p: nat, verb: Verb): Query
    requires Splits(body, p, verb)
  {
    Query(body[..p], verb, body[p + |Name(verb)| + 2..])
  }

  /** The key can be read in one way only: nowhere else does it hold a verb between two colons. */
  predicate Unambiguous(q: Query) {
    forall p, verb :: 0 <= p < |Body(q)| && Splits(Body(q), p, verb) ==> p == |q.subject| && verb == q.verb
  }

  lemma OwnSplit(q: Query)
    ensures Splits(Body(q), |q.subject|, q.verb) && SplitAt(Body(q), |q.subject|, q.verb) == q
  {
    var body, p, n := Body(q), |q.subject|, |Name(q.verb)|;
    assert body[p + 1..p + 1 + n] == Name(q.verb);
    assert body[..p] == q.subject && body[p + n + 2..] == q.target;
  }

  lemma SplitHasBody(body: string, p: nat, verb: Verb)
    requires Splits(body, p, verb)
    ensures Body(SplitAt(body, p, verb)) == body
  {
    var n := |Name(verb)|;
    assert body[p..p + 1] == ":" && body[p + 1 + n..p + n + 2] == ":";
    assert body == body[..p] + body[p..p + 1] + body[p + 1..p + 1 + n] + body[p + 1 + n..p + n + 2] + body[p + n + 2..];
  }

  lemma SameBody(a: Query, b: Query)
    requires KeyOf(a) == KeyOf(b)
    ensures Body(a) == Body(b)
  {
    assert Body(a) == KeyOf(a)[|PREFIX|..] && Body(b) == KeyOf(b)[|PREFIX|..];
  }

  /** No other query shares the key of an unambiguous one. */
  lemma UnambiguousIsAlone(q: Query, other: Query)
    requires Unambiguous(q) && KeyOf(other) == KeyOf(q)
    ensures other == q
  {
    SameBody(q, other);
    OwnSplit(q);
    OwnSplit(other);
  }

  /** Another query shares the key exactly when the key is ambiguous. */
  lemma SharedKeyIff(q: Query)
    ensures (exists other :: other != q && KeyOf(other) == KeyOf(q)) <==> !Unambiguous(q)
  {
    if Unambiguous(q) {
      forall other | KeyOf(other) == KeyOf(q) ensures other == q {
        UnambiguousIsAlone(q, other);
      }
    } else {
      var other := Twin(q);
      assert other != q && KeyOf(other) == KeyOf(q);
    }
  }

  lemma Twin(q: Query) returns (other: Query)
    requires !Unambiguous(q)
    ensures other != q && KeyOf(other) == KeyOf(q)
  {
    var p, verb :| 0 <= p < |Body(q)| && Splits(Body(q), p, verb) && (p != |q.subject| || verb != q.verb);
    other := SplitAt(Body(q), p, verb);
    SplitHasBody(Body(q), p, verb);
  }

  /** Neither query is unambiguous: the object of the first reads like the end of the second one's subject. */
  lemma ColonsCollide()
    ensures var a, b := Query("user:a", Read, "b:read:c"), Query("user:a:read:b", Read, "c");
            a != b && KeyOf(a) == KeyOf(b)
  {
    var a, b := Query("user:a", Read, "b:read:c"), Query("user:a:read:b", Read, "c");
    assert "user:a" + ":" + "read" + ":" + "b:read:c" == "user:a:read:b" + ":" + "read" + ":" + "c";
  }

  // ----- well-formed subjects -----

  function Colons(s: string): nat {
    if s == "" then 0 else Colons(s[..|s| - 1]) + if s[|s| - 1] == ':' then 1 else 0
  }

  lemma {:induction false} ColonsAppend(a: string, b: string)
    ensures Colons(a + b) == Colons(a) + Colons(b)
  {
    if b == "" {
      assert a + b == a;
    } else {
      var front := b[..|b| - 1];
      assert (a + b)[..|a + b| - 1] == a + front;
      ColonsAppend(a, front);
    }
  }

  /** Texts with the same number of colons, each followed by a colon, end at the same colon. */
  lemma SameColonsSamePart(a: string, x: string, b: string, y: string)
    requires a + ":" + x == b + ":" + y && Colons(a) == Colons(b)
    ensures a == b && x == y
  {
    if |a| < |b| {
      LongerHasMore(a, x, b, y);
    } else if |b| < |a| {
      LongerHasMore(b, y, a, x);
    } else {
      var whole := a + ":" + x;
      assert a == whole[..|a|] && b == whole[..|a|];
      assert x == whole[|a| + 1..] && y == whole[|a| + 1..];
    }
  }

  lemma LongerHasMore(a: string, x: string, b: string, y: string)
    requires a + ":" + x == b + ":" + y && |a| < |b|
    ensures Colons(a) < Colons(b)
  {
    var whole := a + ":" + x;
    var rest := b[|a| + 1..];
    assert b == whole[..|b|] && a + ":" == whole[..|a| + 1];
    assert b == a + ":" + rest;
    ColonsAppend(a + ":", rest);
    ColonsAppend(a, ":");
    assert Colons(":") == 1;
  }

  lemma VerbsDiffer(a: Verb, b: Verb)
    requires Name(a) == Name(b)
    ensures a == b
  {
    assert Name(Read)[0] == 'r' && Name(Write)[0] == 'w' && Name(Create)[0] == 'c' && Name(Delete)[0] == 'd'
        && Name(Admin)[0] == 'a';
  }

  lemma VerbHasNoColon(verb: Verb)
    ensures Colons(Name(verb)) == 0
  {
    NoColons(Name(verb));
  }

  lemma {:induction false} NoColons(s: string)
    requires forall k :: 0 <= k < |s| ==> s[k] != ':'
    ensures Colons(s) == 0
  {
    if s != "" {
      NoColons(s[..|s| - 1]);
    }
  }

  /** Queries whose subjects have equally many colons, such as one in a kind and a name, never share a key. */
  lemma EqualColonsNeverCollide(a: Query, b: Query)
    requires Colons(a.subject) == Colons(b.subject) && KeyOf(a) == KeyOf(b)
    ensures a == b
  {
    SameBody(a, b);
    var restA, restB := Name(a.verb) + ":" + a.target, Name(b.verb) + ":" + b.target;
    assert Body(a) == a.subject + ":" + restA && Body(b) == b.subject + ":" + restB;
    SameColonsSamePart(a.subject, restA, b.subject, restB);
    SameRestSameQuery(a.verb, a.target, b.verb, b.target);
  }

  lemma SameRestSameQuery(a: Verb, x: string, b: Verb, y: string)
    requires Name(a) + ":" + x == Name(b) + ":" + y
    ensures a == b && x == y
  {
    VerbHasNoColon(a);
    VerbHasNoColon(b);
    SameColonsSamePart(Name(a), x, Name(b), y);
    VerbsDiffer(a, b);
  }
}
