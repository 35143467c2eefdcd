/**
 What a query may be answered with: every stored point whose number
 differs from the query's, paired with its squared distance to the query.
 This is the pool a brute-force scan would rank, and the reference the
 search is compared against.
 */
module Candidates {
  import opened Geometry
  import opened BestList
  import opened KdTree

  /** The pair a point is offered as: its number and its squared distance to the query, over the query's axes. */
  function Offer(p: Point, search: Point): (x: Pair)
    requires |search.coords| <= |p.coords|
    ensures x.num == p.num && x.dist >= 0
  {
    Pair(p.num, SqDist(p.coords, search.coords, |search.coords|))
  }

  /** Every point of `ps` has at least the query's axes. */
  predicate Comparable(ps: seq<Point>, search: Point)
  {
    forall p | p in ps :: |search.coords| <= |p.coords|
  }

  /** The offer of `p`, or nothing when `p` is the query itself. */
  function OfferOf(p: Point, search: Point): (offers: multiset<Pair>)
    requires |search.coords| <= |p.coords|
  {
    if p.num != search.num then multiset{Offer(p, search)} else multiset{}
  }

  /** The offers of all points of `ps` other than the query itself. */
  function Pool(ps: seq<Point>, search: Point): (pool: multiset<Pair>)
    requires Comparable(ps, search)
  {
    if ps == [] then multiset{}
    else Pool(ps[..|ps| - 1], search) + OfferOf(ps[|ps| - 1], search)
  }

  /** The offers of the nodes of `t` other than the query itself. */
  function TreePool(t: Tree, search: Point): (pool: multiset<Pair>)
    requires TreeDims(t, |search.coords|)
  {
    match t
    case Nil => multiset{}
    case Node(num, coords, l, r) => TreePool(l, search) + OfferOf(Point(num, coords), search) + TreePool(r, search)
  }

  /** The pool of a tree is the pool of its in-order points. */
  lemma {:induction false} TreePoolIsPool(t: Tree, search: Point)
    requires TreeDims(t, |search.coords|)
    ensures Comparable(t.Flatten(), search)
    ensures TreePool(t, search) == Pool(t.Flatten(), search)
  {
    match t
    case Nil =>
    case Node(num, coords, l, r) =>
      var p := Point(num, coords);
      TreePoolIsPool(l, search);
      TreePoolIsPool(r, search);
      assert t.Flatten() == l.Flatten() + [p] + r.Flatten();
      SinglePool(p, search);
      PoolAppend(l.Flatten(), [p], search);
      PoolAppend(l.Flatten() + [p], r.Flatten(), search);
  }

  lemma {:induction false} PoolAppend(a: seq<Point>, b: seq<Point>, search: Point)
    requires Comparable(a, search) && Comparable(b, search)
    ensures Comparable(a + b, search)
    ensures Pool(a + b, search) == Pool(a, search) + Pool(b, search)
    decreases |b|
  {
    if b == [] {
      assert a + b == a;
    } else {
      assert (a + b)[..|a + b| - 1] == a + b[..|b| - 1];
      PoolAppend(a, b[..|b| - 1], search);
    }
  }

  /** The pool of a single point is its offer, unless it is the query itself. */
  lemma SinglePool(p: Point, search: Point)
    requires |search.coords| <= |p.coords|
    ensures Pool([p], search) == OfferOf(p, search)
  {
    assert [p][..0] == [];
  }

  /** Every pooled pair is the offer of some point other than the query. */
  lemma {:induction false} PoolMember(ps: seq<Point>, search: Point, x: Pair)
    requires Comparable(ps, search) && x in Pool(ps, search)
    ensures exists p | p in ps :: p.num != search.num && x == Offer(p, search)
  {
    var last := ps[|ps| - 1];
    if x in Pool(ps[..|ps| - 1], search) {
      PoolMember(ps[..|ps| - 1], search, x);
      var p :| p in ps[..|ps| - 1] && p.num != search.num && x == Offer(p, search);
      assert p in ps;
    } else {
      assert last in ps;
    }
  }

  /** The query's own number is never in the pool. */
  lemma PoolExcludesQuery(ps: seq<Point>, search: Point)
    requires Comparable(ps, search)
    ensures forall x | x in Pool(ps, search) :: x.num != search.num && x.dist >= 0
  {
    forall x | x in Pool(ps, search) ensures x.num != search.num && x.dist >= 0 {
      PoolMember(ps, search, x);
    }
  }

  /** Taking one point out of a sequence takes its offer out of the pool. */
  lemma PoolRemoveAt(b: seq<Point>, j: nat, search: Point)
    requires Comparable(b, search) && j < |b|
    ensures Comparable(b[..j] + b[j + 1..], search)
    ensures Pool(b, search) == Pool(b[..j] + b[j + 1..], search) + Pool([b[j]], search)
  {
    assert b == b[..j] + [b[j]] + b[j + 1..];
    PoolAppend(b[..j] + [b[j]], b[j + 1..], search);
    PoolAppend(b[..j], [b[j]], search);
    PoolAppend(b[..j], b[j + 1..], search);
  }

  lemma ComparableOfPermutation(a: seq<Point>, b: seq<Point>, search: Point)
    requires Comparable(a, search) && multiset(a) == multiset(b)
    ensures Comparable(b, search)
  {
    forall p | p in b ensures |search.coords| <= |p.coords| {
      assert p in multiset(a);
    }
  }

  /** Reordering the points does not change the pool. */
  lemma {:induction false} PoolOfPermutation(a: seq<Point>, b: seq<Point>, search: Point)
    requires Comparable(a, search) && multiset(a) == multiset(b)
    ensures Comparable(b, search)
    ensures Pool(a, search) == Pool(b, search)
    decreases |a|
  {
    ComparableOfPermutation(a, b, search);
    if a != [] {
      var x := a[|a| - 1];
      var a' := a[..|a| - 1];
      assert x in multiset(b);
      var j := IndexOf(b, x);
      var b' := b[..j] + b[j + 1..];
      RemoveMatching(a, b, j);
      assert Comparable(a', search) by {
        assert forall p | p in a' :: p in a;
      }
      PoolOfPermutation(a', b', search);
      PoolRemoveAt(b, j, search);
      SinglePool(x, search);
    } else {
      assert |b| == |multiset(b)| == |multiset(a)| == 0;
    }
  }
}
