/**
 End-to-end statements about building a tree from a list of points and
 querying it: what the builder guarantees about the whole tree, what the
 search returns measured against every stored point, and two concrete
 queries on which the search of `nn_search` and the result copy of
 `run_nn_search` go wrong.
 */
module Queries {
  import opened Geometry
  import opened AxisSort
  import opened BestList
  import opened KdTree
  import opened Candidates
  import opened Search

  /** A query against stored points: the query has at least one axis and every point has exactly its axes. */
  predicate WellFormed(points: seq<Point>, search: Point)
  {
    |search.coords| >= 1 && SameDims(points, |search.coords|)
  }

  /** What the builder accepts: no points, or points that share one dimensionality of at least one. */
  predicate Buildable(points: seq<Point>)
  {
    points != [] ==> |points[0].coords| >= 1 && SameDims(points, |points[0].coords|)
  }

  lemma WellFormedBuildable(points: seq<Point>, search: Point)
    requires WellFormed(points, search)
    ensures Buildable(points)
  {
    if points != [] {
      assert points[0] in points;
    }
  }

  /**
   The built tree holds every input number as often as it occurs, has one
   node per point, is size-balanced at every node, and is k-d ordered from
   the root, whose split axis is axis 0.
   */
  lemma FillTreeBuilds(points: seq<Point>)
    requires Buildable(points)
    ensures FillTree(points).Size() == |points|
    ensures Ids(FillTree(points)) == PointIds(points)
    ensures Balanced(FillTree(points))
    ensures points != [] ==> KdOrdered(FillTree(points), 0, |points[0].coords|)
  {
    if points != [] {
      var dims := |points[0].coords|;
      FillTreeRIds(points, 0, dims);
      FillTreeRBalanced(points, 0, dims);
      FillTreeRKdOrdered(points, 0, dims);
    }
  }

  /** A well-formed query can search the tree built from its points, and the tree offers exactly the points' pool. */
  lemma BuiltTreeSearchable(points: seq<Point>, search: Point)
    requires WellFormed(points, search)
    ensures Buildable(points)
    ensures Searchable(FillTree(points), search)
    ensures KdOrdered(FillTree(points), 0, |search.coords|)
    ensures TreePool(FillTree(points), search) == Pool(points, search)
  {
    WellFormedBuildable(points, search);
    var t := FillTree(points);
    var dims := |search.coords|;
    if points != [] {
      FillTreeRKdOrdered(points, 0, dims);
      TreeDimsFlatten(t, dims);
      TreePoolIsPool(t, search);
      assert Comparable(points, search) by {
        assert forall p | p in points :: |p.coords| == dims;
      }
      PoolOfPermutation(points, t.Flatten(), search);
    }
  }

  /**
   With the corrected bound, querying the built tree returns the `k`
   nearest stored points other than the query itself, nearest first, and
   exactly `min(k, n)` of them where `n` is the number of such points.
   */
  lemma FixedSearchIsKNearest(points: seq<Point>, search: Point, k: nat)
    requires k >= 1 && WellFormed(points, search)
    ensures Buildable(points) && Searchable(FillTree(points), search)
    ensures Comparable(points, search)
    ensures KNearest(NnSearchFixed(FillTree(points), search, [], k, 0), Pool(points, search), k)
    ensures |NnSearchFixed(FillTree(points), search, [], k, 0)| == Min(|Pool(points, search)|, k)
  {
    BuiltTreeSearchable(points, search);
    var t := FillTree(points);
    var r := NnSearchFixed(t, search, [], k, 0);
    assert KNearest([], multiset{}, k);
    NnSearchFixedNearest(t, search, [], multiset{}, k, 0);
    assert multiset{} + TreePool(t, search) == Pool(points, search);
    KNearestLength(r, Pool(points, search), k);
  }

  /** For one neighbour the search as `nn_search` performs it returns the nearest stored point other than the query. */
  lemma SearchOneIsNearest(points: seq<Point>, search: Point)
    requires WellFormed(points, search)
    ensures Buildable(points) && Searchable(FillTree(points), search)
    ensures Comparable(points, search)
    ensures KNearest(NnSearch(FillTree(points), search, [], 1, 0), Pool(points, search), 1)
  {
    FixedSearchIsKNearest(points, search, 1);
    NnSearchOneIsFixed(FillTree(points), search, [], 0);
  }

  /**
   The result copy as `run_nn_search` writes it: all `k` slots of the buffer
   are reported, and the slots past the final count still hold whatever
   the buffer held before the search, since no insertion writes past the
   count it returns.
   */
  function RunNnSearchCopy(root: Tree, k: nat, search: Point, initial: seq<Pair>): (ids: seq<int>)
    requires k >= 1 && Searchable(root, search) && |initial| == k
    ensures |ids| == k
    ensures ids[..|NnSearch(root, search, [], k, 0)|] == RunNnSearch(root, k, search)
  {
    var kept := NnSearch(root, search, [], k, 0);
    Nums(kept + initial[|kept|..])
  }

  /**
   `run_nn_search` on the buffer: the search writes the buffer `initial`
   of `k` slots, starting with none in use, and the copy loop then reports
   the number in every slot. What it reports is the list-level copy above:
   the kept entries followed by the untouched remainder of `initial`.
   */
  method RunNnSearchBuffer(root: Tree, k: nat, search: Point, initial: seq<Pair>) returns (ids: seq<int>)
    requires k >= 1 && Searchable(root, search) && |initial| == k
    ensures ids == RunNnSearchCopy(root, k, search, initial)
  {
    var nearest, count := NnSearchBuffer(LastKept, root, search, initial, 0, k, 0);
    BufferIsCopy(root, k, search, initial, nearest, count);
    ids := CopyNums(nearest);
  }

  /** A buffer whose slots in use hold the search's entries and whose other slots are untouched is what the copy reports. */
  lemma BufferIsCopy(root: Tree, k: nat, search: Point, initial: seq<Pair>, nearest: seq<Pair>, count: nat)
    requires k >= 1 && Searchable(root, search) && |initial| == k && |nearest| == k && count <= k
    requires nearest[..count] == NnSearchBy(LastKept, root, search, initial[..0], k, 0)
    requires nearest[count..] == initial[count..]
    ensures Nums(nearest) == RunNnSearchCopy(root, k, search, initial)
  {
    assert initial[..0] == [];
    assert nearest == nearest[..count] + nearest[count..];
  }

  /** The copy loop of `run_nn_search`: the number in every slot of the buffer, in slot order. */
  method CopyNums(nearest: seq<Pair>) returns (ids: seq<int>)
    ensures ids == Nums(nearest)
  {
    ids := [];
    var i := 0;
    while i < |nearest|
      invariant 0 <= i <= |nearest|
      invariant |ids| == i
      invariant forall j | 0 <= j < i :: ids[j] == nearest[j].num
    {
      ids := ids + [nearest[i].num];
      i := i + 1;
    }
  }

  /** Three points one apart on a line, from `x` on, queried from the first with room for all three. */
  function LinePoints(x: int): seq<Point>
  {
    [Point(1, [x]), Point(2, [x + 1]), Point(3, [x + 2])]
  }

  /** The query: number 0, at the first point. */
  function LineQuery(x: int): Point
  {
    Point(0, [x])
  }

  /** The tree built from the three points: the middle one at the root, one child on each side. */
  function LineTree(x: int): Tree
  {
    Node(2, [x + 1], Node(1, [x], Nil, Nil), Node(3, [x + 2], Nil, Nil))
  }

  /** Three one-axis points already in order along the axis are left as they are by the sort. */
  lemma SortThree(a: Point, b: Point, c: Point)
    requires |a.coords| == |b.coords| == |c.coords| == 1
    requires a.coords[0] <= b.coords[0] <= c.coords[0]
    ensures HasAxis([a, b, c], 0) && SortByAxis([a, b, c], 0) == [a, b, c]
  {
    SortTwo(b, c);
    SortCons(a, [b, c], 0);
    InsertInFront(a, [b, c], 0);
    assert [a] + [b, c] == [a, b, c];
  }

  /** Two one-axis points already in order along the axis are left as they are by the sort. */
  lemma SortTwo(b: Point, c: Point)
    requires |b.coords| == |c.coords| == 1 && b.coords[0] <= c.coords[0]
    ensures HasAxis([b, c], 0) && SortByAxis([b, c], 0) == [b, c]
  {
    SortCons(c, [], 0);
    assert [c] + [] == [c];
    SortCons(b, [c], 0);
    InsertInFront(b, [c], 0);
    assert [b] + [c] == [b, c];
  }

  /** The sort of a slice inserts its first point into the sorted rest. */
  lemma SortCons(p: Point, ps: seq<Point>, axis: nat)
    requires axis < |p.coords| && HasAxis(ps, axis)
    ensures HasAxis([p] + ps, axis)
    ensures SortByAxis([p] + ps, axis) == Insert(p, SortByAxis(ps, axis), axis)
  {
    assert ([p] + ps)[1..] == ps;
  }

  /** A point no greater than the first of a slice on the axis goes in front. */
  lemma InsertInFront(p: Point, ps: seq<Point>, axis: nat)
    requires axis < |p.coords| && HasAxis(ps, axis)
    requires ps != [] && p.coords[axis] <= ps[0].coords[axis]
    ensures Insert(p, ps, axis) == [p] + ps
  {
  }

  /** A single point becomes a leaf. */
  lemma FillLeaf(p: Point, depth: nat)
    requires |p.coords| == 1
    ensures SameDims([p], 1) && FillTreeR([p], depth, 1) == Node(p.num, p.coords, Nil, Nil)
  {
    assert SortByAxis([p], 0) == [p];
  }

  /** Three one-axis points in order along the axis become the middle one over a leaf on each side. */
  lemma FillThree(a: Point, b: Point, c: Point)
    requires |a.coords| == |b.coords| == |c.coords| == 1
    requires a.coords[0] <= b.coords[0] <= c.coords[0]
    ensures SameDims([a, b, c], 1)
    ensures FillTreeR([a, b, c], 0, 1)
      == Node(b.num, b.coords, Node(a.num, a.coords, Nil, Nil), Node(c.num, c.coords, Nil, Nil))
  {
    OuterLeaves(a, b, c);
    assert SameDims([a, b, c], 1) && FillTreeR([a, b, c], 0, 1)
      == Node(b.num, b.coords, FillTreeR([a, b, c][..1], 1, 1), FillTreeR([a, b, c][2..], 1, 1)) by {
      SortThree(a, b, c);
      assert PickAxis(0, 1) == 0;
      FillTreeRShape([a, b, c], 0, 1);
    }
  }

  /** The outer points of three, built one level down, become leaves. */
  lemma OuterLeaves(a: Point, b: Point, c: Point)
    requires |a.coords| == |b.coords| == |c.coords| == 1
    ensures SameDims([a, b, c][..1], 1) && FillTreeR([a, b, c][..1], 1, 1) == Node(a.num, a.coords, Nil, Nil)
    ensures SameDims([a, b, c][2..], 1) && FillTreeR([a, b, c][2..], 1, 1) == Node(c.num, c.coords, Nil, Nil)
  {
    assert [a, b, c][..1] == [a] && [a, b, c][2..] == [c];
    FillLeaf(a, 1);
    FillLeaf(c, 1);
  }

  lemma BuildLine(x: int)
    ensures Buildable(LinePoints(x)) && FillTree(LinePoints(x)) == LineTree(x)
  {
    var ps := LinePoints(x);
    FillThree(ps[0], ps[1], ps[2]);
    assert ps == [ps[0], ps[1], ps[2]];
  }

  /** The offers of the three points to the query: squared distances 0, 1 and 4. */
  lemma LineOffers(x: int)
    ensures Offer(Point(1, [x]), LineQuery(x)) == Pair(1, 0)
    ensures Offer(Point(2, [x + 1]), LineQuery(x)) == Pair(2, 1)
    ensures Offer(Point(3, [x + 2]), LineQuery(x)) == Pair(3, 4)
  {
    assert SqDist([x], [x], 1) == SqDist([x], [x], 0) + Square(0);
    assert SqDist([x + 1], [x], 1) == SqDist([x + 1], [x], 0) + Square(1);
    assert SqDist([x + 2], [x], 1) == SqDist([x + 2], [x], 0) + Square(2);
  }

  /** The three insertions the searches make, each at the end of a list with room. */
  lemma LineInsertions()
    ensures AddBest([], Pair(1, 0), 3) == [Pair(1, 0)]
    ensures AddBest([Pair(1, 0)], Pair(2, 1), 3) == [Pair(1, 0), Pair(2, 1)]
    ensures AddBest([Pair(1, 0), Pair(2, 1)], Pair(3, 4), 3) == [Pair(1, 0), Pair(2, 1), Pair(3, 4)]
  {
    assert FirstGreater([], 0) == 0;
    assert FirstGreater([Pair(1, 0)], 1) == 1 by {
      assert FirstGreater([Pair(1, 0)][1..], 1) == 0;
    }
    assert FirstGreater([Pair(1, 0), Pair(2, 1)], 4) == 2 by {
      var s := [Pair(1, 0), Pair(2, 1)];
      assert s[1..][1..] == [];
      assert FirstGreater(s[1..], 4) == 1;
    }
  }

  lemma OfferThird(x: int)
    ensures Searchable(Node(3, [x + 2], Nil, Nil), LineQuery(x))
    ensures OfferSelf(Node(3, [x + 2], Nil, Nil), LineQuery(x), [Pair(1, 0), Pair(2, 1)], 3)
      == [Pair(1, 0), Pair(2, 1), Pair(3, 4)]
  {
    LineOffers(x);
    LineInsertions();
  }

  lemma LineNums()
    ensures Nums([Pair(1, 0), Pair(2, 1)]) == [1, 2]
    ensures Nums([Pair(1, 0), Pair(2, 1), Pair(3, 4)]) == [1, 2, 3]
  {
  }

  /** The pool of the three points: each is offered once, none being the query. */
  lemma LinePool(x: int)
    ensures Comparable(LinePoints(x), LineQuery(x))
    ensures Pool(LinePoints(x), LineQuery(x)) == multiset{Pair(1, 0), Pair(2, 1), Pair(3, 4)}
  {
    var ps := LinePoints(x);
    var search := LineQuery(x);
    LineOffers(x);
    assert Comparable(ps, search) by {
      assert forall p | p in ps :: |p.coords| == 1;
    }
    assert ps[..2][..1] == [ps[0]] && ps[..2] == ps[..|ps| - 1];
    SinglePool(ps[0], search);
    assert Pool(ps[..2], search) == multiset{Pair(1, 0), Pair(2, 1)};
  }

  /** A search of a leaf only offers the leaf. */
  lemma LeafSearch(rule: FarRule, leaf: Tree, search: Point, best: seq<Pair>, k: nat, depth: nat)
    requires leaf.Node? && leaf.left == Nil && leaf.right == Nil
    requires k >= 1 && |best| <= k && Searchable(leaf, search)
    ensures NnSearchBy(rule, leaf, search, best, k, depth) == OfferSelf(leaf, search, best, k)
  {
  }

  /** The search of the line tree up to the far-branch decision: near leaf, then the root. */
  lemma LineNearAndRoot(rule: FarRule, x: int)
    ensures Searchable(LineTree(x), LineQuery(x))
    ensures var t := LineTree(x);
      var search := LineQuery(x);
      && Near(t, search, 0) == t.left && Far(t, search, 0) == t.right
      && PlaneGap(t, search, 0) == 1
      && OfferSelf(t, search, NnSearchBy(rule, t.left, search, [], 3, 1), 3) == [Pair(1, 0), Pair(2, 1)]
  {
    var t := LineTree(x);
    var search := LineQuery(x);
    LineOffers(x);
    LineInsertions();
    LeafSearch(rule, t.left, search, [], 3, 1);
    assert NodePoint(t) == Point(2, [x + 1]);
  }

  /** As `nn_search` searches the line tree, the far leaf is pruned. */
  lemma LineSearchAsWritten(x: int)
    ensures Searchable(LineTree(x), LineQuery(x))
    ensures NnSearch(LineTree(x), LineQuery(x), [], 3, 0) == [Pair(1, 0), Pair(2, 1)]
  {
    var nodeList := [Pair(1, 0), Pair(2, 1)];
    LineNearAndRoot(LastKept, x);
    NnSearchStep(LastKept, LineTree(x), LineQuery(x), [], 3, 0);
    assert !VisitFar(LastKept, nodeList, 3, 1);
  }

  /** With the corrected bound the far leaf is searched and offered. */
  lemma LineSearchFixed(x: int)
    ensures Searchable(LineTree(x), LineQuery(x))
    ensures NnSearchFixed(LineTree(x), LineQuery(x), [], 3, 0) == [Pair(1, 0), Pair(2, 1), Pair(3, 4)]
  {
    var t := LineTree(x);
    var search := LineQuery(x);
    var nodeList := [Pair(1, 0), Pair(2, 1)];
    LineNearAndRoot(WhenFull, x);
    NnSearchStep(WhenFull, t, search, [], 3, 0);
    assert VisitFar(WhenFull, nodeList, 3, 1);
    LeafSearch(WhenFull, t.right, search, nodeList, 3, 1);
    OfferThird(x);
  }

  /**
   The bound of `nn_search` prunes before the list is full: of the three points
   in the pool, the search returns two. The far branch holding point 3 is
   skipped because the plane is no nearer than the last kept entry,
   although only two of three slots are filled.
   */
  lemma PrunedBeforeFull(x: int)
    ensures Buildable(LinePoints(x)) && Searchable(FillTree(LinePoints(x)), LineQuery(x))
    ensures RunNnSearch(FillTree(LinePoints(x)), 3, LineQuery(x)) == [1, 2]
  {
    BuildLine(x);
    LineSearchAsWritten(x);
    LineNums();
  }

  /** With the corrected bound the same query returns all three points, nearest first. */
  lemma FixedFindsAll(x: int)
    ensures Buildable(LinePoints(x)) && Searchable(FillTree(LinePoints(x)), LineQuery(x))
    ensures RunNnSearchFixed(FillTree(LinePoints(x)), 3, LineQuery(x)) == [1, 2, 3]
  {
    BuildLine(x);
    LineSearchFixed(x);
    LineNums();
  }

  /**
   The result copy of `run_nn_search` reports a slot nothing was written to: when
   the only stored point is the query itself, the single slot keeps its
   earlier contents, which may carry the query's own number.
   */
  lemma CopyReportsUnwrittenSlot()
    ensures Searchable(Node(7, [0], Nil, Nil), Point(7, [0]))
    ensures RunNnSearchCopy(Node(7, [0], Nil, Nil), 1, Point(7, [0]), [Pair(7, 0)]) == [7]
    ensures RunNnSearch(Node(7, [0], Nil, Nil), 1, Point(7, [0])) == []
  {
  }
}
