/**
 The k-d tree and its construction by recursive median split.

 A node holds the identifying number and a copy of the coordinates of the
 point it was built from, and owns its two subtrees outright. At depth `d`
 the builder orders the current slice along axis `d mod dims`, keeps the
 point at index `n / 2` for the node, and builds the left subtree from the
 points before it and the right subtree from the points after it.
 */
module KdTree {
  import opened Geometry
  import opened AxisSort

  datatype Tree = Nil | Node(num: int, coords: Coords, left: Tree, right: Tree)
  {
    /** The number of nodes. */
    function Size(): (n: nat)
    {
      match this
      case Nil => 0
      case Node(_, _, l, r) => l.Size() + 1 + r.Size()
    }

    /** The points stored in the tree, in order: left subtree, node, right subtree. */
    function Flatten(): (ps: seq<Point>)
      ensures |ps| == Size()
    {
      match this
      case Nil => []
      case Node(num, coords, l, r) => l.Flatten() + [Point(num, coords)] + r.Flatten()
    }
  }

  /** The multiset of identifying numbers stored in `t`. */
  function Ids(t: Tree): (ids: multiset<int>)
  {
    match t
    case Nil => multiset{}
    case Node(num, _, l, r) => Ids(l) + multiset{num} + Ids(r)
  }

  /** The multiset of identifying numbers of a slice of points. */
  function PointIds(ps: seq<Point>): (ids: multiset<int>)
  {
    if ps == [] then multiset{} else PointIds(ps[..|ps| - 1]) + multiset{ps[|ps| - 1].num}
  }

  /** Every node of `t` has exactly `dims` coordinates. */
  predicate TreeDims(t: Tree, dims: nat)
  {
    match t
    case Nil => true
    case Node(_, coords, l, r) => |coords| == dims && TreeDims(l, dims) && TreeDims(r, dims)
  }

  /** A tree has `dims` coordinates at every node exactly when its in-order points all do. */
  lemma {:induction false} TreeDimsFlatten(t: Tree, dims: nat)
    ensures TreeDims(t, dims) <==> SameDims(t.Flatten(), dims)
  {
    match t
    case Nil =>
    case Node(num, coords, l, r) =>
      TreeDimsFlatten(l, dims);
      TreeDimsFlatten(r, dims);
      assert t.Flatten() == l.Flatten() + [Point(num, coords)] + r.Flatten();
      assert Point(num, coords) in t.Flatten();
      if SameDims(t.Flatten(), dims) {
        assert SameDims(l.Flatten(), dims) && SameDims(r.Flatten(), dims);
      }
  }

  /** At every node, the left subtree has the same size as the right one or one more. */
  predicate Balanced(t: Tree)
  {
    match t
    case Nil => true
    case Node(_, _, l, r) =>
      && 0 <= l.Size() - r.Size() <= 1
      && Balanced(l) && Balanced(r)
  }

  /**
   The k-d ordering of a tree whose root sits at `depth`: along the axis of
   each node, no point of its left subtree lies above the node and no point
   of its right subtree lies below it.
   */
  predicate KdOrdered(t: Tree, depth: nat, dims: nat)
    requires dims >= 1
  {
    match t
    case Nil => true
    case Node(_, coords, l, r) =>
      var axis := PickAxis(depth, dims);
      && axis < |coords|
      && (forall p | p in l.Flatten() :: axis < |p.coords| && p.coords[axis] <= coords[axis])
      && (forall p | p in r.Flatten() :: axis < |p.coords| && coords[axis] <= p.coords[axis])
      && KdOrdered(l, depth + 1, dims)
      && KdOrdered(r, depth + 1, dims)
  }

  /** Points that share a dimensionality at least `axis + 1` all have a coordinate on `axis`. */
  lemma SameDimsHasAxis(ps: seq<Point>, dims: nat, axis: nat)
    requires SameDims(ps, dims) && axis < dims
    ensures HasAxis(ps, axis)
  {
  }

  /** Reordering a slice keeps its dimensionality. */
  lemma SameDimsOfPermutation(a: seq<Point>, b: seq<Point>, dims: nat)
    requires multiset(a) == multiset(b) && SameDims(b, dims)
    ensures SameDims(a, dims)
  {
    forall p | p in a ensures |p.coords| == dims {
      assert p in multiset(b);
    }
  }

  /** The sorted slice splits into the part before the median, the median and the part after it. */
  lemma SplitAtMedian(points: seq<Point>, sorted: seq<Point>, median: nat, dims: nat)
    requires multiset(sorted) == multiset(points) && SameDims(points, dims)
    requires median < |sorted|
    ensures sorted == sorted[..median] + [sorted[median]] + sorted[median + 1..]
    ensures multiset(points) == multiset(sorted[..median]) + multiset{sorted[median]} + multiset(sorted[median + 1..])
    ensures SameDims(sorted, dims)
    ensures SameDims(sorted[..median], dims) && SameDims(sorted[median + 1..], dims)
    ensures |sorted[median].coords| == dims
  {
    assert sorted == sorted[..median] + [sorted[median]] + sorted[median + 1..];
    SameDimsOfPermutation(sorted, points, dims);
  }

  /**
   The recursive builder for a slice of points at `depth`. It stores every
   point of the slice exactly once, so the tree has one node per point.
   */
  function FillTreeR(points: seq<Point>, depth: nat, dims: nat): (t: Tree)
    requires dims >= 1 && SameDims(points, dims)
    ensures t.Size() == |points|
    ensures multiset(t.Flatten()) == multiset(points)
    ensures TreeDims(t, dims)
    decreases |points|
  {
    if |points| == 0 then Nil
    else
      var axis := PickAxis(depth, dims);
      SameDimsHasAxis(points, dims, axis);
      var sorted := SortByAxis(points, axis);
      var median := |points| / 2;
      SplitAtMedian(points, sorted, median, dims);
      var left := if median > 0 then FillTreeR(sorted[..median], depth + 1, dims) else Nil;
      var right := if |points| - median - 1 > 0 then FillTreeR(sorted[median + 1..], depth + 1, dims) else Nil;
      var t := Node(sorted[median].num, sorted[median].coords, left, right);
      SameDimsOfPermutation(t.Flatten(), points, dims);
      TreeDimsFlatten(t, dims);
      t
  }

  /** Builds the tree for a whole point set, taking the dimensionality from the first point. */
  function FillTree(points: seq<Point>): (t: Tree)
    requires points != [] ==> |points[0].coords| >= 1 && SameDims(points, |points[0].coords|)
    ensures t.Size() == |points|
    ensures points == [] <==> t == Nil
  {
    if points == [] then Nil else FillTreeR(points, 0, |points[0].coords|)
  }

  /** The builder keeps the identifying numbers of the input, each as often as it occurs. */
  lemma {:induction false} FillTreeRIds(points: seq<Point>, depth: nat, dims: nat)
    requires dims >= 1 && SameDims(points, dims)
    ensures Ids(FillTreeR(points, depth, dims)) == PointIds(points)
  {
    FlattenIds(FillTreeR(points, depth, dims));
    PointIdsOfPermutation(FillTreeR(points, depth, dims).Flatten(), points);
  }

  /** One step of the builder: the median of the slice sorted on the depth's axis, over the trees of the two halves. */
  lemma FillTreeRShape(points: seq<Point>, depth: nat, dims: nat)
    requires dims >= 1 && SameDims(points, dims) && |points| > 0
    ensures HasAxis(points, PickAxis(depth, dims))
    ensures var sorted := SortByAxis(points, PickAxis(depth, dims));
      var median := |points| / 2;
      && SameDims(sorted[..median], dims) && SameDims(sorted[median + 1..], dims)
      && FillTreeR(points, depth, dims)
        == Node(sorted[median].num, sorted[median].coords,
                if median > 0 then FillTreeR(sorted[..median], depth + 1, dims) else Nil,
                if |points| - median - 1 > 0 then FillTreeR(sorted[median + 1..], depth + 1, dims) else Nil)
  {
    var axis := PickAxis(depth, dims);
    SameDimsHasAxis(points, dims, axis);
    SplitAtMedian(points, SortByAxis(points, axis), |points| / 2, dims);
  }

  /** At every node the children are built from `n / 2` and `n - n / 2 - 1` points. */
  lemma {:induction false} FillTreeRBalanced(points: seq<Point>, depth: nat, dims: nat)
    requires dims >= 1 && SameDims(points, dims)
    ensures Balanced(FillTreeR(points, depth, dims))
    decreases |points|
  {
    if |points| > 0 {
      FillTreeRShape(points, depth, dims);
      var sorted := SortByAxis(points, PickAxis(depth, dims));
      var median := |points| / 2;
      var left := if median > 0 then FillTreeR(sorted[..median], depth + 1, dims) else Nil;
      var right := if |points| - median - 1 > 0 then FillTreeR(sorted[median + 1..], depth + 1, dims) else Nil;
      if median > 0 {
        FillTreeRBalanced(sorted[..median], depth + 1, dims);
      }
      if |points| - median - 1 > 0 {
        FillTreeRBalanced(sorted[median + 1..], depth + 1, dims);
      }
      BalancedNode(sorted[median].num, sorted[median].coords, left, right);
    }
  }

  lemma BalancedNode(num: int, coords: Coords, left: Tree, right: Tree)
    requires Balanced(left) && Balanced(right) && 0 <= left.Size() - right.Size() <= 1
    ensures Balanced(Node(num, coords, left, right))
  {
  }

  /** In a slice ascending on `axis`, the points before the median lie at or below it and those after it at or above. */
  lemma MedianBounds(sorted: seq<Point>, median: nat, axis: nat)
    requires HasAxis(sorted, axis) && SortedOnAxis(sorted, axis) && median < |sorted|
    ensures forall p | p in multiset(sorted[..median]) :: p.coords[axis] <= sorted[median].coords[axis]
    ensures forall p | p in multiset(sorted[median + 1..]) :: sorted[median].coords[axis] <= p.coords[axis]
  {
    forall p | p in multiset(sorted[..median]) ensures p.coords[axis] <= sorted[median].coords[axis] {
      var i :| 0 <= i < median && sorted[i] == p;
    }
    forall p | p in multiset(sorted[median + 1..]) ensures sorted[median].coords[axis] <= p.coords[axis] {
      var i :| median + 1 <= i < |sorted| && sorted[i] == p;
    }
  }

  /** A node whose subtrees are k-d ordered and lie on the correct sides of it is k-d ordered. */
  lemma KdOrderedNode(m: Point, left: Tree, right: Tree, depth: nat, dims: nat)
    requires dims >= 1 && |m.coords| == dims && SameDims(left.Flatten(), dims) && SameDims(right.Flatten(), dims)
    requires KdOrdered(left, depth + 1, dims) && KdOrdered(right, depth + 1, dims)
    requires forall p | p in multiset(left.Flatten()) :: p.coords[PickAxis(depth, dims)] <= m.coords[PickAxis(depth, dims)]
    requires forall p | p in multiset(right.Flatten()) :: m.coords[PickAxis(depth, dims)] <= p.coords[PickAxis(depth, dims)]
    ensures TreeDims(Node(m.num, m.coords, left, right), dims)
    ensures KdOrdered(Node(m.num, m.coords, left, right), depth, dims)
  {
    var axis := PickAxis(depth, dims);
    TreeDimsFlatten(left, dims);
    TreeDimsFlatten(right, dims);
    TreeDimsFlatten(Node(m.num, m.coords, left, right), dims);
    forall p | p in left.Flatten() ensures axis < |p.coords| && p.coords[axis] <= m.coords[axis] {
      assert p in multiset(left.Flatten());
    }
    forall p | p in right.Flatten() ensures axis < |p.coords| && m.coords[axis] <= p.coords[axis] {
      assert p in multiset(right.Flatten());
    }
  }

  /** The tree built at `depth` is k-d ordered from that depth down. */
  lemma {:induction false} FillTreeRKdOrdered(points: seq<Point>, depth: nat, dims: nat)
    requires dims >= 1 && SameDims(points, dims)
    ensures KdOrdered(FillTreeR(points, depth, dims), depth, dims)
    decreases |points|
  {
    if |points| > 0 {
      var axis := PickAxis(depth, dims);
      SameDimsHasAxis(points, dims, axis);
      var sorted := SortByAxis(points, axis);
      var median := |points| / 2;
      SplitAtMedian(points, sorted, median, dims);
      MedianBounds(sorted, median, axis);
      var m := sorted[median];
      var left := if median > 0 then FillTreeR(sorted[..median], depth + 1, dims) else Nil;
      var right := if |points| - median - 1 > 0 then FillTreeR(sorted[median + 1..], depth + 1, dims) else Nil;
      if median > 0 {
        FillTreeRKdOrdered(sorted[..median], depth + 1, dims);
      }
      if |points| - median - 1 > 0 {
        FillTreeRKdOrdered(sorted[median + 1..], depth + 1, dims);
      }
      TreeDimsFlatten(left, dims);
      TreeDimsFlatten(right, dims);
      KdOrderedNode(m, left, right, depth, dims);
      assert FillTreeR(points, depth, dims) == Node(m.num, m.coords, left, right);
    }
  }

  /** The identifying numbers of a tree are those of its in-order points. */
  lemma {:induction false} FlattenIds(t: Tree)
    ensures Ids(t) == PointIds(t.Flatten())
  {
    match t
    case Nil =>
    case Node(num, coords, l, r) =>
      FlattenIds(l);
      FlattenIds(r);
      PointIdsAppend(l.Flatten() + [Point(num, coords)], r.Flatten());
      PointIdsAppend(l.Flatten(), [Point(num, coords)]);
  }

  lemma {:induction false} PointIdsAppend(a: seq<Point>, b: seq<Point>)
    ensures PointIds(a + b) == PointIds(a) + PointIds(b)
    decreases |b|
  {
    if b != [] {
      assert (a + b)[..|a + b| - 1] == a + b[..|b| - 1];
      PointIdsAppend(a, b[..|b| - 1]);
    } else {
      assert a + b == a;
    }
  }

  /** The first position of `x` in `b`. */
  function IndexOf<T(==)>(b: seq<T>, x: T): (j: nat)
    requires x in b
    ensures j < |b| && b[j] == x
  {
    if b[0] == x then 0 else IndexOf(b[1..], x) + 1
  }

  /** Removing the last element of one sequence and a matching element of a permutation of it leaves permutations. */
  lemma RemoveMatching<T>(a: seq<T>, b: seq<T>, j: nat)
    requires multiset(a) == multiset(b) && a != [] && j < |b| && b[j] == a[|a| - 1]
    ensures multiset(a[..|a| - 1]) == multiset(b[..j] + b[j + 1..])
  {
    var x := a[|a| - 1];
    assert b == b[..j] + [x] + b[j + 1..];
    assert a == a[..|a| - 1] + [x];
    assert multiset(a[..|a| - 1]) == multiset(a) - multiset{x};
    assert multiset(b[..j] + b[j + 1..]) == multiset(b) - multiset{x};
  }

  /** Taking a point out of the middle of a slice takes its number out of the slice's numbers. */
  lemma PointIdsMiddle(front: seq<Point>, x: Point, back: seq<Point>)
    ensures PointIds(front + [x] + back) == PointIds(front + back) + multiset{x.num}
  {
    PointIdsAppend(front + [x], back);
    PointIdsAppend(front, [x]);
    PointIdsAppend(front, back);
    PointIdsSingle(x);
  }

  lemma PointIdsSingle(x: Point)
    ensures PointIds([x]) == multiset{x.num}
  {
    assert [x][..0] == [];
  }

  /** Reordering a slice does not change its multiset of identifying numbers. */
  lemma {:induction false} PointIdsOfPermutation(a: seq<Point>, b: seq<Point>)
    requires multiset(a) == multiset(b)
    ensures PointIds(a) == PointIds(b)
    decreases |a|
  {
    if a != [] {
      var x := a[|a| - 1];
      assert x in multiset(b);
      var j := IndexOf(b, x);
      var rest := b[..j] + b[j + 1..];
      assert PointIds(a[..|a| - 1]) == PointIds(rest) by {
        RemoveMatching(a, b, j);
        PointIdsOfPermutation(a[..|a| - 1], rest);
      }
      assert PointIds(b) == PointIds(rest) + multiset{x.num} by {
        assert b == b[..j] + [x] + b[j + 1..];
        PointIdsMiddle(b[..j], x, b[j + 1..]);
      }
    } else {
      assert |b| == |multiset(b)| == |multiset(a)| == 0;
    }
  }
}
