/**
 Points, the squared Euclidean distance and axis selection shared by the
 tree builder and the nearest-neighbour search.

 Coordinates are exact integers, so squared distances are exact as well.
 */
module Geometry {

  /** A coordinate vector; its length is the dimensionality of the point. */
  type Coords = seq<int>

  /** A point handed to the builder: its identifying number and its coordinates. */
  datatype Point = Point(num: int, coords: Coords)

  /** Every point of `ps` has exactly `dims` coordinates. */
  predicate SameDims(ps: seq<Point>, dims: nat)
  {
    forall p | p in ps :: |p.coords| == dims
  }

  function Square(x: int): (r: int)
    ensures r >= 0
  {
    x * x
  }

  /** Squaring is monotone on the non-negative integers. */
  lemma SquareMonotone(a: int, b: int)
    requires 0 <= a <= b
    ensures Square(a) <= Square(b)
  {
    calc {
      Square(a);
      a * a;
    <= { assert a * a <= a * b; }
      a * b;
    <= { assert a * b <= b * b; }
      b * b;
    }
  }

  /** The square of a difference only depends on the distance between the two values. */
  lemma SquareOfNegation(x: int)
    ensures Square(-x) == Square(x)
  {
  }

  /**
   The sum of the squared coordinate differences over the first `dims`
   axes, accumulated in axis order.
   */
  function SqDist(a: Coords, b: Coords, dims: nat): (d: int)
    requires dims <= |a| && dims <= |b|
    ensures d >= 0
  {
    if dims == 0 then 0
    else SqDist(a, b, dims - 1) + Square(a[dims - 1] - b[dims - 1])
  }

  /** The accumulation loop of the distance computation. */
  method SqDistLoop(a: Coords, b: Coords, dims: nat) returns (dist: int)
    requires dims <= |a| && dims <= |b|
    ensures dist == SqDist(a, b, dims)
    ensures dist >= 0
  {
    dist := 0;
    var k := 0;
    while k < dims
      invariant 0 <= k <= dims
      invariant dist == SqDist(a, b, k)
    {
      var diff := a[k] - b[k];
      dist := dist + diff * diff;
      k := k + 1;
    }
  }

  /** The distance is zero exactly when the two points agree on every axis. */
  lemma {:induction false} SqDistZeroIff(a: Coords, b: Coords, dims: nat)
    requires dims <= |a| && dims <= |b|
    ensures SqDist(a, b, dims) == 0 <==> a[..dims] == b[..dims]
  {
    if dims > 0 {
      SqDistZeroIff(a, b, dims - 1);
      var d := a[dims - 1] - b[dims - 1];
      if d != 0 {
        assert Square(d) > 0 by { assert d * d > 0; }
        assert a[..dims][dims - 1] != b[..dims][dims - 1];
      } else {
        assert a[..dims] == a[..dims - 1] + [a[dims - 1]];
        assert b[..dims] == b[..dims - 1] + [b[dims - 1]];
        if a[..dims] == b[..dims] {
          assert a[..dims - 1] == a[..dims][..dims - 1];
          assert b[..dims - 1] == b[..dims][..dims - 1];
        }
      }
    }
  }

  /** The distance does not depend on the order of its arguments. */
  lemma {:induction false} SqDistSymmetric(a: Coords, b: Coords, dims: nat)
    requires dims <= |a| && dims <= |b|
    ensures SqDist(a, b, dims) == SqDist(b, a, dims)
  {
    if dims > 0 {
      SqDistSymmetric(a, b, dims - 1);
      SquareOfNegation(a[dims - 1] - b[dims - 1]);
      assert b[dims - 1] - a[dims - 1] == -(a[dims - 1] - b[dims - 1]);
    }
  }

  /**
   The distance is at least the squared difference along any one axis:
   the lower bound that justifies skipping a subtree across a splitting
   hyperplane.
   */
  lemma {:induction false} SqDistAxisBound(a: Coords, b: Coords, dims: nat, axis: nat)
    requires dims <= |a| && dims <= |b|
    requires axis < dims
    ensures Square(a[axis] - b[axis]) <= SqDist(a, b, dims)
  {
    if axis < dims - 1 {
      SqDistAxisBound(a, b, dims - 1, axis);
    }
  }

  /** The axis a node at `depth` splits on: the axes are used in turn. */
  function PickAxis(depth: nat, dims: nat): (axis: nat)
    requires dims >= 1
    ensures axis < dims
  {
    depth % dims
  }

  /** The first `dims` levels use the axes in order, after which the cycle repeats. */
  lemma PickAxisCycles(depth: nat, dims: nat)
    requires dims >= 1
    ensures depth < dims ==> PickAxis(depth, dims) == depth
    ensures PickAxis(depth + dims, dims) == PickAxis(depth, dims)
  {
    var q, r := depth / dims, depth % dims;
    assert depth + dims == (q + 1) * dims + r;
    ModOfDecomposition(depth + dims, dims, q + 1, r);
  }

  /** A remainder is determined by any decomposition with an in-range rest. */
  lemma ModOfDecomposition(n: nat, d: nat, q: int, r: int)
    requires d >= 1 && 0 <= r < d && n == q * d + r
    ensures n % d == r
  {
    var q', r' := n / d, n % d;
    assert n == q' * d + r';
    var m := q - q';
    assert m * d == r' - r by {
      assert q * d - q' * d == (q - q') * d;
    }
  }

  /**
   Three-way comparison of two points along `axis`: negative, zero or
   positive as the first point's coordinate is below, equal to or above
   the second's.
   */
  function CompAxis(a: Point, b: Point, axis: nat): (c: int)
    requires axis < |a.coords| && axis < |b.coords|
    ensures c == -1 || c == 0 || c == 1
    ensures c < 0 <==> a.coords[axis] < b.coords[axis]
    ensures c > 0 <==> a.coords[axis] > b.coords[axis]
  {
    if a.coords[axis] < b.coords[axis] then -1
    else if a.coords[axis] > b.coords[axis] then 1
    else 0
  }

  /** The comparison is a total preorder, as sorting with it requires. */
  lemma CompAxisPreorder(a: Point, b: Point, c: Point, axis: nat)
    requires axis < |a.coords| && axis < |b.coords| && axis < |c.coords|
    ensures CompAxis(a, b, axis) == -CompAxis(b, a, axis)
    ensures CompAxis(a, b, axis) <= 0 || CompAxis(b, a, axis) <= 0
    ensures CompAxis(a, b, axis) <= 0 && CompAxis(b, c, axis) <= 0 ==> CompAxis(a, c, axis) <= 0
  {
  }
}
