/**
 Ordering a slice of points along one axis before it is split at its median.

 The builder hands the slice to an unstable library sort with the
 three-way axis comparison. The model uses one particular sort; everything
 proved about the tree relies only on its contract (the result is a
 permutation of the input, ascending on the axis), so it holds for every
 order the library sort may choose among points that tie on the axis.
 */
module AxisSort {
  import opened Geometry

  /** Every point of `ps` has a coordinate on `axis`. */
  predicate HasAxis(ps: seq<Point>, axis: nat)
  {
    forall p | p in ps :: axis < |p.coords|
  }

  /** `ps` is ascending by its coordinate on `axis`. */
  predicate SortedOnAxis(ps: seq<Point>, axis: nat)
    requires HasAxis(ps, axis)
  {
    forall i, j | 0 <= i <= j < |ps| :: ps[i].coords[axis] <= ps[j].coords[axis]
  }

  /** Prefixing a point no greater than any point of an ascending sequence keeps it ascending. */
  lemma SortedCons(x: Point, s: seq<Point>, axis: nat)
    requires axis < |x.coords| && HasAxis(s, axis) && SortedOnAxis(s, axis)
    requires forall q | q in s :: x.coords[axis] <= q.coords[axis]
    ensures HasAxis([x] + s, axis) && SortedOnAxis([x] + s, axis)
  {
    var r := [x] + s;
    forall i, j | 0 <= i <= j < |r| ensures r[i].coords[axis] <= r[j].coords[axis] {
      if i > 0 {
        assert r[i] == s[i - 1] && r[j] == s[j - 1];
      } else if j > 0 {
        assert r[j] == s[j - 1] && r[j] in s;
      }
    }
  }

  /** Places `p` in `ps` before the first point whose coordinate on `axis` it does not exceed. */
  function Insert(p: Point, ps: seq<Point>, axis: nat): (r: seq<Point>)
    requires axis < |p.coords| && HasAxis(ps, axis)
    ensures |r| == |ps| + 1
    ensures multiset(r) == multiset(ps) + multiset{p}
    ensures HasAxis(r, axis)
  {
    if ps == [] then [p]
    else if CompAxis(p, ps[0], axis) <= 0 then [p] + ps
    else
      assert ps == [ps[0]] + ps[1..];
      [ps[0]] + Insert(p, ps[1..], axis)
  }

  /** Inserting into an ascending sequence leaves it ascending. */
  lemma {:induction false} InsertSorted(p: Point, ps: seq<Point>, axis: nat)
    requires axis < |p.coords| && HasAxis(ps, axis) && SortedOnAxis(ps, axis)
    ensures SortedOnAxis(Insert(p, ps, axis), axis)
  {
    if ps == [] {
    } else if CompAxis(p, ps[0], axis) <= 0 {
      forall q | q in ps ensures p.coords[axis] <= q.coords[axis] {
        var i :| 0 <= i < |ps| && ps[i] == q;
      }
      SortedCons(p, ps, axis);
    } else {
      assert ps == [ps[0]] + ps[1..];
      var rest := Insert(p, ps[1..], axis);
      InsertSorted(p, ps[1..], axis);
      HeadBelowInsert(p, ps, axis);
      SortedCons(ps[0], rest, axis);
    }
  }

  /** When `p` goes after the head of an ascending sequence, the head is no greater than anything in the rest with `p` inserted. */
  lemma HeadBelowInsert(p: Point, ps: seq<Point>, axis: nat)
    requires axis < |p.coords| && HasAxis(ps, axis) && SortedOnAxis(ps, axis)
    requires ps != [] && CompAxis(p, ps[0], axis) > 0
    ensures HasAxis(ps[1..], axis)
    ensures forall q | q in Insert(p, ps[1..], axis) :: ps[0].coords[axis] <= q.coords[axis]
  {
    var rest := Insert(p, ps[1..], axis);
    forall q | q in rest ensures ps[0].coords[axis] <= q.coords[axis] {
      assert q in multiset(rest);
      if q != p {
        var i :| 1 <= i < |ps| && ps[i] == q;
      }
    }
  }

  /** The slice ordered along `axis`: a permutation of its points, ascending on that axis. */
  function SortByAxis(ps: seq<Point>, axis: nat): (r: seq<Point>)
    requires HasAxis(ps, axis)
    ensures |r| == |ps|
    ensures multiset(r) == multiset(ps)
    ensures HasAxis(r, axis) && SortedOnAxis(r, axis)
  {
    if ps == [] then []
    else
      assert ps == [ps[0]] + ps[1..];
      var rest := SortByAxis(ps[1..], axis);
      InsertSorted(ps[0], rest, axis);
      Insert(ps[0], rest, axis)
  }
}
