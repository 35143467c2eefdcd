/**
 Branch-and-bound k-nearest-neighbour search over a k-d tree.

 At each node the search descends first into the subtree on the query's
 side of the splitting plane (the near branch), then offers the node
 itself unless it carries the query's own number, and then decides whether
 the other subtree (the far branch) can still hold a nearer point: only
 when the squared distance from the query to the splitting plane is below
 the current bound. The candidates are kept in the bounded ascending list
 of `BestList`.

 Two bounds are modelled. `LastKept` is the one `nn_search` applies: the distance of the
 last kept entry, whether or not the list is full. `WhenFull` is the
 bound a k-nearest search needs: no bound until the list is full. The two
 agree when one neighbour is asked for; for more they differ, and only
 `WhenFull` is guaranteed to return the k nearest points.
 */
module Search {
  import opened Geometry
  import opened BestList
  import opened KdTree
  import opened Candidates

  /** Which bound decides whether the far branch is searched. */
  datatype FarRule = LastKept | WhenFull

  /** The query has at least one axis and every node of `t` has exactly the query's axes. */
  predicate Searchable(t: Tree, search: Point)
  {
    |search.coords| >= 1 && TreeDims(t, |search.coords|)
  }

  /** The query lies strictly below the node on the axis the node splits, so the left subtree is near. */
  predicate QueryBelow(node: Tree, search: Point, depth: nat)
    requires node.Node? && Searchable(node, search)
  {
    var axis := PickAxis(depth, |search.coords|);
    search.coords[axis] < node.coords[axis]
  }

  /** The subtree on the query's side of the splitting plane; a tie goes right. */
  function Near(node: Tree, search: Point, depth: nat): (near: Tree)
    requires node.Node? && Searchable(node, search)
    ensures Searchable(near, search)
    ensures near == node.left || near == node.right
  {
    if QueryBelow(node, search, depth) then node.left else node.right
  }

  /** The subtree across the splitting plane from the query. */
  function Far(node: Tree, search: Point, depth: nat): (far: Tree)
    requires node.Node? && Searchable(node, search)
    ensures Searchable(far, search)
    ensures far == node.left || far == node.right
  {
    if QueryBelow(node, search, depth) then node.right else node.left
  }

  /** The node's coordinate on its split axis minus the query's. */
  function PlaneGap(node: Tree, search: Point, depth: nat): (gap: int)
    requires node.Node? && Searchable(node, search)
  {
    var axis := PickAxis(depth, |search.coords|);
    node.coords[axis] - search.coords[axis]
  }

  /** The point stored at a node. */
  function NodePoint(node: Tree): (p: Point)
    requires node.Node?
  {
    Point(node.num, node.coords)
  }

  /**
   Offers the node to the kept entries unless it carries the query's
   number. What comes back holds at most what was kept and the node's
   offer, and all of both while the list had room.
   */
  function OfferSelf(node: Tree, search: Point, best: seq<Pair>, k: nat): (r: seq<Pair>)
    requires node.Node? && Searchable(node, search) && k >= 1 && |best| <= k
    ensures |best| <= |r| <= k
    ensures multiset(r) <= multiset(best) + OfferOf(NodePoint(node), search)
    ensures |best| < k ==> multiset(r) == multiset(best) + OfferOf(NodePoint(node), search)
  {
    var self := Offer(NodePoint(node), search);
    if node.num != search.num then
      AddBestFrom(best, self, k);
      AddBest(best, self, k)
    else best
  }

  /**
   The decision of `nn_search` to search the far branch, from the kept entries
   and the signed gap to the splitting plane: the largest kept distance is
   -1 on an empty list, which always lets the search go on.
   */
  function SearchOther(nearest: seq<Pair>, diff: int): (visit: bool)
    ensures NonNegative(nearest) ==>
      (visit <==> |nearest| == 0 || Square(diff) < nearest[|nearest| - 1].dist)
  {
    var largest := LargestDist(nearest, |nearest|);
    assert nearest[..|nearest|] == nearest;
    largest < 0 || Square(diff) < largest
  }

  /**
   The decision to search the far branch under `rule`. Under `WhenFull`
   the far branch is skipped only when the list is full and the plane is
   no nearer than its last entry.
   */
  function VisitFar(rule: FarRule, nearest: seq<Pair>, k: nat, diff: int): (visit: bool)
    ensures rule == WhenFull && |nearest| == k >= 1 ==> (!visit <==> nearest[k - 1].dist <= Square(diff))
  {
    match rule
    case LastKept => SearchOther(nearest, diff)
    case WhenFull => |nearest| < k || (|nearest| > 0 && Square(diff) < nearest[|nearest| - 1].dist)
  }

  /**
   The corrected bound only ever adds far-branch visits: wherever the
   bound of `nn_search` goes on, so does `WhenFull`; while the list has
   room `WhenFull` always goes on; and on a full list the two decide alike.
   */
  lemma WhenFullVisitsMore(nearest: seq<Pair>, k: nat, diff: int)
    requires k >= 1 && |nearest| <= k && NonNegative(nearest)
    ensures VisitFar(LastKept, nearest, k, diff) ==> VisitFar(WhenFull, nearest, k, diff)
    ensures |nearest| < k ==> VisitFar(WhenFull, nearest, k, diff)
    ensures |nearest| == k ==> VisitFar(LastKept, nearest, k, diff) == VisitFar(WhenFull, nearest, k, diff)
  {
  }

  /**
   The recursive search from `node` at `depth`, given the entries `best`
   kept so far; the result is the list of kept entries afterwards. The
   list never shrinks and never exceeds the capacity `k`, and an empty
   subtree leaves it as it is.
   */
  function NnSearchBy(rule: FarRule, node: Tree, search: Point, best: seq<Pair>, k: nat, depth: nat): (r: seq<Pair>)
    requires k >= 1 && |best| <= k && Searchable(node, search)
    ensures |best| <= |r| <= k
    ensures node == Nil ==> r == best
    decreases node
  {
    match node
    case Nil => best
    case Node(num, coords, left, right) =>
      if left == Nil && right == Nil then OfferSelf(node, search, best, k)
      else
        var near := Near(node, search, depth);
        var far := Far(node, search, depth);
        var afterNear := if near != Nil then NnSearchBy(rule, near, search, best, k, depth + 1) else best;
        var afterNode := OfferSelf(node, search, afterNear, k);
        if far != Nil && VisitFar(rule, afterNode, k, PlaneGap(node, search, depth)) then
          NnSearchBy(rule, far, search, afterNode, k, depth + 1)
        else afterNode
  }

  /**
   One step of the search at a node, in a single shape for leaves and
   inner nodes: near branch, the node itself, then the far branch when the
   rule lets it.
   */
  lemma NnSearchStep(rule: FarRule, node: Tree, search: Point, best: seq<Pair>, k: nat, depth: nat)
    requires node.Node? && k >= 1 && |best| <= k && Searchable(node, search)
    ensures var afterNear := NnSearchBy(rule, Near(node, search, depth), search, best, k, depth + 1);
      var afterNode := OfferSelf(node, search, afterNear, k);
      NnSearchBy(rule, node, search, best, k, depth)
        == if VisitFar(rule, afterNode, k, PlaneGap(node, search, depth))
           then NnSearchBy(rule, Far(node, search, depth), search, afterNode, k, depth + 1)
           else afterNode
  {
  }

  /** The search as `nn_search` performs it. */
  function NnSearch(node: Tree, search: Point, best: seq<Pair>, k: nat, depth: nat): (r: seq<Pair>)
    requires k >= 1 && |best| <= k && Searchable(node, search)
    ensures |best| <= |r| <= k
  {
    NnSearchBy(LastKept, node, search, best, k, depth)
  }

  /** The search with the far-branch bound only applied to a full list. */
  function NnSearchFixed(node: Tree, search: Point, best: seq<Pair>, k: nat, depth: nat): (r: seq<Pair>)
    requires k >= 1 && |best| <= k && Searchable(node, search)
    ensures |best| <= |r| <= k
  {
    NnSearchBy(WhenFull, node, search, best, k, depth)
  }

  /** The numbers of the kept entries, in order. */
  function Nums(best: seq<Pair>): (ids: seq<int>)
    ensures |ids| == |best|
    ensures forall i | 0 <= i < |best| :: ids[i] == best[i].num
  {
    if best == [] then [] else [best[0].num] + Nums(best[1..])
  }

  /**
   The entry point: search the whole tree from depth 0 with an empty list
   and report the numbers of the entries kept, nearest first. At most `k`
   numbers come back, and never the query's own.
   */
  function RunNnSearch(root: Tree, k: nat, search: Point): (ids: seq<int>)
    requires k >= 1 && Searchable(root, search)
    ensures |ids| <= k
    ensures search.num !in ids
    ensures Ascending(NnSearch(root, search, [], k, 0))
    ensures |ids| == |NnSearch(root, search, [], k, 0)|
    ensures forall i | 0 <= i < |ids| :: ids[i] == NnSearch(root, search, [], k, 0)[i].num
  {
    var kept := NnSearch(root, search, [], k, 0);
    NnSearchExcludesSelf(LastKept, root, search, [], k, 0);
    NnSearchAscending(LastKept, root, search, [], k, 0);
    Nums(kept)
  }

  /** The entry point with the corrected far-branch bound. */
  function RunNnSearchFixed(root: Tree, k: nat, search: Point): (ids: seq<int>)
    requires k >= 1 && Searchable(root, search)
    ensures |ids| <= k
    ensures search.num !in ids
    ensures Ascending(NnSearchFixed(root, search, [], k, 0))
    ensures |ids| == |NnSearchFixed(root, search, [], k, 0)|
    ensures forall i | 0 <= i < |ids| :: ids[i] == NnSearchFixed(root, search, [], k, 0)[i].num
  {
    var kept := NnSearchFixed(root, search, [], k, 0);
    NnSearchExcludesSelf(WhenFull, root, search, [], k, 0);
    NnSearchAscending(WhenFull, root, search, [], k, 0);
    Nums(kept)
  }

  /**
   The search on the C buffer: `nearest` is the whole buffer of `k` slots,
   of which the first `bestCount` are in use, every offer goes through
   `AddBestBuffer`, and the far-branch decision reads the buffer. The
   slots in use afterwards hold exactly what the search on the list keeps,
   and no slot from the returned count on is written.
   */
  method NnSearchBuffer(rule: FarRule, node: Tree, search: Point, nearest: seq<Pair>, bestCount: nat, k: nat, depth: nat)
    returns (out: seq<Pair>, count: nat)
    requires k >= 1 && |nearest| == k && bestCount <= k && Searchable(node, search)
    ensures |out| == k && bestCount <= count <= k
    ensures out[..count] == NnSearchBy(rule, node, search, nearest[..bestCount], k, depth)
    ensures out[count..] == nearest[count..]
    decreases node, 1
  {
    out, count := nearest, bestCount;
    if node == Nil {
      return;
    }
    if node.left == Nil && node.right == Nil {
      out, count := OfferSelfBuffer(node, search, nearest, bestCount, k);
      return;
    }
    var near := Near(node, search, depth);
    if near != Nil {
      out, count := NnSearchBuffer(rule, near, search, nearest, bestCount, k, depth + 1);
    }
    var afterNear, nearCount := out, count;
    out, count := OfferSelfBuffer(node, search, afterNear, nearCount, k);
    TailThrough(nearest, afterNear, out, nearCount, count);
    var afterNode, nodeCount := out, count;
    out, count := FarBuffer(rule, node, search, afterNode, nodeCount, k, depth);
    TailThrough(nearest, afterNode, out, nodeCount, count);
    NnSearchStep(rule, node, search, nearest[..bestCount], k, depth);
  }

  /** `OfferSelf` on the buffer: the node is offered through `AddBestBuffer` unless it carries the query's number. */
  method OfferSelfBuffer(node: Tree, search: Point, nearest: seq<Pair>, bestCount: nat, k: nat)
    returns (out: seq<Pair>, count: nat)
    requires node.Node? && Searchable(node, search) && k >= 1 && |nearest| == k && bestCount <= k
    ensures |out| == k && bestCount <= count <= k
    ensures out[..count] == OfferSelf(node, search, nearest[..bestCount], k)
    ensures out[count..] == nearest[count..]
  {
    out, count := nearest, bestCount;
    if node.num != search.num {
      out, count := AddBestBuffer(nearest, bestCount, Offer(NodePoint(node), search), k);
    }
  }

  /**
   The last step at an inner node on the buffer: the far branch is
   searched when the rule lets it, with the bound of `nn_search` read off
   the buffer as `largest_dist` does.
   */
  method FarBuffer(rule: FarRule, node: Tree, search: Point, nearest: seq<Pair>, bestCount: nat, k: nat, depth: nat)
    returns (out: seq<Pair>, count: nat)
    requires node.Node? && Searchable(node, search) && k >= 1 && |nearest| == k && bestCount <= k
    ensures |out| == k && bestCount <= count <= k
    ensures out[..count]
      == if VisitFar(rule, nearest[..bestCount], k, PlaneGap(node, search, depth))
         then NnSearchBy(rule, Far(node, search, depth), search, nearest[..bestCount], k, depth + 1)
         else nearest[..bestCount]
    ensures out[count..] == nearest[count..]
    decreases node, 0
  {
    out, count := nearest, bestCount;
    var far := Far(node, search, depth);
    var gap := PlaneGap(node, search, depth);
    var visit: bool;
    if rule == LastKept {
      var largest := LargestDist(nearest, bestCount);
      visit := largest < 0 || gap * gap < largest;
      LastKeptOnBuffer(nearest, bestCount, k, gap);
    } else {
      visit := VisitFar(WhenFull, nearest[..bestCount], k, gap);
    }
    if far != Nil && visit {
      out, count := NnSearchBuffer(rule, far, search, nearest, bestCount, k, depth + 1);
    }
  }

  /** The bound of `nn_search` read off the buffer is the bound of the entries in use. */
  lemma LastKeptOnBuffer(nearest: seq<Pair>, count: nat, k: nat, diff: int)
    requires count <= |nearest|
    ensures VisitFar(LastKept, nearest[..count], k, diff)
      == (LargestDist(nearest, count) < 0 || diff * diff < LargestDist(nearest, count))
  {
    assert count > 0 ==> nearest[..count][count - 1] == nearest[count - 1];
  }

  /** Two steps that each leave the slots from their own count on untouched leave them untouched together. */
  lemma TailThrough(first: seq<Pair>, mid: seq<Pair>, last: seq<Pair>, midCount: nat, lastCount: nat)
    requires |first| == |mid| == |last| && midCount <= lastCount <= |last|
    requires mid[midCount..] == first[midCount..]
    requires last[lastCount..] == mid[lastCount..]
    ensures last[lastCount..] == first[lastCount..]
  {
    assert mid[lastCount..] == mid[midCount..][lastCount - midCount..];
    assert first[lastCount..] == first[midCount..][lastCount - midCount..];
  }

  /** No offer of a tree carries the query's number, and every offered distance is non-negative. */
  lemma TreePoolExcludesQuery(t: Tree, search: Point)
    requires Searchable(t, search)
    ensures forall x | x in TreePool(t, search) :: x.num != search.num && x.dist >= 0
  {
    TreePoolIsPool(t, search);
    PoolExcludesQuery(t.Flatten(), search);
  }

  /** Every entry kept after a search was kept before it or is the offer of a node of the tree. */
  lemma {:induction false} NnSearchKeepsOffers(rule: FarRule, node: Tree, search: Point, best: seq<Pair>, k: nat, depth: nat)
    requires k >= 1 && |best| <= k && Searchable(node, search)
    ensures multiset(NnSearchBy(rule, node, search, best, k, depth)) <= multiset(best) + TreePool(node, search)
    decreases node
  {
    if node.Node? {
      NnSearchStep(rule, node, search, best, k, depth);
      var near := Near(node, search, depth);
      var far := Far(node, search, depth);
      var afterNear := NnSearchBy(rule, near, search, best, k, depth + 1);
      NnSearchKeepsOffers(rule, near, search, best, k, depth + 1);
      var afterNode := OfferSelf(node, search, afterNear, k);
      NnSearchKeepsOffers(rule, far, search, afterNode, k, depth + 1);
      TreePoolSplit(node, search, depth);
    }
  }

  /** The kept entries stay in ascending order of distance. */
  lemma {:induction false} NnSearchAscending(rule: FarRule, node: Tree, search: Point, best: seq<Pair>, k: nat, depth: nat)
    requires k >= 1 && |best| <= k && Searchable(node, search) && Ascending(best)
    ensures Ascending(NnSearchBy(rule, node, search, best, k, depth))
    decreases node
  {
    if node.Node? {
      NnSearchStep(rule, node, search, best, k, depth);
      var near := Near(node, search, depth);
      var afterNear := NnSearchBy(rule, near, search, best, k, depth + 1);
      NnSearchAscending(rule, near, search, best, k, depth + 1);
      var afterNode := OfferSelf(node, search, afterNear, k);
      if node.num != search.num {
        AddBestAscending(afterNear, Offer(NodePoint(node), search), k);
      }
      NnSearchAscending(rule, Far(node, search, depth), search, afterNode, k, depth + 1);
    }
  }

  /**
   Self-exclusion: a search that starts without the query's number among
   the kept entries ends without it, even when the query's own point is
   stored in the tree.
   */
  lemma NnSearchExcludesSelf(rule: FarRule, node: Tree, search: Point, best: seq<Pair>, k: nat, depth: nat)
    requires k >= 1 && |best| <= k && Searchable(node, search)
    requires forall i | 0 <= i < |best| :: best[i].num != search.num
    ensures forall i | 0 <= i < |NnSearchBy(rule, node, search, best, k, depth)| ::
      NnSearchBy(rule, node, search, best, k, depth)[i].num != search.num
  {
    var r := NnSearchBy(rule, node, search, best, k, depth);
    NnSearchKeepsOffers(rule, node, search, best, k, depth);
    TreePoolExcludesQuery(node, search);
    forall i | 0 <= i < |r| ensures r[i].num != search.num {
      assert r[i] in multiset(r);
      if r[i] in multiset(best) {
        var j :| 0 <= j < |best| && best[j] == r[i];
      }
    }
  }

  /**
   A point on the far side of a splitting plane is no nearer to the query
   than the plane: its squared distance is at least the square of the gap.
   */
  lemma BeyondPlane(p: Point, search: Point, axis: nat, nodeCoord: int)
    requires |p.coords| == |search.coords| && axis < |search.coords|
    requires var q := search.coords[axis];
      (q < nodeCoord && nodeCoord <= p.coords[axis]) || (nodeCoord <= q && p.coords[axis] <= nodeCoord)
    ensures Square(nodeCoord - search.coords[axis]) <= Offer(p, search).dist
  {
    var q := search.coords[axis];
    var c := p.coords[axis];
    SqDistAxisBound(p.coords, search.coords, |search.coords|, axis);
    if q < nodeCoord {
      SquareMonotone(nodeCoord - q, c - q);
    } else {
      SquareMonotone(q - nodeCoord, q - c);
      SquareOfNegation(nodeCoord - q);
      SquareOfNegation(c - q);
    }
  }

  /**
   Across the splitting plane of a k-d ordered node, no offer is nearer
   than the squared distance from the query to the plane.
   */
  lemma FarBranchBound(t: Tree, search: Point, depth: nat)
    requires t.Node? && Searchable(t, search) && KdOrdered(t, depth, |search.coords|)
    ensures forall x | x in TreePool(Far(t, search, depth), search) :: Square(PlaneGap(t, search, depth)) <= x.dist
  {
    var dims := |search.coords|;
    var axis := PickAxis(depth, dims);
    var far := Far(t, search, depth);
    TreePoolIsPool(far, search);
    TreeDimsFlatten(far, dims);
    forall x | x in TreePool(far, search) ensures Square(PlaneGap(t, search, depth)) <= x.dist {
      PoolMember(far.Flatten(), search, x);
      var p :| p in far.Flatten() && p.num != search.num && x == Offer(p, search);
      BeyondPlane(p, search, axis, t.coords[axis]);
    }
  }

  /**
   With the far branch bounded only on a full list, searching a k-d
   ordered subtree extends "the k nearest of what was offered" to "the k
   nearest of what was offered and every node of the subtree".
   */
  lemma {:induction false} NnSearchFixedNearest(node: Tree, search: Point, best: seq<Pair>, offered: multiset<Pair>, k: nat, depth: nat)
    requires k >= 1 && Searchable(node, search) && KdOrdered(node, depth, |search.coords|)
    requires KNearest(best, offered, k)
    ensures KNearest(NnSearchFixed(node, search, best, k, depth), offered + TreePool(node, search), k)
    decreases node, 1
  {
    if node == Nil {
      assert offered + TreePool(node, search) == offered;
    } else {
      var near := Near(node, search, depth);
      var far := Far(node, search, depth);
      var afterNear := NnSearchBy(WhenFull, near, search, best, k, depth + 1);
      var afterNode := OfferSelf(node, search, afterNear, k);
      var seen := offered + TreePool(near, search) + OfferOf(NodePoint(node), search);
      assert KNearest(afterNode, seen, k) by {
        NnSearchFixedNearest(near, search, best, offered, k, depth + 1);
        OfferSelfKeepsNearest(node, search, afterNear, offered + TreePool(near, search), k);
      }
      FarStepKeepsNearest(node, search, afterNode, seen, k, depth);
      assert offered + TreePool(node, search) == seen + TreePool(far, search) by {
        TreePoolSplit(node, search, depth);
      }
      NnSearchStep(WhenFull, node, search, best, k, depth);
    }
  }

  /** The pool of a node is the pools of its near and far subtrees and the node's own offer. */
  lemma TreePoolSplit(node: Tree, search: Point, depth: nat)
    requires node.Node? && Searchable(node, search)
    ensures TreePool(node, search)
      == TreePool(Near(node, search, depth), search) + OfferOf(NodePoint(node), search) + TreePool(Far(node, search, depth), search)
  {
  }

  /**
   The last step at a node: whether the far branch is searched or
   skipped, the `k` nearest of what was seen become the `k` nearest of
   that and the far branch.
   */
  lemma {:induction false} FarStepKeepsNearest(node: Tree, search: Point, kept: seq<Pair>, seen: multiset<Pair>, k: nat, depth: nat)
    requires k >= 1 && node.Node? && Searchable(node, search) && KdOrdered(node, depth, |search.coords|)
    requires KNearest(kept, seen, k)
    ensures var far := Far(node, search, depth);
      KNearest(if VisitFar(WhenFull, kept, k, PlaneGap(node, search, depth))
               then NnSearchFixed(far, search, kept, k, depth + 1)
               else kept,
               seen + TreePool(far, search), k)
    decreases node, 0
  {
    var far := Far(node, search, depth);
    if VisitFar(WhenFull, kept, k, PlaneGap(node, search, depth)) {
      NnSearchFixedNearest(far, search, kept, seen, k, depth + 1);
    } else {
      FarBranchBound(node, search, depth);
      SkipFartherKeepsNearest(kept, seen, TreePool(far, search), k);
    }
  }

  /** Offering the node to the `k` nearest of some candidates gives the `k` nearest of them and the node's offer. */
  lemma OfferSelfKeepsNearest(node: Tree, search: Point, best: seq<Pair>, offered: multiset<Pair>, k: nat)
    requires node.Node? && Searchable(node, search) && k >= 1 && KNearest(best, offered, k)
    ensures KNearest(OfferSelf(node, search, best, k), offered + OfferOf(NodePoint(node), search), k)
  {
    if node.num != search.num {
      AddBestKeepsNearest(best, offered, Offer(NodePoint(node), search), k);
    } else {
      assert offered + OfferOf(NodePoint(node), search) == offered;
    }
  }

  /** For one neighbour and non-negative distances the bound of `nn_search` and the corrected one decide alike. */
  lemma VisitFarOne(nearest: seq<Pair>, diff: int)
    requires |nearest| <= 1 && NonNegative(nearest)
    ensures VisitFar(LastKept, nearest, 1, diff) == VisitFar(WhenFull, nearest, 1, diff)
  {
  }

  /**
   For a single neighbour the bound of `nn_search` and the corrected one make
   the same decisions, so the two searches return the same entry.
   */
  lemma {:induction false} NnSearchOneIsFixed(node: Tree, search: Point, best: seq<Pair>, depth: nat)
    requires |best| <= 1 && Searchable(node, search) && NonNegative(best)
    ensures NnSearch(node, search, best, 1, depth) == NnSearchFixed(node, search, best, 1, depth)
    decreases node
  {
    if node.Node? {
      NnSearchStep(LastKept, node, search, best, 1, depth);
      NnSearchStep(WhenFull, node, search, best, 1, depth);
      var near := Near(node, search, depth);
      var afterNear := NnSearchBy(LastKept, near, search, best, 1, depth + 1);
      NnSearchOneIsFixed(near, search, best, depth + 1);
      NnSearchNonNegative(LastKept, near, search, best, 1, depth + 1);
      var afterNode := OfferSelf(node, search, afterNear, 1);
      TreePoolExcludesQuery(node, search);
      NonNegativeFrom(afterNear, OfferOf(NodePoint(node), search), afterNode);
      VisitFarOne(afterNode, PlaneGap(node, search, depth));
      NnSearchOneIsFixed(Far(node, search, depth), search, afterNode, depth + 1);
    }
  }

  /** Entries drawn from a list of non-negative distances and some more non-negative ones are non-negative. */
  lemma NonNegativeFrom(best: seq<Pair>, more: multiset<Pair>, r: seq<Pair>)
    requires NonNegative(best) && forall x | x in more :: x.dist >= 0
    requires multiset(r) <= multiset(best) + more
    ensures NonNegative(r)
  {
    forall i | 0 <= i < |r| ensures r[i].dist >= 0 {
      assert r[i] in multiset(r);
      if r[i] !in more {
        var j :| 0 <= j < |best| && best[j] == r[i];
      }
    }
  }

  /** Distances stay non-negative through a search. */
  lemma NnSearchNonNegative(rule: FarRule, node: Tree, search: Point, best: seq<Pair>, k: nat, depth: nat)
    requires k >= 1 && |best| <= k && Searchable(node, search) && NonNegative(best)
    ensures NonNegative(NnSearchBy(rule, node, search, best, k, depth))
  {
    NnSearchKeepsOffers(rule, node, search, best, k, depth);
    TreePoolExcludesQuery(node, search);
    NonNegativeFrom(best, TreePool(node, search), NnSearchBy(rule, node, search, best, k, depth));
  }
}
