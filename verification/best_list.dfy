/**
 The bounded candidate list of one nearest-neighbour query.

 The list holds at most `k` (node number, squared distance) pairs in
 ascending order of distance. A new candidate goes in before the first
 entry that is strictly farther than it; when the list is already full its
 last entry falls off, and a candidate farther than or as far as every kept
 entry of a full list is discarded.
 */
module BestList {

  /** A kept neighbour: the node's number and its squared distance to the query. */
  datatype Pair = Pair(num: int, dist: int)

  function Min(a: int, b: int): (m: int)
  {
    if a <= b then a else b
  }

  /** The list is in ascending order of distance. */
  predicate Ascending(best: seq<Pair>)
  {
    forall i, j | 0 <= i <= j < |best| :: best[i].dist <= best[j].dist
  }

  /** No kept distance is negative. */
  predicate NonNegative(best: seq<Pair>)
  {
    forall i | 0 <= i < |best| :: best[i].dist >= 0
  }

  /**
   The distance of the last of the first `count` entries, or -1 when there
   are none. On an ascending list of non-negative distances this is the
   largest kept distance, and it is negative exactly when nothing is kept.
   */
  function LargestDist(nearest: seq<Pair>, count: nat): (largest: int)
    requires count <= |nearest|
    ensures Ascending(nearest[..count]) ==> forall i | 0 <= i < count :: nearest[i].dist <= largest
    ensures count > 0 ==> exists i | 0 <= i < count :: nearest[i].dist == largest
    ensures NonNegative(nearest[..count]) ==> (largest < 0 <==> count == 0)
  {
    if count > 0 then
      assert nearest[..count][count - 1] == nearest[count - 1];
      assert forall i | 0 <= i < count :: nearest[..count][i] == nearest[i];
      nearest[count - 1].dist
    else -1
  }

  /**
   The position of the first entry strictly farther than `dist`, or the
   length of the list when there is none.
   */
  function FirstGreater(best: seq<Pair>, dist: int): (idx: nat)
    ensures idx <= |best|
    ensures forall j | 0 <= j < idx :: best[j].dist <= dist
    ensures idx < |best| ==> best[idx].dist > dist
  {
    if best == [] then 0
    else if best[0].dist > dist then 0
    else 1 + FirstGreater(best[1..], dist)
  }

  /** Any position with the two properties of the first strictly farther entry is that position. */
  lemma FirstGreaterUnique(best: seq<Pair>, dist: int, idx: nat)
    requires idx <= |best|
    requires forall j | 0 <= j < idx :: best[j].dist <= dist
    requires idx < |best| ==> best[idx].dist > dist
    ensures idx == FirstGreater(best, dist)
  {
  }

  /** `idx` is where the scan for the first entry strictly farther than `dist` stops. */
  predicate ScanStop(best: seq<Pair>, dist: int, idx: nat)
  {
    && idx <= |best|
    && (forall j | 0 <= j < idx :: best[j].dist <= dist)
    && (idx < |best| ==> best[idx].dist > dist)
  }

  /**
   Puts `cand` into the list at position `idx` as `add_best` does once the
   scan has stopped there: before the entry at `idx` (shifting the rest
   down and dropping the last entry of a full list), otherwise at the end
   when there is room, otherwise nowhere.
   */
  function InsertAt(best: seq<Pair>, cand: Pair, k: nat, idx: nat): (r: seq<Pair>)
    requires k >= 1 && |best| <= k && idx <= |best|
  {
    if idx < |best| then
      if |best| < k then best[..idx] + [cand] + best[idx..]
      else best[..idx] + [cand] + best[idx..|best| - 1]
    else if |best| < k then best + [cand]
    else best
  }

  /**
   Offers `cand` to the list `best` of capacity `k`: the scan for the
   first strictly farther entry followed by the insertion there.
   */
  function AddBest(best: seq<Pair>, cand: Pair, k: nat): (r: seq<Pair>)
    requires k >= 1 && |best| <= k
    ensures |r| == Min(|best| + 1, k)
    ensures |best| == k && (forall j | 0 <= j < |best| :: best[j].dist <= cand.dist) ==> r == best
  {
    InsertAt(best, cand, k, FirstGreater(best, cand.dist))
  }

  /** The scan of `AddBest` stops where `ScanStop` says. */
  lemma AddBestScan(best: seq<Pair>, cand: Pair, k: nat)
    requires k >= 1 && |best| <= k
    ensures ScanStop(best, cand.dist, FirstGreater(best, cand.dist))
    ensures AddBest(best, cand, k) == InsertAt(best, cand, k, FirstGreater(best, cand.dist))
  {
  }

  /**
   The branches of the insertion amount to one rule: put the candidate
   before the first strictly farther entry and keep the first `k` entries.
   */
  lemma AddBestIsBoundedInsert(best: seq<Pair>, cand: Pair, k: nat)
    requires k >= 1 && |best| <= k
    ensures var idx := FirstGreater(best, cand.dist);
      AddBest(best, cand, k) == (best[..idx] + [cand] + best[idx..])[..Min(|best| + 1, k)]
  {
    AddBestScan(best, cand, k);
    InsertAtIsBoundedInsert(best, cand, k, FirstGreater(best, cand.dist));
  }

  lemma InsertAtIsBoundedInsert(best: seq<Pair>, cand: Pair, k: nat, idx: nat)
    requires k >= 1 && |best| <= k && idx <= |best|
    ensures InsertAt(best, cand, k, idx) == (best[..idx] + [cand] + best[idx..])[..Min(|best| + 1, k)]
  {
    if |best| == k {
      if idx < |best| {
        DropLastOfInsert(best[..idx], cand, best[idx..]);
        assert best[idx..][..|best[idx..]| - 1] == best[idx..|best| - 1];
      } else {
        DropLastOfInsert(best, cand, []);
        assert best[idx..] == [];
      }
    } else {
      assert |best[..idx] + [cand] + best[idx..]| == |best| + 1;
    }
  }

  /** Cutting the last element off a sequence with one element inserted. */
  lemma DropLastOfInsert<T>(a: seq<T>, c: T, b: seq<T>)
    ensures b != [] ==> (a + [c] + b)[..|a| + |b|] == a + [c] + b[..|b| - 1]
    ensures b == [] ==> (a + [c] + b)[..|a|] == a
  {
  }

  /** A sequence is its part before `idx`, its part from `idx` up to the last element, and that last element. */
  lemma SplitBeforeLast<T>(s: seq<T>, idx: nat)
    requires idx < |s|
    ensures s == s[..idx] + s[idx..|s| - 1] + [s[|s| - 1]]
    ensures s[idx..] == s[idx..|s| - 1] + [s[|s| - 1]]
  {
  }

  /** Offering a candidate keeps the list ascending. */
  lemma AddBestAscending(best: seq<Pair>, cand: Pair, k: nat)
    requires k >= 1 && |best| <= k && Ascending(best)
    ensures Ascending(AddBest(best, cand, k))
  {
    AddBestScan(best, cand, k);
    InsertAtAscending(best, cand, k, FirstGreater(best, cand.dist));
  }

  lemma InsertAtAscending(best: seq<Pair>, cand: Pair, k: nat, idx: nat)
    requires k >= 1 && |best| <= k && Ascending(best) && ScanStop(best, cand.dist, idx)
    ensures Ascending(InsertAt(best, cand, k, idx))
  {
    var r := InsertAt(best, cand, k, idx);
    forall i, j | 0 <= i <= j < |r| ensures r[i].dist <= r[j].dist {
      if idx < |best| {
        if i < idx { assert r[i] == best[i]; }
        if j < idx { assert r[j] == best[j]; }
        if i > idx { assert r[i] == best[i - 1]; }
        if j > idx { assert r[j] == best[j - 1]; }
      } else if i < |best| {
        assert r[i] == best[i];
      }
    }
  }

  /** Every kept entry after an offer was kept before or is the candidate; nothing is lost while there is room. */
  lemma AddBestFrom(best: seq<Pair>, cand: Pair, k: nat)
    requires k >= 1 && |best| <= k
    ensures multiset(AddBest(best, cand, k)) <= multiset(best) + multiset{cand}
    ensures |best| < k ==> multiset(AddBest(best, cand, k)) == multiset(best) + multiset{cand}
  {
    AddBestScan(best, cand, k);
    InsertAtFrom(best, cand, k, FirstGreater(best, cand.dist));
  }

  lemma InsertAtFrom(best: seq<Pair>, cand: Pair, k: nat, idx: nat)
    requires k >= 1 && |best| <= k && idx <= |best|
    ensures multiset(InsertAt(best, cand, k, idx)) <= multiset(best) + multiset{cand}
    ensures |best| < k ==> multiset(InsertAt(best, cand, k, idx)) == multiset(best) + multiset{cand}
  {
    var r := InsertAt(best, cand, k, idx);
    if idx < |best| {
      assert best == best[..idx] + best[idx..];
      if |best| < k {
        assert multiset(r) == multiset(best[..idx]) + multiset{cand} + multiset(best[idx..]);
      } else {
        var z := best[|best| - 1];
        SplitBeforeLast(best, idx);
        assert multiset(r) + multiset{z} == multiset(best) + multiset{cand};
      }
    }
  }

  /**
   The C array form of the operation: `nearest` is the whole buffer of `k`
   slots, of which the first `bestCount` are in use. The scan finds the
   first strictly farther entry, the shift loop moves the entries from
   there down by one slot (into the last slot in use when the list is
   full), and the candidate is written into the freed slot.
   */
  method AddBestBuffer(nearest: seq<Pair>, bestCount: nat, cand: Pair, k: nat) returns (out: seq<Pair>, count: nat)
    requires k >= 1 && |nearest| == k && bestCount <= k
    ensures |out| == k
    ensures count == Min(bestCount + 1, k)
    ensures out[..count] == AddBest(nearest[..bestCount], cand, k)
    ensures out[count..] == nearest[count..]
  {
    var lastIdx := if bestCount < k then bestCount else bestCount - 1;
    var idx := 0;
    while idx < bestCount
      invariant 0 <= idx <= bestCount
      invariant forall j | 0 <= j < idx :: nearest[j].dist <= cand.dist
    {
      if nearest[idx].dist > cand.dist {
        out := ShiftDown(nearest, idx, lastIdx);
        out := out[idx := cand];
        count := lastIdx + 1;
        ShiftedIsInsert(nearest, bestCount, cand, k, idx, out);
        return;
      }
      idx := idx + 1;
    }
    FirstGreaterUnique(nearest[..bestCount], cand.dist, bestCount);
    AddBestScan(nearest[..bestCount], cand, k);
    out := nearest;
    if bestCount < k {
      out := out[lastIdx := cand];
      count := lastIdx + 1;
      assert out[..count] == nearest[..bestCount] + [cand];
    } else {
      count := bestCount;
      assert out[..count] == nearest[..bestCount];
    }
  }

  /**
   The shift loop of `add_best`: from the last slot to fill down to the
   slot after `idx`, each slot takes the entry of the slot before it.
   */
  method ShiftDown(buf: seq<Pair>, idx: nat, lastIdx: nat) returns (out: seq<Pair>)
    requires idx <= lastIdx < |buf|
    ensures |out| == |buf|
    ensures forall j | 0 <= j <= idx :: out[j] == buf[j]
    ensures forall j | idx < j <= lastIdx :: out[j] == buf[j - 1]
    ensures forall j | lastIdx < j < |buf| :: out[j] == buf[j]
  {
    out := buf;
    var x := lastIdx;
    while x > idx
      invariant idx <= x <= lastIdx
      invariant |out| == |buf|
      invariant forall j | 0 <= j <= x :: out[j] == buf[j]
      invariant forall j | x < j <= lastIdx :: out[j] == buf[j - 1]
      invariant forall j | lastIdx < j < |buf| :: out[j] == buf[j]
    {
      out := out[x := out[x - 1]];
      x := x - 1;
    }
  }

  /** A buffer shifted down from the first strictly farther entry, with the candidate written there, holds the offer's result. */
  lemma ShiftedIsInsert(nearest: seq<Pair>, bestCount: nat, cand: Pair, k: nat, idx: nat, out: seq<Pair>)
    requires k >= 1 && |nearest| == k && idx < bestCount <= k
    requires forall j | 0 <= j < idx :: nearest[j].dist <= cand.dist
    requires nearest[idx].dist > cand.dist
    requires var lastIdx := if bestCount < k then bestCount else bestCount - 1;
      && |out| == k && out[idx] == cand
      && (forall j | 0 <= j < idx :: out[j] == nearest[j])
      && (forall j | idx < j <= lastIdx :: out[j] == nearest[j - 1])
      && (forall j | lastIdx < j < k :: out[j] == nearest[j])
    ensures var count := Min(bestCount + 1, k);
      out[..count] == AddBest(nearest[..bestCount], cand, k) && out[count..] == nearest[count..]
  {
    var best := nearest[..bestCount];
    FirstGreaterUnique(best, cand.dist, idx);
    AddBestScan(best, cand, k);
    var count := Min(bestCount + 1, k);
    var r := InsertAt(best, cand, k, idx);
    assert |r| == count;
    forall j | 0 <= j < count ensures out[j] == r[j] {
      if j < idx {
        assert r[j] == best[j];
      } else if j > idx {
        assert r[j] == best[j - 1];
      }
    }
  }

  /**
   `best` holds the `k` nearest of the `offered` candidates, ties aside:
   it is ascending, drawn from what was offered, shorter than `k` only when
   it holds everything offered, and no candidate left out is nearer than a
   kept one.
   */
  ghost predicate KNearest(best: seq<Pair>, offered: multiset<Pair>, k: nat)
  {
    && Ascending(best)
    && multiset(best) <= offered
    && |best| <= k
    && (|best| < k ==> multiset(best) == offered)
    && forall x, i | x in offered - multiset(best) && 0 <= i < |best| :: best[i].dist <= x.dist
  }

  /** A list that holds the `k` nearest of some candidates has the length the bound promises. */
  lemma KNearestLength(best: seq<Pair>, offered: multiset<Pair>, k: nat)
    requires KNearest(best, offered, k)
    ensures |best| == Min(|offered|, k)
  {
    if |best| == k {
      assert |multiset(best)| <= |offered| by {
        assert offered == multiset(best) + (offered - multiset(best));
      }
    }
  }

  /** Offering a candidate to the `k` nearest of some candidates gives the `k` nearest of them all. */
  lemma AddBestKeepsNearest(best: seq<Pair>, offered: multiset<Pair>, cand: Pair, k: nat)
    requires k >= 1 && KNearest(best, offered, k)
    ensures KNearest(AddBest(best, cand, k), offered + multiset{cand}, k)
  {
    var idx := FirstGreater(best, cand.dist);
    AddBestScan(best, cand, k);
    InsertAtAscending(best, cand, k, idx);
    InsertAtFrom(best, cand, k, idx);
    if |best| == k {
      if idx < |best| {
        FullInsertKeepsNearest(best, offered, cand, k, idx);
      } else {
        FullRejectKeepsNearest(best, offered, cand, k);
      }
    }
  }

  /** A full list that takes the candidate in drops its last entry, the farthest one. */
  lemma FullInsertDrops(best: seq<Pair>, cand: Pair, k: nat, idx: nat)
    requires k >= 1 && |best| == k && Ascending(best)
    requires idx < |best|
    requires ScanStop(best, cand.dist, idx)
    ensures forall i | 0 <= i < k :: InsertAt(best, cand, k, idx)[i].dist <= best[k - 1].dist
    ensures forall i | 0 <= i < k :: InsertAt(best, cand, k, idx)[i] == cand || InsertAt(best, cand, k, idx)[i] in best
  {
    var r := InsertAt(best, cand, k, idx);
    forall i | 0 <= i < k ensures r[i].dist <= best[k - 1].dist && (r[i] == cand || r[i] in best) {
      if i < idx {
        assert r[i] == best[i];
      } else if i > idx {
        assert r[i] == best[i - 1];
      }
    }
  }

  /** A candidate that a full list takes in replaces its last entry. */
  lemma FullInsertKeepsNearest(best: seq<Pair>, offered: multiset<Pair>, cand: Pair, k: nat, idx: nat)
    requires k >= 1 && KNearest(best, offered, k) && |best| == k
    requires idx < |best| && ScanStop(best, cand.dist, idx)
    requires Ascending(InsertAt(best, cand, k, idx))
    ensures KNearest(InsertAt(best, cand, k, idx), offered + multiset{cand}, k)
  {
    var r := InsertAt(best, cand, k, idx);
    assert multiset(r) + multiset{best[k - 1]} == multiset(best) + multiset{cand} by {
      SplitBeforeLast(best, idx);
    }
    FullInsertDrops(best, cand, k, idx);
    forall x | x in offered - multiset(best) ensures cand.dist <= x.dist {
      assert best[idx].dist <= x.dist;
    }
    ReplaceLastKeepsNearest(best, offered, cand, k, r);
  }

  /**
   The multiset step behind the previous lemma: a full list whose last
   entry gives way to a candidate no farther than the entries left out.
   */
  lemma ReplaceLastKeepsNearest(best: seq<Pair>, offered: multiset<Pair>, cand: Pair, k: nat, r: seq<Pair>)
    requires k >= 1 && KNearest(best, offered, k) && |best| == k && |r| == k && Ascending(r)
    requires multiset(r) + multiset{best[k - 1]} == multiset(best) + multiset{cand}
    requires forall i | 0 <= i < k :: r[i].dist <= best[k - 1].dist
    requires forall i | 0 <= i < k :: r[i] == cand || r[i] in best
    requires forall x | x in offered - multiset(best) :: cand.dist <= x.dist
    ensures KNearest(r, offered + multiset{cand}, k)
  {
    var z := best[k - 1];
    var all := offered + multiset{cand};
    forall y ensures multiset(r)[y] <= all[y] && (all[y] > multiset(r)[y] ==> y == z || offered[y] > multiset(best)[y]) {
      assert (multiset(r) + multiset{z})[y] == (multiset(best) + multiset{cand})[y];
      assert multiset(best)[y] <= offered[y];
    }
    forall x, i | x in all - multiset(r) && 0 <= i < |r| ensures r[i].dist <= x.dist {
      if x != z {
        assert x in offered - multiset(best);
        if r[i] != cand {
          var j :| 0 <= j < |best| && best[j] == r[i];
        }
      }
    }
  }

  /** A candidate that a full list turns away leaves it holding the `k` nearest. */
  lemma FullRejectKeepsNearest(best: seq<Pair>, offered: multiset<Pair>, cand: Pair, k: nat)
    requires k >= 1 && KNearest(best, offered, k) && |best| == k
    requires forall j | 0 <= j < |best| :: best[j].dist <= cand.dist
    ensures KNearest(best, offered + multiset{cand}, k)
  {
    var all := offered + multiset{cand};
    forall x, i | x in all - multiset(best) && 0 <= i < |best| ensures best[i].dist <= x.dist {
      if x != cand {
        assert x in offered - multiset(best);
      }
    }
  }

  /**
   A full list that holds the `k` nearest of some candidates still does
   when more candidates are taken into account that are all no nearer
   than its last entry: those candidates can be skipped unseen.
   */
  lemma SkipFartherKeepsNearest(best: seq<Pair>, offered: multiset<Pair>, skipped: multiset<Pair>, k: nat)
    requires k >= 1 && KNearest(best, offered, k) && |best| == k
    requires forall x | x in skipped :: best[k - 1].dist <= x.dist
    ensures KNearest(best, offered + skipped, k)
  {
    forall x, i | x in (offered + skipped) - multiset(best) && 0 <= i < |best| ensures best[i].dist <= x.dist {
      if x !in skipped {
        assert x in offered - multiset(best);
      } else {
        assert best[i].dist <= best[k - 1].dist;
      }
    }
  }
}
