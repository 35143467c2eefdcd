# k-d tree: construction and k-nearest-neighbour search

A model of the C core of a small k-d tree library (`cython_with_c/kdtree_raw.c`).
The library builds a k-d tree from numbered points by recursive median
split, cycling the split axis with depth. It then answers k-nearest-neighbour
queries by branch-and-bound search. That search keeps a bounded,
ascending candidate list and never reports a point carrying the query's own
number.

The model is functional:

- The tree is a datatype, `KdTree.Tree`. The candidate array is a `seq<Pair>`
  holding the `best_count` entries in use.
- `BestList.AddBestBuffer` shows that the C array form of the insertion agrees
  with the sequence form, and `Search.NnSearchBuffer` does the same for the
  whole search.
- Coordinates and distances are mathematical integers, so squared
  distances and the pruning test are exact.

Modules, in dependency order:

- `Geometry` (`geometry.dfy`): points, squared distance, axis choice and the three-way axis comparison.
- `AxisSort` (`axis_sort.dfy`): ordering a slice along one axis, standing in for `qsort`.
- `KdTree` (`kdtree.dfy`): the tree, the builder and its structural guarantees.
- `BestList` (`best_list.dfy`): the bounded ascending candidate list, `add_best`, `largest_dist`, and the reference notion "the k nearest of what was offered" (`KNearest`).
- `Candidates` (`candidates.dfy`): the pool a brute-force scan would rank. It holds every stored point other than the query, paired with its squared distance.
- `Search` (`nn_search.dfy`): the recursive search and the result copy.
- `Queries` (`queries.dfy`): end-to-end statements about a tree built from points, and the concrete inputs behind the findings.

The far-branch bound is a parameter of the search (`Search.FarRule`):

- `LastKept` is the code as written. It uses the distance of the last kept entry even when the list is not full.
- `WhenFull` applies the bound only to a full list.

For one neighbour the two searches return the same list (`Search.NnSearchOneIsFixed`). For more neighbours only `WhenFull` is proved to return the k nearest points.

Two points where the model has to take a side:

- **Sort stability.** `fill_tree_r` orders each slice with `qsort` (`kdtree_raw.c:167-170`), and `qsort` is not stable. `AxisSort.SortByAxis` is one particular sort, and the tree properties use only its contract: a permutation, ascending on the axis. So they hold for whatever order `qsort` gives tied points. No claim is made about the tree's shape under ties.
- **Far-branch bound.** `nn_search` and `run_nn_search` are documented as finding the nearest neighbours (`kdtree_raw.c:302-316`, `390-398`). The code bounds the far branch by the last kept entry from the first insertion on (`largest_dist`), even while the list has room. The model keeps that rule as `LastKept` and shows where it loses points. See "Findings".

## Model

| member | source | states |
|---|---|---|
| Geometry.SqDist | cython_with_c/kdtree_raw.c:69-78 | the squared distance over the first `dims` axes is never negative |
| Geometry.SqDistLoop | cython_with_c/kdtree_raw.c:69-78 | the accumulating loop over the axes computes the sum of squared coordinate differences |
| Geometry.SqDistZeroIff | cython_with_c/kdtree_raw.c:69-78 | the squared distance is zero exactly when the two points agree on every axis considered |
| Geometry.SqDistSymmetric | cython_with_c/kdtree_raw.c:69-78 | the squared distance does not depend on the order of its arguments |
| Geometry.SqDistAxisBound | cython_with_c/kdtree_raw.c:376-382 | the squared difference on one axis is a lower bound on the squared distance, which is why the pruning test is sound |
| Geometry.PickAxis | cython_with_c/kdtree_raw.c:58-60 | the split axis is always one of the `dims` axes |
| Geometry.PickAxisCycles | cython_with_c/kdtree_raw.c:58-60 | depth `d < dims` splits on axis `d`, and the axis repeats every `dims` levels |
| Geometry.CompAxis | cython_with_c/kdtree_raw.c:89-103 | the comparison returns -1, 0 or 1, negative exactly when the first coordinate is smaller and positive exactly when it is larger |
| Geometry.CompAxisPreorder | cython_with_c/kdtree_raw.c:89-103 | the comparison is antisymmetric, total and transitive, so it is a valid `qsort` comparator |
| AxisSort.SortByAxis | cython_with_c/kdtree_raw.c:163-170 | the sorted slice is a permutation of the input and ascending on the axis |
| AxisSort.InsertSorted | cython_with_c/kdtree_raw.c:163-170 | inserting before the first point not smaller on the axis keeps the slice ascending |
| KdTree.FillTreeR | cython_with_c/kdtree_raw.c:148-207 | no points give the empty tree; otherwise the tree has one node per point, its points are a permutation of the input, and every node has `dims` coordinates |
| KdTree.FillTree | cython_with_c/kdtree_raw.c:217-219 | the whole-set builder gives the empty tree exactly for no points, and one node per point otherwise |
| KdTree.FillTreeRIds | cython_with_c/kdtree_raw.c:174-205 | the multiset of node numbers equals the multiset of input numbers |
| KdTree.FillTreeRBalanced | cython_with_c/kdtree_raw.c:174-176 | at every node the left subtree has as many nodes as the right or one more |
| KdTree.FillTreeRKdOrdered | cython_with_c/kdtree_raw.c:160-205 | at every node, on the axis for its depth, every left point is no greater and every right point no smaller than the node |
| KdTree.TreeDimsFlatten | cython_with_c/kdtree_raw.c:181-188 | every node has `dims` coordinates exactly when every point of the in-order listing does |
| BestList.LargestDist | cython_with_c/kdtree_raw.c:43-49 | on an ascending prefix the result bounds every kept distance and is one of them; with non-negative distances it is negative exactly when nothing is kept |
| BestList.FirstGreater | cython_with_c/kdtree_raw.c:282-284 | the insert position has every earlier entry no farther than the candidate and the entry at it strictly farther |
| BestList.AddBest | cython_with_c/kdtree_raw.c:259-300 | the new count is `min(count + 1, k)`, and a full list with no strictly farther entry comes back unchanged |
| BestList.AddBestIsBoundedInsert | cython_with_c/kdtree_raw.c:282-299 | the result is the candidate inserted before the first strictly farther entry, truncated to `k` entries, so the last entry drops when full |
| BestList.AddBestAscending | cython_with_c/kdtree_raw.c:281-291 | an ascending list stays ascending |
| BestList.AddBestFrom | cython_with_c/kdtree_raw.c:285-298 | the result holds only kept entries and the candidate, and all of them while the list had room |
| BestList.AddBestBuffer | cython_with_c/kdtree_raw.c:259-300 | on the C buffer of `k` slots the scan and shift loops leave the sequence form of the result in the slots in use, and slots past the new count are untouched |
| BestList.ShiftDown | cython_with_c/kdtree_raw.c:286-288 | the shift loop moves every entry from the insert position up to the last slot to fill down by one slot and changes nothing else |
| BestList.ShiftedIsInsert | cython_with_c/kdtree_raw.c:282-291 | a buffer shifted at the first strictly farther entry, with the candidate written there, holds the offer's result and is untouched past the new count |
| BestList.AddBestKeepsNearest | cython_with_c/kdtree_raw.c:259-300 | offering a candidate to the k nearest of the candidates offered so far gives the k nearest of those and the new one |
| BestList.KNearestLength | cython_with_c/kdtree_raw.c:255-257 | a list holding the k nearest of n offered candidates has `min(n, k)` entries |
| BestList.SkipFartherKeepsNearest | cython_with_c/kdtree_raw.c:372-386 | skipping candidates no nearer than the last entry of a full list keeps it the k nearest |
| Candidates.TreePoolIsPool | cython_with_c/kdtree_raw.c:336-341 | the offers of a tree's nodes are the offers of its in-order points |
| Candidates.PoolOfPermutation | cython_with_c/kdtree_raw.c:163-170 | reordering the points leaves the pool of offers unchanged |
| Candidates.PoolExcludesQuery | cython_with_c/kdtree_raw.c:336-341 | no offer carries the query's number, and every offered distance is non-negative |
| Search.OfferSelf | cython_with_c/kdtree_raw.c:366-369 | offering the node keeps only kept entries and the node's offer, and adds it while there is room, unless the node is the query |
| Search.SearchOther | cython_with_c/kdtree_raw.c:372-382 | the far branch is visited exactly when nothing is kept or the squared gap to the plane is below the last kept distance |
| Search.WhenFullVisitsMore | cython_with_c/kdtree_raw.c:372-386 | the corrected bound searches the far branch wherever the code's bound does, always while the list has room, and decides as the code's bound does once the list is full |
| Search.NnSearchBy | cython_with_c/kdtree_raw.c:317-388 | an empty subtree returns the list unchanged; otherwise the count never decreases and never exceeds `k` |
| Search.NnSearchKeepsOffers | cython_with_c/kdtree_raw.c:317-388 | every entry kept after a search was kept before or is the offer of a node of the searched subtree |
| Search.NnSearchAscending | cython_with_c/kdtree_raw.c:317-388 | the kept entries stay ascending by distance through the search |
| Search.NnSearchExcludesSelf | cython_with_c/kdtree_raw.c:336-341 | if no kept entry carries the query's number before a search, none does after it |
| Search.NnSearchNonNegative | cython_with_c/kdtree_raw.c:317-388 | kept distances stay non-negative |
| Search.FarBranchBound | cython_with_c/kdtree_raw.c:376-382 | in a k-d ordered tree, no offer across the splitting plane is nearer than the squared gap to the plane |
| Search.NnSearchFixedNearest | cython_with_c/kdtree_raw.c:317-388 | with the corrected bound, searching a k-d ordered subtree turns the k nearest of what was offered into the k nearest of that and the subtree |
| Search.FarStepKeepsNearest | cython_with_c/kdtree_raw.c:371-386 | whether the far branch is searched or skipped under the corrected bound, the k-nearest property extends over it |
| Search.NnSearchOneIsFixed | cython_with_c/kdtree_raw.c:372-386 | for one neighbour the code's bound and the corrected bound produce the same result |
| Search.RunNnSearch | cython_with_c/kdtree_raw.c:399-411 | at most `k` numbers are reported, those of the kept entries in order, the kept entries are ascending by distance, and the query's own number is never among them |
| Search.RunNnSearchFixed | cython_with_c/kdtree_raw.c:399-411 | the same for the search with the corrected bound |
| Search.NnSearchBuffer | cython_with_c/kdtree_raw.c:317-388 | the search on the C buffer leaves in the slots in use exactly the entries the list-level search keeps, and never writes a slot from its final count on |
| Search.OfferSelfBuffer | cython_with_c/kdtree_raw.c:366-369 | offering the node through the buffer insertion gives the list-level offer in the slots in use and leaves the rest untouched |
| Search.FarBuffer | cython_with_c/kdtree_raw.c:371-386 | deciding from `largest_dist` on the buffer and the gap to the plane gives the list-level far step, and leaves the slots past the final count untouched |
| Search.LastKeptOnBuffer | cython_with_c/kdtree_raw.c:372-382 | the code's bound read off the buffer's last slot in use is the bound of the kept entries |
| Queries.FillTreeBuilds | cython_with_c/kdtree_raw.c:148-219 | the built tree has one node per point, the same number multiset, is size-balanced and k-d ordered from depth 0 |
| Queries.BuiltTreeSearchable | cython_with_c/kdtree_raw.c:148-219 | the tree built from the points offers exactly the pool of the points |
| Queries.FixedSearchIsKNearest | cython_with_c/kdtree_raw.c:317-411 | with the corrected bound the search of the built tree returns the k nearest stored points other than the query, ascending, `min(n, k)` of them |
| Queries.SearchOneIsNearest | cython_with_c/kdtree_raw.c:317-411 | for one neighbour the search as written returns a nearest stored point other than the query |
| Queries.RunNnSearchCopy | cython_with_c/kdtree_raw.c:404-410 | the copy as written reports all `k` slots, and the slots in use agree with the kept entries |
| Queries.RunNnSearchBuffer | cython_with_c/kdtree_raw.c:399-411 | searching a buffer of `k` slots with any initial contents and copying every slot reports the kept numbers followed by the numbers the buffer held before in the remaining slots |
| Queries.CopyNums | cython_with_c/kdtree_raw.c:407-410 | the copy loop reports the number of every slot, in slot order |
| Queries.PrunedBeforeFull | cython_with_c/kdtree_raw.c:372-384 | on three points one apart on a line, queried from the first with room for three, the search as written returns two, wherever the line starts |
| Queries.FixedFindsAll | cython_with_c/kdtree_raw.c:372-384 | with the corrected bound the same query returns all three, nearest first |
| Queries.CopyReportsUnwrittenSlot | cython_with_c/kdtree_raw.c:404-410 | when nothing can be kept, the copy as written still reports a slot, which may carry the query's own number |

## Left out

- Memory management is left out because in a functional model it is sequence slicing and value copying. This covers pointer slicing (`slice`), `malloc`, the out-of-memory exit, `memcpy` of coordinates, and `free_tree`.
- `print_points` is left out because it is debug output only.
- Floating point is not modelled. Coordinates and distances are integers, so `double` rounding and NaN comparisons are not covered.
- The `curr_axis` field written into every point before sorting is not modelled. `AxisSort.SortByAxis` takes the axis as a parameter instead.
- The builder's dimensionality is an explicit parameter with the precondition that all points share it. The C reads it from the first point and would read past shorter coordinate arrays.
- The search uses the query's dimensionality (`search.sz`), and the model requires every node to have exactly that many coordinates.
- The shape of the tree under ties on the split axis is not pinned down, because `qsort` is not stable. Only order-independent properties are proved.
- The proofs about the search are stated on the sequence of kept entries. `Search.NnSearchBuffer` and `Queries.RunNnSearchBuffer` run the same search on the C buffer, built from `BestList.AddBestBuffer`, and show that it matches the sequence form.
- `fill_tree_r` reorders the caller's pointer array in place: at depth 0 `qsort` sorts the array that `fill_tree` was given, and every point's `curr_axis` field is overwritten (`kdtree_raw.c:167-170`, reached through `kdtree_raw.c:218`). `KdTree.FillTree` is a pure function, so the caller's array coming back ordered along axis 0 is not modelled.
- Search.NnSearchBy: the count of kept entries is its length, so the returned `size_t` is not modelled separately. The buffer form `Search.NnSearchBuffer` returns it, and `run_nn_search` discards it.
- `kdtree.c`, `cython_with_c/kdtree_raw.h` and `cython_with_c/kdtree_setup.py` are not part of this model. They hold the Python extension type, a header whose prototype disagrees with the C file, and packaging.
- Queries.SearchOneIsNearest: with ties, "a nearest point" means one of the points at least distance. Which tied point is returned follows from the scan order and is not stated.

## Findings

| source | as written | input that shows it | evidently intended | confidence | as-written member | corrected member |
|---|---|---|---|---|---|---|
| cython_with_c/kdtree_raw.c:372-382 | the far branch is pruned against the last kept distance even when fewer than `num_neighbors` entries are kept | for any `x`, 1-D points 1 at `x`, 2 at `x + 1`, 3 at `x + 2`; query number 0 at `x`; `num_neighbors` 3: returns [1, 2], although all three points fit | bound the far branch only once the list is full, so the result is the k nearest points | high, not executed | Queries.PrunedBeforeFull | Queries.FixedSearchIsKNearest |
| cython_with_c/kdtree_raw.c:404-410 | all `num_neighbors` slots are copied out even when fewer were filled, reading slots no insertion wrote | a tree whose only point is the query itself, `num_neighbors` 1: the one slot is reported with whatever it held, possibly the query's own number | report only the first `best_count` entries | medium, not executed | Queries.CopyReportsUnwrittenSlot | Search.RunNnSearch |
