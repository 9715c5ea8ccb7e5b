# Segment trees for range sum and range minimum

This project models `dsa/range_query/segment_tree.py` and proves properties of the model. The file holds three independent segment trees over a fixed list of integers, plus a helper:

- `msb(x)` is the smallest power of two that is at least `x`. It is module `PowerOfTwo`.
- `SegmentTree` is a pointer tree for range sums. Each `SegmentTreeNode` covers `[start, end]` and caches the sum of that range. It is module `RecursiveSumTree`. The node is a datatype with two constructors: `Leaf` is a node with no children and `Branch` is a node with both. The in-place writes that `update` makes to `.sum` become a functional rebuild with the same shape. This is sound because each node has exactly one parent.
- `SegmentTreeList` is a flat, 0-indexed tree for range minimum. It is module `MinTree`. The children of slot `i` are `2i+1` and `2i+2`. The leaves start at `offset = msb(n) - 1`. `MAX_INT = 1_000_000` is both the padding and the identity of `min` for values up to `MAX_INT`.
- `SegmentTreeEasyList` is a flat, 1-indexed tree for range sums over a list of length `2n`. It is module `EasySumTree`. The leaves are at `n .. 2n-1`.

`RangeSum.SumRange` and `MinTree.MinRange` are the reference meanings: the sum of a half-open range of the plain sequence, or its minimum capped at `MAX_INT` (`MAX_INT` for an empty range). The capped minimum equals the true minimum when no value exceeds `MAX_INT` (`MinTree.MinRangeIsMinimum`); the code caps it the same way, since `query_min` starts from `res = MAX_INT`. Each query is proved equal to one of them. Each update is proved to refresh the tree so that it matches the updated sequence. For the min tree's update as written, this is proved only for a lowering update (see Findings).

Each class's current sequence is a ghost field, `nums`. The source stores the caller's list and never writes to it again. `Valid()` ties the tree or array to `nums`. For `SegmentTreeList`, `Valid()` also requires `n <= offset + 1`. Then `|tree| <= 2 * offset + 1`, so every slot but the root has an internal parent. The constructor additionally states `offset + 1 == msb(n)`, and no method changes `offset`. Each mutating method's `ensures` states how the array relates to its old value, through a specification function (`PointSet`, `PointSetAsWritten`). It also states the new `nums`. The lemmas beside the methods prove what those functions do.

On the non-negative indices used by the code:
- `i << 1` is `2 * i` and `i << 1 | 1` is `2 * i + 1`;
- `i >> 1` is `i / 2` and `i & 1` is `i % 2`.

Python's `(i - 1) // 2` floors. Dafny's `/` is Euclidean, which gives the same result for a positive divisor, including `(0 - 1) / 2 == -1`. The loop exits of `SegmentTreeList` therefore carry over unchanged.

Invalid indices are never checked by the code, so they are preconditions here:
- `SegmentTree` needs a non-empty list. With an empty list `__build_tree(0, -1)` recurses without end.
- The two flat trees build fine from an empty list, and the model allows it.
- The flat-tree queries accept `0 <= a <= b + 1 <= n`. The empty range `a == b + 1` returns the identity (`MAX_INT` or `0`), just as the loops do.

## Model

| member | source | states |
|---|---|---|
| `PowerOfTwo.Msb` | dsa/range_query/segment_tree.py:4-8 | msb(x) is a power of two, is at least x, and is 1 or has a half below x. For x = 0 it is 1. |
| `PowerOfTwo.MsbIsLeast` | dsa/range_query/segment_tree.py:4-8 | No power of two that is at least x is smaller than msb(x). |
| `PowerOfTwo.MsbOfPowerOfTwo` | dsa/range_query/segment_tree.py:5-6 | A power of two is returned unchanged. |
| `RecursiveSumTree.Build` | dsa/range_query/segment_tree.py:67-74 | The built tree covers exactly [start, end]. Leaves have start == end. A branch's children cover [start, mid] and [mid+1, end]. Every node's sum is the sum of nums over its range. |
| `RecursiveSumTree.QueryCorrect` | dsa/range_query/segment_tree.py:32-46 | For start <= a <= b <= end, query_sum(a, b) returns the sum of the current values over [a, b]. Its precondition holds at every recursive call, so no call reaches a missing child. |
| `RecursiveSumTree.UpdateNode` | dsa/range_query/segment_tree.py:49-65 | update keeps every node range and the tree shape. |
| `RecursiveSumTree.UpdateCorrect` | dsa/range_query/segment_tree.py:49-65 | After update(idx, val), every node caches the sum of nums[idx := val] over its range. The leaf [idx, idx] holds val. |
| `RecursiveSumTree.UpdateOnlyTouchesPath` | dsa/range_query/segment_tree.py:49-65 | Every subtree whose range does not contain idx is left exactly as it was. |
| `RecursiveSumTree.UpdateIdempotent` | dsa/range_query/segment_tree.py:49-65 | Applying update(idx, val) twice gives the same tree as applying it once. |
| `RecursiveSumTree.ModelsIffLocal` | dsa/range_query/segment_tree.py:65-74 | On a well-formed tree, "every node caches its range sum" holds if and only if every internal node has sum == left.sum + right.sum and every leaf [i, i] holds nums[i]. |
| `RecursiveSumTree.UpdateThenQueryPoint` | dsa/range_query/segment_tree.py:54-57 | After update(idx, val), query_sum(idx, idx) returns val. |
| `RecursiveSumTree.SegmentTree.constructor` | dsa/range_query/segment_tree.py:27-29 | Building from a non-empty list gives a valid tree over [0, n-1] that represents the list. |
| `RecursiveSumTree.SegmentTree.QuerySum` | dsa/range_query/segment_tree.py:32-46 | Started at the root, the query returns the sum of the current sequence over [a, b]. |
| `RecursiveSumTree.SegmentTree.Update` | dsa/range_query/segment_tree.py:49-65 | Started at the root, the update keeps the tree valid and sets the current sequence to nums[idx := val]. The shape is kept, and nodes off the path are unchanged. |
| `MinTree.MinRangeIsMinimum` | dsa/range_query/segment_tree.py:100-112 | When no value exceeds MAX_INT, the min over a non-empty range is one of its values and is no larger than any of them. |
| `MinTree.SegmentTreeList.constructor` | dsa/range_query/segment_tree.py:91-93 | The new object is valid for the given list, with a fresh array. offset + 1 == msb(n). |
| `MinTree.SegmentTreeList.BuildTree` | dsa/range_query/segment_tree.py:131-149 | offset == msb(n) - 1 and the array length is offset + n. nums[i] is at offset + i. Every internal slot is the min of MAX_INT and its in-bounds children. |
| `MinTree.SegmentTreeList.QueryMin` | dsa/range_query/segment_tree.py:96-112 | query_min(a, b) returns the min of nums over [a, b] capped at MAX_INT, and MAX_INT for an empty range. Padding never reaches a real range. The loop follows `QueryLoop`, which repeats the one-pass function `QueryStep`. |
| `MinTree.QueryStepCorrect` | dsa/range_query/segment_tree.py:102-110 | One pass of the loop keeps min(res, min of the slots lo..hi) unchanged. An even lo and an odd hi are folded into res, and the rest pair up under their parents. |
| `MinTree.QueryLoopCorrect` | dsa/range_query/segment_tree.py:101-112 | On any list whose internal slots hold the min of their children, the loop from (lo, hi, res) returns min(res, min of the slots lo..hi). |
| `MinTree.QueryMinCorrect` | dsa/range_query/segment_tree.py:96-112 | Started at (a + offset, b + offset, MAX_INT) on a valid list, the loop answers the min of nums over [a, b]. |
| `MinTree.MinLevelUp` | dsa/range_query/segment_tree.py:101-110 | Loop step: when lo is a left child and hi a right child, the slots lo..hi have the same min as their parents (lo-1)//2 .. (hi-1)//2. |
| `MinTree.SegmentTreeList.Update` | dsa/range_query/segment_tree.py:115-128 | The update as written. The array becomes PointSetAsWritten of the old array, and nums becomes nums[idx := val]. The object is proved valid again when val <= the old value; a larger val can leave ancestors stale. |
| `MinTree.SegmentTreeList.UpdateCorrected` | dsa/range_query/segment_tree.py:115-128 | The update with each ancestor recomputed from MAX_INT. The object is always valid again, for nums[idx := val]. |
| `MinTree.PointSetRestores` | dsa/range_query/segment_tree.py:115-128 | The corrected update turns a valid list for nums into a valid list for nums[idx := val]. |
| `MinTree.PointSetAsWrittenWhenLowering` | dsa/range_query/segment_tree.py:119-128 | When val does not exceed the old value, the update as written gives the same list as the corrected one, so the list is valid. |
| `MinTree.PointSetFrame` | dsa/range_query/segment_tree.py:115-128 | Both updates put val at the leaf and write no slot other than the leaf and its ancestors. |
| `MinTree.PointSetAsWrittenNeverRaises` | dsa/range_query/segment_tree.py:121-128 | The update as written never increases any slot other than the leaf. |
| `MinTree.AsWrittenRaiseLeavesRootStale` | dsa/range_query/segment_tree.py:121 | Counterexample: for nums [1, 2] (list [1, 1, 2]), update(0, 5) as written gives [1, 5, 2]. That is not a valid list for [5, 2], and query_min(0, 1) on it returns 1, while the min of [5, 2] is 2. The corrected update gives the valid [2, 5, 2]. |
| `MinTree.PointSetIdempotent` | dsa/range_query/segment_tree.py:115-128 | Applying the corrected update twice gives the same list as applying it once. |
| `MinTree.PointSetAsWrittenIdempotent` | dsa/range_query/segment_tree.py:115-128 | On any list, applying update(idx, val) as written twice gives the same list as applying it once: after one pass every ancestor already holds the min of itself and its children. |
| `MinTree.UpdateThenQueryPoint` | dsa/range_query/segment_tree.py:96-128 | After update(idx, val), as written or corrected, query_min(idx, idx) returns min(MAX_INT, val), whatever the list held before. |
| `EasySumTree.SegmentTreeEasyList.constructor` | dsa/range_query/segment_tree.py:166-168 | The new object is valid for the given list, with a fresh array whose slot 0 is 0. |
| `EasySumTree.SegmentTreeEasyList.BuildTree` | dsa/range_query/segment_tree.py:202-213 | The array length is 2n and tree[n + i] == nums[i]. tree[i] == tree[2i] + tree[2i+1] for 1 <= i < n. Slot 0 is 0. |
| `EasySumTree.SegmentTreeEasyList.QuerySum` | dsa/range_query/segment_tree.py:171-188 | For any n, query_sum(a, b) returns the sum of nums over [a, b]. The loop follows `QueryLoop`, which repeats the one-pass function `QueryStep`. |
| `EasySumTree.QueryStepCorrect` | dsa/range_query/segment_tree.py:177-186 | One pass keeps res + (sum of the slots lo..hi) unchanged. An odd lo and an even hi are added to res, and the rest pair up under their parents. |
| `EasySumTree.QueryLoopCorrect` | dsa/range_query/segment_tree.py:176-188 | On a list whose internal slots hold the sum of their children, the loop from (lo, hi, res) returns res + the sum of the slots lo..hi. lo stays at 1 or above, so slot 0 is never read. |
| `EasySumTree.QuerySumCorrect` | dsa/range_query/segment_tree.py:171-188 | Started at (a + n, b + n, 0) on a valid list, the loop answers the sum of nums over [a, b]. |
| `EasySumTree.SumLevelUp` | dsa/range_query/segment_tree.py:176-186 | Loop step: when lo is a left child 2x and hi a right child 2y+1, the slots lo..hi have the same sum as the parents x..y. |
| `EasySumTree.SegmentTreeEasyList.Update` | dsa/range_query/segment_tree.py:191-199 | The array becomes PointSet of the old array. The object stays valid, for nums[idx := val]. |
| `EasySumTree.PointSetRestores` | dsa/range_query/segment_tree.py:191-199 | The update turns a valid list for nums into a valid list for nums[idx := val]. |
| `EasySumTree.PointSetFrame` | dsa/range_query/segment_tree.py:191-199 | The update sets tree[n + idx] = val. It writes nothing else but ancestors of n + idx, all in [1, n). It never writes tree[0]. |
| `EasySumTree.LayoutUnique` | dsa/range_query/segment_tree.py:202-213 | Two valid lists for the same values agree everywhere except slot 0. |
| `EasySumTree.PointSetIdempotent` | dsa/range_query/segment_tree.py:191-199 | Applying the same update twice gives the same list as applying it once. |
| `Scenario.SampleSums` | dsa/range_query/segment_tree.py:217-237 | On [1, 3, 4, -3, 8, 6, 1, 4, 2], the recursive tree answers 4, 20 and 5 for [0, 1], [0, 6] and [6, 7]. After update(3, -4) it answers 3 for [1, 3]. |
| `Scenario.SampleEasySums` | dsa/range_query/segment_tree.py:218-238 | The 1-indexed list tree gives the same four answers. |
| `Scenario.SampleMins` | dsa/range_query/segment_tree.py:240-247 | The min tree answers 1, -3 and 1. After update(3, -4), a lowering update, it answers -4 for [1, 3]. |
| `Scenario.SumTreesAgree` | dsa/range_query/segment_tree.py:218-238 | Built from the same values and given the same update, the recursive and the 1-indexed sum trees answer every valid query alike, before and after the update. |

## Left out

- MinTree.SegmentTreeList.Update: is proved to re-establish `Valid()` when `val` does not exceed the old value at `idx`; for a larger `val` nothing is promised about `Valid()`. The code seeds each ancestor with its own old value, so a larger `val` can leave ancestors stale (see Findings). The contract states exactly what the code does.
- The `__main__` demonstration prints its results. The printing is not modelled; its sample queries are the `Scenario` methods.
- `int.bit_count` and `int.bit_length` are not modelled. `msb` is defined as the least power of two at least `x`, and agrees with them for every `x >= 0`.
- `self.nums` aliases the caller's list and is never updated by `update`. The model does not track this; it keeps the current values as a ghost sequence.
- Invalid ranges and indices, and an empty list for `SegmentTree`, are preconditions. The crash or endless recursion the code produces on them is not modelled.
- The recursive tree's in-place writes to `node.sum` are modelled as a functional rebuild of the same shape. Object identity of nodes is not modelled; no node is shared, so no sharing is lost.
- Running time (O(log n) queries and updates, O(n) builds) is not modelled.
- Integers are unbounded, as Python's are.

## Findings

| source | as written | input that shows it | evidently intended | confidence | as-written member | corrected member |
|---|---|---|---|---|---|---|
| dsa/range_query/segment_tree.py:121 | `update` starts each ancestor from its old value (`tmp = self.tree_list[idx]`), so an ancestor can only decrease | nums = [1, 2] builds [1, 1, 2]. update(0, 5) leaves the root at 1, so query_min(0, 1) returns 1, but the minimum of [5, 2] is 2 | start each ancestor from MAX_INT, as `__build_tree` does, so the ancestor becomes the min of its children | high (not executed) | `MinTree.AsWrittenRaiseLeavesRootStale` (on `MinTree.SegmentTreeList.Update`) | `MinTree.SegmentTreeList.UpdateCorrected` (with `MinTree.PointSetRestores`) |
