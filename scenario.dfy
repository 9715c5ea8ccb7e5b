// The sample run at the bottom of segment_tree.py, and the agreement of the
// two sum trees, stated as methods whose results are fixed by the trees'
// contracts alone.
module Scenario {
  import opened RangeSum
  import RecursiveSumTree
  import MinTree
  import EasySumTree

  /** The sample values of the demonstration run. */
  function SampleNums(): seq<int>
  {
    [1, 3, 4, -3, 8, 6, 1, 4, 2]
  }

  /** The sample values after update(3, -4). */
  lemma SampleUpdated()
    ensures SampleNums()[3 := -4] == [1, 3, 4, -4, 8, 6, 1, 4, 2]
  {
  }

  /**
   * The recursive tree over the sample answers 4, 20, 5 for [0, 1], [0, 6],
   * [6, 7], and 3 for [1, 3] after update(3, -4).
   */
  method SampleSums() returns (sums: seq<int>)
    ensures sums == [4, 20, 5, 3]
  {
    var nums := SampleNums();
    var tree := new RecursiveSumTree.SegmentTree(nums);
    var s0 := tree.QuerySum(0, 1);
    var s1 := tree.QuerySum(0, 6);
    var s2 := tree.QuerySum(6, 7);
    assert s0 == 4 && s1 == 20 && s2 == 5;
    tree.Update(3, -4);
    var s3 := tree.QuerySum(1, 3);
    SampleUpdated();
    assert s3 == SumRange([1, 3, 4, -4, 8, 6, 1, 4, 2], 1, 4) == 3;
    sums := [s0, s1, s2, s3];
  }

  /** The 1-indexed list tree over the sample gives the same four answers. */
  method SampleEasySums() returns (sums: seq<int>)
    ensures sums == [4, 20, 5, 3]
  {
    var nums := SampleNums();
    var easy := new EasySumTree.SegmentTreeEasyList(nums);
    var e0 := easy.QuerySum(0, 1);
    var e1 := easy.QuerySum(0, 6);
    var e2 := easy.QuerySum(6, 7);
    assert e0 == 4 && e1 == 20 && e2 == 5;
    easy.Update(3, -4);
    var e3 := easy.QuerySum(1, 3);
    SampleUpdated();
    assert e3 == SumRange([1, 3, 4, -4, 8, 6, 1, 4, 2], 1, 4) == 3;
    sums := [e0, e1, e2, e3];
  }

  /**
   * The min tree over the sample answers 1, -3, 1 for [0, 1], [0, 6], [6, 7],
   * and -4 for [1, 3] after update(3, -4), a lowering update, so the update
   * as written keeps the tree valid.
   */
  method SampleMins() returns (mins: seq<int>)
    ensures mins == [1, -3, 1, -4]
  {
    var nums := SampleNums();
    var list := new MinTree.SegmentTreeList(nums);
    var m0 := list.QueryMin(0, 1);
    var m1 := list.QueryMin(0, 6);
    var m2 := list.QueryMin(6, 7);
    assert m0 == 1 && m1 == -3 && m2 == 1;
    list.Update(3, -4);
    var m3 := list.QueryMin(1, 3);
    SampleUpdated();
    assert m3 == MinTree.MinRange([1, 3, 4, -4, 8, 6, 1, 4, 2], 1, 4) == -4;
    mins := [m0, m1, m2, m3];
  }

  /**
   * The recursive tree and the 1-indexed list tree built from the same
   * values, given the same update, answer every valid range query alike,
   * before and after the update.
   */
  method SumTreesAgree(nums: seq<int>, idx: int, val: int, a: int, b: int)
    returns (before: (int, int), after: (int, int))
    requires |nums| > 0 && 0 <= idx < |nums| && 0 <= a <= b < |nums|
    ensures before.0 == before.1 == SumRange(nums, a, b + 1)
    ensures after.0 == after.1 == SumRange(nums[idx := val], a, b + 1)
  {
    var tree := new RecursiveSumTree.SegmentTree(nums);
    var easy := new EasySumTree.SegmentTreeEasyList(nums);
    var r0 := tree.QuerySum(a, b);
    var e0 := easy.QuerySum(a, b);
    tree.Update(idx, val);
    easy.Update(idx, val);
    var r1 := tree.QuerySum(a, b);
    var e1 := easy.QuerySum(a, b);
    before, after := (r0, e0), (r1, e1);
  }
}
