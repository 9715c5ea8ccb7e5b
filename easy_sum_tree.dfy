// SegmentTreeEasyList of segment_tree.py: a flat, 1-indexed tree for range
// sum over a list of length 2n. The leaves are at n .. 2n - 1, the children
// of slot i are i << 1 and i << 1 | 1, its parent is i >> 1, and slot 0 is
// never used. On the non-negative indices used here, i << 1 is 2 * i,
// i << 1 | 1 is 2 * i + 1, i >> 1 is i / 2, and i & 1 is i % 2.
module EasySumTree {
  import opened RangeSum

  /** Internal slot p (1 <= p < n) holds the sum of its two children. */
  ghost predicate SlotOk(t: seq<int>, p: int)
  {
    1 <= p && 2 * p + 1 < |t| && t[p] == t[2 * p] + t[2 * p + 1]
  }

  /** The list built from nums: nums[k] at n + k and every internal slot the sum of its children. */
  ghost predicate Layout(t: seq<int>, nums: seq<int>)
  {
    |t| == 2 * |nums| &&
    (forall k :: 0 <= k < |nums| ==> t[|nums| + k] == nums[k]) &&
    (forall p :: 1 <= p < |nums| ==> SlotOk(t, p))
  }

  /** j is a proper ancestor of slot i: reached from i by one or more i >> 1 steps. */
  ghost predicate IsAncestor(j: int, i: int)
    decreases if i < 0 then 0 else i
  {
    i > 1 && (i / 2 == j || IsAncestor(j, i / 2))
  }

  lemma {:induction false} AncestorBounds(j: int, i: int)
    requires IsAncestor(j, i)
    ensures 1 <= j < i && j <= i / 2
    decreases if i < 0 then 0 else i
  {
    if i / 2 != j {
      AncestorBounds(j, i / 2);
    }
  }

  /** The loop of update: while i > 1, move to i >> 1 and set it to the sum of its children. */
  function Repair(t: seq<int>, i: int): (r: seq<int>)
    requires 0 <= i < |t| && |t| % 2 == 0
    ensures |r| == |t|
    decreases i
  {
    if i > 1 then
      var p := i / 2;
      Repair(t[p := t[2 * p] + t[2 * p + 1]], p)
    else t
  }

  /** update(idx, val) on the list: write the leaf n + idx, then repair its ancestors. */
  function PointSet(t: seq<int>, n: int, idx: int, val: int): seq<int>
    requires 0 <= idx < n && |t| == 2 * n
  {
    Repair(t[n + idx := val], n + idx)
  }

  /** The sum invariant holds at every internal slot except possibly the parent of i. */
  ghost predicate SumExcept(t: seq<int>, n: int, i: int)
  {
    forall p :: 1 <= p < n && p != i / 2 ==> SlotOk(t, p)
  }

  lemma SlotOkFrame(t: seq<int>, j: int, v: int, q: int)
    requires SlotOk(t, q) && 0 <= j < |t| && j != q && j != 2 * q && j != 2 * q + 1
    ensures SlotOk(t[j := v], q)
  {
  }

  /** Repairing from i, with the invariant broken only at i's parent, restores the layout. */
  lemma {:induction false} RepairRestores(t: seq<int>, nums: seq<int>, i: int)
    requires |t| == 2 * |nums| && 1 <= i < |t|
    requires forall k :: 0 <= k < |nums| ==> t[|nums| + k] == nums[k]
    requires SumExcept(t, |nums|, i)
    ensures Layout(Repair(t, i), nums)
    decreases i
  {
    var n := |nums|;
    if i > 1 {
      var p := i / 2;
      var v := t[2 * p] + t[2 * p + 1];
      var t' := t[p := v];
      forall q | 1 <= q < n && q != p / 2 ensures SlotOk(t', q) {
        if q != p {
          SlotOkFrame(t, p, v, q);
        }
      }
      forall k | 0 <= k < n ensures t'[n + k] == nums[k] {
        assert t[n + k] == nums[k];
      }
      RepairRestores(t', nums, p);
    } else {
      assert Repair(t, i) == t;
    }
  }

  /** update restores the layout for the updated sequence. */
  lemma PointSetRestores(t: seq<int>, nums: seq<int>, idx: int, val: int)
    requires Layout(t, nums) && 0 <= idx < |nums|
    ensures Layout(PointSet(t, |nums|, idx, val), nums[idx := val])
  {
    var n := |nums|;
    var leaf := n + idx;
    var t1 := t[leaf := val];
    var nums' := nums[idx := val];
    forall q | 1 <= q < n && q != leaf / 2 ensures SlotOk(t1, q) {
      SlotOkFrame(t, leaf, val, q);
    }
    forall k | 0 <= k < n ensures t1[n + k] == nums'[k] {
      if k != idx {
        assert t[n + k] == nums[k];
      }
    }
    RepairRestores(t1, nums', leaf);
  }

  /** Repair from i writes only the proper ancestors of i. */
  lemma {:induction false} RepairFrame(t: seq<int>, i: int, j: int)
    requires 0 <= i < |t| && |t| % 2 == 0 && 0 <= j < |t| && !IsAncestor(j, i)
    ensures Repair(t, i)[j] == t[j]
    decreases i
  {
    if i > 1 {
      var p := i / 2;
      RepairFrame(t[p := t[2 * p] + t[2 * p + 1]], p, j);
    }
  }

  /**
   * update writes val at n + idx and otherwise only the ancestors of n + idx,
   * which are internal slots in [1, n); slot 0 is never written.
   */
  lemma PointSetFrame(t: seq<int>, n: int, idx: int, val: int, j: int)
    requires 0 <= idx < n && |t| == 2 * n && 0 <= j < |t|
    ensures PointSet(t, n, idx, val)[n + idx] == val
    ensures j != n + idx && !IsAncestor(j, n + idx) ==> PointSet(t, n, idx, val)[j] == t[j]
    ensures IsAncestor(j, n + idx) ==> 1 <= j < n
    ensures PointSet(t, n, idx, val)[0] == t[0]
  {
    var leaf := n + idx;
    if IsAncestor(leaf, leaf) {
      AncestorBounds(leaf, leaf);
    }
    RepairFrame(t[leaf := val], leaf, leaf);
    if !IsAncestor(j, leaf) {
      RepairFrame(t[leaf := val], leaf, j);
    } else {
      AncestorBounds(j, leaf);
    }
    if IsAncestor(0, leaf) {
      AncestorBounds(0, leaf);
    }
    RepairFrame(t[leaf := val], leaf, 0);
  }

  /** Two lists with the same layout agree everywhere except possibly slot 0. */
  lemma {:induction false} LayoutUnique(t1: seq<int>, t2: seq<int>, nums: seq<int>, j: int)
    requires Layout(t1, nums) && Layout(t2, nums) && 1 <= j <= |t1|
    ensures forall k :: j <= k < |t1| ==> t1[k] == t2[k]
    decreases |t1| - j
  {
    var n := |nums|;
    if j < |t1| {
      LayoutUnique(t1, t2, nums, j + 1);
      if j < n {
        assert SlotOk(t1, j) && SlotOk(t2, j);
      } else {
        assert t1[n + (j - n)] == nums[j - n] == t2[n + (j - n)];
      }
    }
  }

  /** Applying the same update twice leaves the same list as applying it once. */
  lemma PointSetIdempotent(t: seq<int>, nums: seq<int>, idx: int, val: int)
    requires Layout(t, nums) && 0 <= idx < |nums|
    ensures PointSet(PointSet(t, |nums|, idx, val), |nums|, idx, val) == PointSet(t, |nums|, idx, val)
  {
    var n := |nums|;
    var once := PointSet(t, n, idx, val);
    var twice := PointSet(once, n, idx, val);
    PointSetRestores(t, nums, idx, val);
    PointSetRestores(once, nums[idx := val], idx, val);
    assert nums[idx := val][idx := val] == nums[idx := val];
    LayoutUnique(twice, once, nums[idx := val], 1);
    PointSetFrame(t, n, idx, val, 0);
    PointSetFrame(once, n, idx, val, 0);
  }

  /**
   * One step of the query loop: once lo = 2x is a left child and
   * hi = 2y + 1 a right child, the slots lo .. hi pair up under the parents
   * x .. y, which hold the same sum.
   */
  lemma {:induction false} SumLevelUp(t: seq<int>, n: int, x: int, y: int)
    requires |t| == 2 * n
    requires forall p :: 1 <= p < n ==> SlotOk(t, p)
    requires 1 <= x <= y + 1 && 2 * y + 1 < |t|
    ensures SumRange(t, 2 * x, 2 * y + 2) == SumRange(t, x, y + 1)
    decreases y - x
  {
    if x <= y {
      SumLevelUp(t, n, x, y - 1);
      assert SlotOk(t, y);
    }
  }

  /**
   * One pass of the loop of query_sum from the state (lo, hi, res): a left
   * end on a right child (odd) and a right end on a left child (even) are
   * added to res, then both ends move to their parents i >> 1.
   */
  function QueryStep(t: seq<int>, lo: int, hi: int, res: int): (int, int, int)
    requires 0 <= lo <= hi < |t|
  {
    var res1 := if lo % 2 == 1 then res + t[lo] else res;
    var lo1 := if lo % 2 == 1 then lo + 1 else lo;
    var res2 := if (hi + 1) % 2 == 1 then res1 + t[hi] else res1;
    var hi1 := if (hi + 1) % 2 == 1 then hi - 1 else hi;
    (lo1 / 2, hi1 / 2, res2)
  }

  /** The loop of query_sum: repeat the pass while lo <= hi, then answer res. */
  function QueryLoop(t: seq<int>, lo: int, hi: int, res: int): int
    requires 0 <= lo <= hi + 1 <= |t|
    decreases hi + 1
  {
    if lo > hi then res
    else
      var next := QueryStep(t, lo, hi, res);
      QueryStepBounds(t, lo, hi, res);
      QueryLoop(t, next.0, next.1, next.2)
  }

  /** A pass keeps 0 <= lo <= hi + 1, keeps lo off slot 0, and brings hi strictly down. */
  lemma QueryStepBounds(t: seq<int>, lo: int, hi: int, res: int)
    requires 0 <= lo <= hi < |t|
    ensures var next := QueryStep(t, lo, hi, res);
      0 <= next.0 <= next.1 + 1 && next.1 < hi && 2 * next.1 + 1 < |t| &&
      (1 <= lo ==> 1 <= next.0) &&
      next.0 * 2 == (if lo % 2 == 1 then lo + 1 else lo) &&
      next.1 * 2 + 1 == (if (hi + 1) % 2 == 1 then hi - 1 else hi)
  {
  }

  /**
   * On a valid list a pass preserves res plus the sum of the slots lo .. hi:
   * the added ends leave the range, and the remaining slots pair up under
   * their parents.
   */
  lemma QueryStepCorrect(t: seq<int>, n: int, lo: int, hi: int, res: int)
    requires |t| == 2 * n
    requires forall p :: 1 <= p < n ==> SlotOk(t, p)
    requires 1 <= lo <= hi < |t|
    ensures var next := QueryStep(t, lo, hi, res);
      next.2 + SumRange(t, next.0, next.1 + 1) == res + SumRange(t, lo, hi + 1)
  {
    var res1 := if lo % 2 == 1 then res + t[lo] else res;
    var lo1 := if lo % 2 == 1 then lo + 1 else lo;
    var res2 := if (hi + 1) % 2 == 1 then res1 + t[hi] else res1;
    var hi1 := if (hi + 1) % 2 == 1 then hi - 1 else hi;
    assert res1 + SumRange(t, lo1, hi + 1) == res + SumRange(t, lo, hi + 1) by {
      if lo % 2 == 1 {
        SumRangeSplit(t, lo, lo + 1, hi + 1);
      }
    }
    assert res2 + SumRange(t, lo1, hi1 + 1) == res1 + SumRange(t, lo1, hi + 1);
    var next := QueryStep(t, lo, hi, res);
    QueryStepBounds(t, lo, hi, res);
    SumLevelUp(t, n, next.0, next.1);
  }

  /** On a valid list the loop adds to res the sum of the slots lo .. hi. */
  lemma {:induction false} QueryLoopCorrect(t: seq<int>, n: int, lo: int, hi: int, res: int)
    requires |t| == 2 * n
    requires forall p :: 1 <= p < n ==> SlotOk(t, p)
    requires 0 <= lo <= hi + 1 <= |t| && (n > 0 ==> 1 <= lo)
    ensures QueryLoop(t, lo, hi, res) == res + SumRange(t, lo, hi + 1)
    decreases hi + 1
  {
    if lo <= hi {
      var next := QueryStep(t, lo, hi, res);
      QueryStepBounds(t, lo, hi, res);
      QueryStepCorrect(t, n, lo, hi, res);
      QueryLoopCorrect(t, n, next.0, next.1, next.2);
    }
  }

  /** From the leaves of a valid list, the loop answers the sum of nums over [a, b]. */
  lemma QuerySumCorrect(t: seq<int>, nums: seq<int>, a: int, b: int)
    requires Layout(t, nums) && 0 <= a <= b + 1 <= |nums|
    ensures QueryLoop(t, a + |nums|, b + |nums|, 0) == SumRange(nums, a, b + 1)
  {
    var n := |nums|;
    var lo, hi := n + a, n + b;
    QueryLoopCorrect(t, n, lo, hi, 0);
    SumRangeShift(t, n, nums, a, b + 1);
    assert SumRange(t, lo, hi + 1) == SumRange(nums, a, b + 1);
  }

  class SegmentTreeEasyList {
    var tree: array<int>
    ghost var nums: seq<int>

    ghost predicate Valid()
      reads this, tree
    {
      Layout(tree[..], nums)
    }

    constructor (nums: seq<int>)
      ensures Valid() && this.nums == nums && fresh(tree)
      ensures |nums| > 0 ==> tree[0] == 0
    {
      this.nums := nums;
      var t := BuildTree(nums);
      tree := t;
    }

    /** __build_tree: leaves at n .. 2n - 1, then internal slots from n - 1 down to 1. */
    static method BuildTree(nums: seq<int>) returns (t: array<int>)
      ensures fresh(t) && Layout(t[..], nums) && (|nums| > 0 ==> t[0] == 0)
    {
      var n := |nums|;
      t := new int[2 * n](_ => 0);
      for i := 0 to n
        invariant forall k :: 0 <= k < i ==> t[n + k] == nums[k]
        invariant forall j :: 0 <= j < n ==> t[j] == 0
      {
        t[i + n] := nums[i];
      }
      var i := n - 1;
      while i > 0
        invariant -1 <= i < n
        invariant forall k :: 0 <= k < n ==> t[n + k] == nums[k]
        invariant forall p :: i < p < n ==> SlotOk(t[..], p)
        invariant n > 0 ==> t[0] == 0
      {
        ghost var before := t[..];
        t[i] := t[2 * i] + t[2 * i + 1];
        assert t[..] == before[i := t[i]];
        forall p | i < p < n ensures SlotOk(t[..], p) {
          SlotOkFrame(before, i, t[i], p);
        }
        i := i - 1;
      }
    }

    /** query_sum(a, b): the sum over [a, b] (0 for the empty range a == b + 1). */
    method QuerySum(a: int, b: int) returns (res: int)
      requires Valid() && 0 <= a <= b + 1 <= |nums|
      ensures res == SumRange(nums, a, b + 1)
    {
      ghost var t := tree[..];
      var n := tree.Length / 2;  // len(self.nums)
      var lo, hi := a + n, b + n;
      res := 0;
      ghost var target := QueryLoop(t, lo, hi, res);
      while lo <= hi
        invariant 0 <= lo <= hi + 1 <= |t|
        invariant QueryLoop(t, lo, hi, res) == target
        decreases hi + 1
      {
        ghost var next := QueryStep(t, lo, hi, res);
        QueryStepBounds(t, lo, hi, res);
        if lo % 2 == 1 {
          res := res + tree[lo];
          lo := lo + 1;
        }
        if (hi + 1) % 2 == 1 {
          res := res + tree[hi];
          hi := hi - 1;
        }
        lo := lo / 2;
        hi := hi / 2;
        assert (lo, hi, res) == next;
      }
      QuerySumCorrect(t, nums, a, b);
    }

    /** update(idx, val): set the leaf, then recompute the ancestors up to slot 1. */
    method Update(idx: int, val: int)
      requires Valid() && 0 <= idx < |nums|
      modifies this, tree
      ensures tree == old(tree)
      ensures tree[..] == PointSet(old(tree[..]), |old(nums)|, idx, val)
      ensures Valid() && nums == old(nums)[idx := val]
    {
      ghost var t0, nums0 := tree[..], nums;
      var n := tree.Length / 2;  // len(self.nums)
      assert n == |nums0|;
      ghost var target := PointSet(t0, n, idx, val);
      nums := nums[idx := val];
      var i := idx + n;
      tree[i] := val;
      while i > 1
        modifies tree
        invariant 0 <= i < tree.Length
        invariant Repair(tree[..], i) == target
        decreases i
      {
        i := i / 2;
        ghost var before := tree[..];
        tree[i] := tree[2 * i] + tree[2 * i + 1];
        assert tree[..] == before[i := before[2 * i] + before[2 * i + 1]];
      }
      ghost var t1 := tree[..];
      assert t1 == target;
      PointSetRestores(t0, nums0, idx, val);
      assert Layout(t1, nums0[idx := val]);
    }
  }
}
