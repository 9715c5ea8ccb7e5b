// SegmentTreeList of segment_tree.py: a flat, 0-indexed tree for range
// minimum. The children of slot i are 2i + 1 and 2i + 2, its parent is
// (i - 1) // 2; the n leaves sit at offset .. offset + n - 1 where
// offset = msb(n) - 1, and the list has length offset + n. A child index
// past the end of the list stands for padding and is skipped, which is the
// same as taking MAX_INT for it.
module MinTree {
  import opened PowerOfTwo

  /** MAX_INT: the list's initial value, the padding, and the identity of min for values up to MAX_INT. */
  const MaxInt := 1_000_000

  function Min(x: int, y: int): int
  {
    if x <= y then x else y
  }

  /**
   * Reference meaning: the min of s over [lo, hi) capped at MaxInt (MaxInt for an
   * empty range); it is the true min when no value exceeds MaxInt (MinRangeIsMinimum).
   */
  function MinRange(s: seq<int>, lo: int, hi: int): int
    requires 0 <= lo <= hi <= |s|
    decreases hi - lo
  {
    if lo == hi then MaxInt else Min(MinRange(s, lo, hi - 1), s[hi - 1])
  }

  lemma {:induction false} MinRangeBounded(s: seq<int>, lo: int, hi: int)
    requires 0 <= lo <= hi <= |s|
    ensures MinRange(s, lo, hi) <= MaxInt
    decreases hi - lo
  {
    if lo < hi {
      MinRangeBounded(s, lo, hi - 1);
    }
  }

  /** Peeling the first element instead of the last. */
  lemma {:induction false} MinRangeFront(s: seq<int>, lo: int, hi: int)
    requires 0 <= lo < hi <= |s|
    ensures MinRange(s, lo, hi) == Min(s[lo], MinRange(s, lo + 1, hi))
    decreases hi - lo
  {
    if lo + 1 < hi {
      MinRangeFront(s, lo, hi - 1);
    }
  }

  /**
   * When no value exceeds MAX_INT, MinRange over a non-empty range is the
   * true minimum: it is one of the values and no value is smaller.
   */
  lemma {:induction false} MinRangeIsMinimum(s: seq<int>, lo: int, hi: int)
    requires 0 <= lo < hi <= |s|
    requires forall k :: lo <= k < hi ==> s[k] <= MaxInt
    ensures exists k :: lo <= k < hi && MinRange(s, lo, hi) == s[k]
    ensures forall k :: lo <= k < hi ==> MinRange(s, lo, hi) <= s[k]
    decreases hi - lo
  {
    if lo + 1 == hi {
      assert MinRange(s, lo, hi) == s[lo];
    } else {
      MinRangeIsMinimum(s, lo, hi - 1);
      if MinRange(s, lo, hi - 1) <= s[hi - 1] {
        var k :| lo <= k < hi - 1 && MinRange(s, lo, hi - 1) == s[k];
        assert MinRange(s, lo, hi) == s[k];
      } else {
        assert MinRange(s, lo, hi) == s[hi - 1];
      }
    }
  }

  /** Two sequences that agree on a shifted window have equal window minima. */
  lemma {:induction false} MinRangeShift(t: seq<int>, d: int, s: seq<int>, lo: int, hi: int)
    requires 0 <= lo <= hi <= |s| && 0 <= d && d + |s| <= |t|
    requires forall k :: lo <= k < hi ==> t[d + k] == s[k]
    ensures MinRange(t, d + lo, d + hi) == MinRange(s, lo, hi)
    decreases hi - lo
  {
    if lo < hi {
      MinRangeShift(t, d, s, lo, hi - 1);
    }
  }

  /** tmp := seed, then min with each child 2p + 1, 2p + 2 that lies inside t. */
  function Combine(t: seq<int>, p: int, seed: int): int
    requires 0 <= p
  {
    var m := if 2 * p + 1 < |t| then Min(seed, t[2 * p + 1]) else seed;
    if 2 * p + 2 < |t| then Min(m, t[2 * p + 2]) else m
  }

  /** Internal slot p holds the min of MAX_INT and its in-bounds children. */
  ghost predicate SlotOk(t: seq<int>, p: int)
  {
    0 <= p < |t| && t[p] == Combine(t, p, MaxInt)
  }

  /**
   * The list built from nums: nums[k] at offset + k, and every internal slot
   * the min of MAX_INT and its in-bounds children.
   */
  ghost predicate Layout(t: seq<int>, offset: nat, nums: seq<int>)
  {
    |t| == offset + |nums| &&
    (forall k :: 0 <= k < |nums| ==> t[offset + k] == nums[k]) &&
    (forall p :: 0 <= p < offset ==> SlotOk(t, p))
  }

  /** Writing a slot other than p's children leaves Combine at p unchanged. */
  lemma CombineFrame(t: seq<int>, j: int, v: int, p: int, seed: int)
    requires 0 <= j < |t| && 0 <= p && j != 2 * p + 1 && j != 2 * p + 2
    ensures Combine(t[j := v], p, seed) == Combine(t, p, seed)
  {
  }

  /** Writing a slot other than q and q's children keeps SlotOk at q. */
  lemma SlotOkFrame(t: seq<int>, j: int, v: int, q: int)
    requires SlotOk(t, q) && 0 <= j < |t| && j != q && j != 2 * q + 1 && j != 2 * q + 2
    ensures SlotOk(t[j := v], q)
  {
    CombineFrame(t, j, v, q, MaxInt);
  }

  /** j is a proper ancestor of slot i: reached from i by one or more (i - 1) // 2 steps. */
  ghost predicate IsAncestor(j: int, i: int)
    decreases if i < 0 then 0 else i
  {
    i >= 1 && ((i - 1) / 2 == j || IsAncestor(j, (i - 1) / 2))
  }

  lemma {:induction false} AncestorIsSmaller(j: int, i: int)
    requires IsAncestor(j, i)
    ensures 0 <= j < i
    decreases if i < 0 then 0 else i
  {
    if (i - 1) / 2 != j {
      AncestorIsSmaller(j, (i - 1) / 2);
    }
  }

  /**
   * The loop of the corrected update: while the parent (i - 1) // 2 is a
   * slot, move to it and set it to the min of MAX_INT and its children.
   */
  function Repair(t: seq<int>, i: int): (r: seq<int>)
    requires 0 <= i < |t|
    ensures |r| == |t|
    decreases i
  {
    if (i - 1) / 2 < 0 then t
    else
      var p := (i - 1) / 2;
      Repair(t[p := Combine(t, p, MaxInt)], p)
  }

  /**
   * The loop of update as written: the parent's new value starts from its
   * own old value (tmp = self.tree_list[idx]) before the children are folded in.
   */
  function RepairAsWritten(t: seq<int>, i: int): (r: seq<int>)
    requires 0 <= i < |t|
    ensures |r| == |t|
    decreases i
  {
    if (i - 1) / 2 < 0 then t
    else
      var p := (i - 1) / 2;
      RepairAsWritten(t[p := Combine(t, p, t[p])], p)
  }

  /** Write val at slot leaf, then repair the ancestors (corrected update). */
  function PointSet(t: seq<int>, leaf: int, val: int): seq<int>
    requires 0 <= leaf < |t|
  {
    Repair(t[leaf := val], leaf)
  }

  /** Write val at slot leaf, then run the update loop as written. */
  function PointSetAsWritten(t: seq<int>, leaf: int, val: int): seq<int>
    requires 0 <= leaf < |t|
  {
    RepairAsWritten(t[leaf := val], leaf)
  }

  /** The min invariant holds at every internal slot except possibly the parent of i. */
  ghost predicate HeapExcept(t: seq<int>, offset: nat, i: int)
  {
    forall p :: 0 <= p < offset && p != (i - 1) / 2 ==> SlotOk(t, p)
  }

  /** Repairing from i, with the invariant broken only at i's parent, restores the layout. */
  lemma {:induction false} RepairRestores(t: seq<int>, offset: nat, nums: seq<int>, i: int)
    requires |t| == offset + |nums| && |t| <= 2 * offset + 1 && 0 <= i < |t|
    requires forall k :: 0 <= k < |nums| ==> t[offset + k] == nums[k]
    requires HeapExcept(t, offset, i)
    ensures Layout(Repair(t, i), offset, nums)
    decreases i
  {
    if (i - 1) / 2 >= 0 {
      var p := (i - 1) / 2;
      var t' := t[p := Combine(t, p, MaxInt)];
      forall q | 0 <= q < offset && q != (p - 1) / 2
        ensures SlotOk(t', q)
      {
        assert 2 * q + 1 != p && 2 * q + 2 != p;
        if q == p {
          CombineFrame(t, p, Combine(t, p, MaxInt), p, MaxInt);
        } else {
          SlotOkFrame(t, p, Combine(t, p, MaxInt), q);
        }
      }
      forall k | 0 <= k < |nums| ensures t'[offset + k] == nums[k] {
        assert t[offset + k] == nums[k];
      }
      RepairRestores(t', offset, nums, p);
    }
  }

  /** The corrected update restores the layout for the updated sequence. */
  lemma PointSetRestores(t: seq<int>, offset: nat, nums: seq<int>, idx: int, val: int)
    requires Layout(t, offset, nums) && |nums| <= offset + 1 && 0 <= idx < |nums|
    ensures Layout(PointSet(t, offset + idx, val), offset, nums[idx := val])
  {
    var leaf := offset + idx;
    var t1 := t[leaf := val];
    var nums' := nums[idx := val];
    forall q | 0 <= q < offset && q != (leaf - 1) / 2
      ensures SlotOk(t1, q)
    {
      assert 2 * q + 1 != leaf && 2 * q + 2 != leaf;
      SlotOkFrame(t, leaf, val, q);
    }
    forall k | 0 <= k < |nums'| ensures t1[offset + k] == nums'[k] {
      if k != idx {
        assert t[offset + k] == nums[k];
      }
    }
    RepairRestores(t1, offset, nums', leaf);
  }

  /**
   * As long as every slot is at most its value in a valid list t0 and the
   * slots below i are untouched, the stale seed of update as written makes
   * no difference.
   */
  lemma {:induction false} RepairAsWrittenAgrees(t0: seq<int>, t: seq<int>, offset: nat, i: int)
    requires |t| == |t0| && offset < |t| <= 2 * offset + 1 && 0 <= i < |t|
    requires forall p :: 0 <= p < offset ==> SlotOk(t0, p)
    requires forall j :: 0 <= j < i ==> t[j] == t0[j]
    requires forall j :: 0 <= j < |t| ==> t[j] <= t0[j]
    ensures RepairAsWritten(t, i) == Repair(t, i)
    decreases i
  {
    if (i - 1) / 2 >= 0 {
      var p := (i - 1) / 2;
      assert SlotOk(t0, p) && t[p] == t0[p];
      assert 2 * p + 1 < |t| ==> t[2 * p + 1] <= t0[2 * p + 1];
      assert 2 * p + 2 < |t| ==> t[2 * p + 2] <= t0[2 * p + 2];
      assert Combine(t, p, t[p]) == Combine(t, p, MaxInt);
      var t' := t[p := Combine(t, p, MaxInt)];
      RepairAsWrittenAgrees(t0, t', offset, p);
    }
  }

  /** update as written is right when the new value does not exceed the old one. */
  lemma PointSetAsWrittenWhenLowering(t: seq<int>, offset: nat, nums: seq<int>, idx: int, val: int)
    requires Layout(t, offset, nums) && |nums| <= offset + 1 && 0 <= idx < |nums|
    requires val <= nums[idx]
    ensures PointSetAsWritten(t, offset + idx, val) == PointSet(t, offset + idx, val)
    ensures Layout(PointSetAsWritten(t, offset + idx, val), offset, nums[idx := val])
  {
    assert t[offset + idx] == nums[idx];
    RepairAsWrittenAgrees(t, t[offset + idx := val], offset, offset + idx);
    PointSetRestores(t, offset, nums, idx, val);
  }

  /** Repair writes only proper ancestors of i. */
  lemma {:induction false} RepairFrame(t: seq<int>, i: int, j: int)
    requires 0 <= i < |t| && 0 <= j < |t| && !IsAncestor(j, i)
    ensures Repair(t, i)[j] == t[j]
    decreases i
  {
    if (i - 1) / 2 >= 0 {
      var p := (i - 1) / 2;
      RepairFrame(t[p := Combine(t, p, MaxInt)], p, j);
    }
  }

  /** RepairAsWritten writes only proper ancestors of i, and never raises a slot. */
  lemma {:induction false} RepairAsWrittenFrame(t: seq<int>, i: int, j: int)
    requires 0 <= i < |t| && 0 <= j < |t|
    ensures RepairAsWritten(t, i)[j] <= t[j]
    ensures !IsAncestor(j, i) ==> RepairAsWritten(t, i)[j] == t[j]
    decreases i
  {
    if (i - 1) / 2 >= 0 {
      var p := (i - 1) / 2;
      RepairAsWrittenFrame(t[p := Combine(t, p, t[p])], p, j);
    }
  }

  /** Both updates write the leaf and its ancestors only; the leaf gets val. */
  lemma PointSetFrame(t: seq<int>, leaf: int, val: int, j: int)
    requires 0 <= leaf < |t| && 0 <= j < |t|
    ensures PointSet(t, leaf, val)[leaf] == val && PointSetAsWritten(t, leaf, val)[leaf] == val
    ensures j != leaf && !IsAncestor(j, leaf) ==>
      PointSet(t, leaf, val)[j] == t[j] && PointSetAsWritten(t, leaf, val)[j] == t[j]
  {
    if IsAncestor(leaf, leaf) {
      AncestorIsSmaller(leaf, leaf);
    }
    RepairFrame(t[leaf := val], leaf, leaf);
    RepairAsWrittenFrame(t[leaf := val], leaf, leaf);
    if !IsAncestor(j, leaf) {
      RepairFrame(t[leaf := val], leaf, j);
    }
    RepairAsWrittenFrame(t[leaf := val], leaf, j);
  }

  /** update as written never increases a slot other than the leaf. */
  lemma PointSetAsWrittenNeverRaises(t: seq<int>, leaf: int, val: int, j: int)
    requires 0 <= leaf < |t| && 0 <= j < |t| && j != leaf
    ensures PointSetAsWritten(t, leaf, val)[j] <= t[j]
  {
    RepairAsWrittenFrame(t[leaf := val], leaf, j);
  }

  /**
   * nums = [1, 2] gives the list [1, 1, 2] (offset 1). update(0, 5) as written
   * leaves the root at 1, although the minimum of [5, 2] is 2; the corrected
   * update sets it to 2.
   */
  lemma AsWrittenRaiseLeavesRootStale()
    ensures Layout([1, 1, 2], 1, [1, 2])
    ensures PointSetAsWritten([1, 1, 2], 1, 5) == [1, 5, 2]
    ensures !Layout(PointSetAsWritten([1, 1, 2], 1, 5), 1, [5, 2])
    ensures PointSet([1, 1, 2], 1, 5) == [2, 5, 2]
    ensures Layout(PointSet([1, 1, 2], 1, 5), 1, [5, 2])
    ensures QueryLoop([1, 5, 2], 1, 2, MaxInt) == 1 && MinRange([5, 2], 0, 2) == 2
  {
    var t: seq<int> := [1, 1, 2];
    assert Combine(t, 0, MaxInt) == 1;
    assert Layout(t, 1, [1, 2]);
    var a := t[1 := 5];
    assert a == [1, 5, 2];
    assert Combine(a, 0, a[0]) == 1;
    assert a[0 := 1] == [1, 5, 2];
    assert RepairAsWritten(a, 1) == RepairAsWritten([1, 5, 2], 0) == [1, 5, 2];
    assert Combine([1, 5, 2], 0, MaxInt) == 2;
    assert Combine(a, 0, MaxInt) == 2;
    assert a[0 := 2] == [2, 5, 2];
    assert Repair(a, 1) == Repair([2, 5, 2], 0) == [2, 5, 2];
    assert Combine([2, 5, 2], 0, MaxInt) == 2;
    assert !SlotOk([1, 5, 2], 0);
    assert SlotOk([2, 5, 2], 0);
    assert QueryStep([1, 5, 2], 1, 2, MaxInt) == (0, 0, MaxInt);
    assert QueryStep([1, 5, 2], 0, 0, MaxInt) == (0, -1, 1);
  }

  /** Two lists with the same layout are equal: each slot is fixed by nums and the slots after it. */
  lemma {:induction false} LayoutUnique(t1: seq<int>, t2: seq<int>, offset: nat, nums: seq<int>, j: int)
    requires Layout(t1, offset, nums) && Layout(t2, offset, nums) && 0 <= j <= |t1|
    ensures forall k :: j <= k < |t1| ==> t1[k] == t2[k]
    decreases |t1| - j
  {
    if j < |t1| {
      LayoutUnique(t1, t2, offset, nums, j + 1);
      if j < offset {
        assert SlotOk(t1, j) && SlotOk(t2, j);
      } else {
        assert t1[offset + (j - offset)] == nums[j - offset] == t2[offset + (j - offset)];
      }
    }
  }

  /** Repeating the corrected update gives the same list as applying it once. */
  lemma PointSetIdempotent(t: seq<int>, offset: nat, nums: seq<int>, idx: int, val: int)
    requires Layout(t, offset, nums) && |nums| <= offset + 1 && 0 <= idx < |nums|
    ensures PointSet(PointSet(t, offset + idx, val), offset + idx, val) == PointSet(t, offset + idx, val)
  {
    var once := PointSet(t, offset + idx, val);
    var twice := PointSet(once, offset + idx, val);
    PointSetRestores(t, offset, nums, idx, val);
    PointSetRestores(once, offset, nums[idx := val], idx, val);
    assert nums[idx := val][idx := val] == nums[idx := val];
    LayoutUnique(twice, once, offset, nums[idx := val], 0);
  }

  /** Every proper ancestor p of slot i already holds the min of its own value and its children. */
  ghost predicate SettledAbove(t: seq<int>, i: int)
  {
    forall j :: 0 <= j < |t| && IsAncestor(j, i) ==> Combine(t, j, t[j]) == t[j]
  }

  /** The update loop as written leaves every ancestor of i settled. */
  lemma {:induction false} RepairAsWrittenSettles(t: seq<int>, i: int)
    requires 0 <= i < |t|
    ensures SettledAbove(RepairAsWritten(t, i), i)
    decreases i
  {
    if (i - 1) / 2 >= 0 {
      var p := (i - 1) / 2;
      var m := Combine(t, p, t[p]);
      var s := t[p := m];
      var r := RepairAsWritten(s, p);
      assert r == RepairAsWritten(t, i);
      RepairAsWrittenSettles(s, p);
      if IsAncestor(p, p) {
        AncestorIsSmaller(p, p);
      }
      RepairAsWrittenFrame(s, p, p);
      assert r[p] == m;
      if 2 * p + 1 < |t| {
        if IsAncestor(2 * p + 1, p) {
          AncestorIsSmaller(2 * p + 1, p);
        }
        RepairAsWrittenFrame(s, p, 2 * p + 1);
      }
      if 2 * p + 2 < |t| {
        if IsAncestor(2 * p + 2, p) {
          AncestorIsSmaller(2 * p + 2, p);
        }
        RepairAsWrittenFrame(s, p, 2 * p + 2);
      }
      assert Combine(r, p, r[p]) == r[p];
      forall j | 0 <= j < |r| && IsAncestor(j, i)
        ensures Combine(r, j, r[j]) == r[j]
      {
        if j != p {
          assert IsAncestor(j, p);
        }
      }
    }
  }

  /** On a list whose ancestors of i are all settled, the update loop as written changes nothing. */
  lemma {:induction false} RepairAsWrittenSettled(t: seq<int>, i: int)
    requires 0 <= i < |t| && SettledAbove(t, i)
    ensures RepairAsWritten(t, i) == t
    decreases i
  {
    if (i - 1) / 2 >= 0 {
      var p := (i - 1) / 2;
      assert IsAncestor(p, i);
      assert t[p := Combine(t, p, t[p])] == t;
      forall j | 0 <= j < |t| && IsAncestor(j, p)
        ensures Combine(t, j, t[j]) == t[j]
      {
        assert IsAncestor(j, i);
      }
      RepairAsWrittenSettled(t, p);
    }
  }

  /** Repeating update as written gives the same list as applying it once, on any list. */
  lemma PointSetAsWrittenIdempotent(t: seq<int>, leaf: int, val: int)
    requires 0 <= leaf < |t|
    ensures PointSetAsWritten(PointSetAsWritten(t, leaf, val), leaf, val) == PointSetAsWritten(t, leaf, val)
  {
    var once := PointSetAsWritten(t, leaf, val);
    RepairAsWrittenSettles(t[leaf := val], leaf);
    PointSetFrame(t, leaf, val, leaf);
    assert once[leaf := val] == once;
    RepairAsWrittenSettled(once, leaf);
  }

  /** The query loop on the single slot [leaf, leaf] reads that slot only. */
  lemma QueryLoopPoint(t: seq<int>, leaf: int, res: int)
    requires 0 <= leaf < |t|
    ensures QueryLoop(t, leaf, leaf, res) == Min(res, t[leaf])
  {
    var next := QueryStep(t, leaf, leaf, res);
    assert next.2 == Min(res, t[leaf]);
    assert next.0 > next.1;
  }

  /**
   * After either update of slot leaf, query_min(idx, idx) with leaf = offset + idx
   * returns min(MAX_INT, val), whatever the list held before.
   */
  lemma UpdateThenQueryPoint(t: seq<int>, leaf: int, val: int)
    requires 0 <= leaf < |t|
    ensures QueryLoop(PointSetAsWritten(t, leaf, val), leaf, leaf, MaxInt) == Min(MaxInt, val)
    ensures QueryLoop(PointSet(t, leaf, val), leaf, leaf, MaxInt) == Min(MaxInt, val)
  {
    PointSetFrame(t, leaf, val, leaf);
    QueryLoopPoint(PointSetAsWritten(t, leaf, val), leaf, MaxInt);
    QueryLoopPoint(PointSet(t, leaf, val), leaf, MaxInt);
  }

  /**
   * One step of the query loop: once lo = 2x + 1 is a left child and
   * hi = 2y + 2 a right child, the slots lo .. hi pair up under the parents
   * x .. y, which hold the same minimum.
   */
  lemma {:induction false} MinLevelUp(t: seq<int>, offset: nat, x: int, y: int)
    requires |t| <= 2 * offset + 1
    requires forall p :: 0 <= p < offset ==> SlotOk(t, p)
    requires 0 <= x <= y + 1 && 2 * y + 2 < |t|
    ensures MinRange(t, 2 * x + 1, 2 * y + 3) == MinRange(t, x, y + 1)
    decreases y - x
  {
    if x <= y {
      MinLevelUp(t, offset, x, y - 1);
      MinRangeBounded(t, x, y);
      assert SlotOk(t, y);
    }
  }

  /**
   * One pass of the loop of query_min from the state (lo, hi, res): a left
   * end on a right child (even) and a right end on a left child (odd) are
   * folded into res, then both ends move to their parents (i - 1) // 2.
   */
  function QueryStep(t: seq<int>, lo: int, hi: int, res: int): (int, int, int)
    requires 0 <= lo <= hi < |t|
  {
    var res1 := if lo % 2 == 0 then Min(res, t[lo]) else res;
    var lo1 := if lo % 2 == 0 then lo + 1 else lo;
    var res2 := if hi % 2 == 1 then Min(res1, t[hi]) else res1;
    var hi1 := if hi % 2 == 1 then hi - 1 else hi;
    ((lo1 - 1) / 2, (hi1 - 1) / 2, res2)
  }

  /** The loop of query_min: repeat the pass while lo <= hi, then answer res. */
  function QueryLoop(t: seq<int>, lo: int, hi: int, res: int): int
    requires 0 <= lo <= hi + 1 <= |t|
    decreases hi + 1
  {
    if lo > hi then res
    else
      var next := QueryStep(t, lo, hi, res);
      QueryStepBounds(t, lo, hi, res);
      QueryLoop(t, next.0, next.1, next.2)
  }

  /** A pass keeps 0 <= lo <= hi + 1 and brings hi strictly down. */
  lemma QueryStepBounds(t: seq<int>, lo: int, hi: int, res: int)
    requires 0 <= lo <= hi < |t|
    ensures var next := QueryStep(t, lo, hi, res);
      0 <= next.0 <= next.1 + 1 && next.1 < hi && 2 * next.1 + 2 < |t| &&
      next.0 * 2 + 1 == (if lo % 2 == 0 then lo + 1 else lo) &&
      next.1 * 2 + 2 == (if hi % 2 == 1 then hi - 1 else hi)
  {
  }

  /**
   * On a valid list a pass preserves res combined with the minimum of the
   * slots lo .. hi: the folded ends leave the range, and the remaining
   * slots pair up under their parents.
   */
  lemma QueryStepCorrect(t: seq<int>, offset: nat, lo: int, hi: int, res: int)
    requires |t| <= 2 * offset + 1
    requires forall p :: 0 <= p < offset ==> SlotOk(t, p)
    requires 0 <= lo <= hi < |t| && res <= MaxInt
    ensures var next := QueryStep(t, lo, hi, res);
      next.2 <= MaxInt &&
      Min(next.2, MinRange(t, next.0, next.1 + 1)) == Min(res, MinRange(t, lo, hi + 1))
  {
    var res1 := if lo % 2 == 0 then Min(res, t[lo]) else res;
    var lo1 := if lo % 2 == 0 then lo + 1 else lo;
    var res2 := if hi % 2 == 1 then Min(res1, t[hi]) else res1;
    var hi1 := if hi % 2 == 1 then hi - 1 else hi;
    assert Min(res1, MinRange(t, lo1, hi + 1)) == Min(res, MinRange(t, lo, hi + 1)) by {
      if lo % 2 == 0 {
        MinRangeFront(t, lo, hi + 1);
      }
    }
    assert Min(res2, MinRange(t, lo1, hi1 + 1)) == Min(res1, MinRange(t, lo1, hi + 1));
    var next := QueryStep(t, lo, hi, res);
    QueryStepBounds(t, lo, hi, res);
    MinLevelUp(t, offset, next.0, next.1);
  }

  /** On a valid list the loop folds into res the minimum of the slots lo .. hi. */
  lemma {:induction false} QueryLoopCorrect(t: seq<int>, offset: nat, lo: int, hi: int, res: int)
    requires |t| <= 2 * offset + 1
    requires forall p :: 0 <= p < offset ==> SlotOk(t, p)
    requires 0 <= lo <= hi + 1 <= |t| && res <= MaxInt
    ensures QueryLoop(t, lo, hi, res) == Min(res, MinRange(t, lo, hi + 1))
    decreases hi + 1
  {
    if lo > hi {
      MinRangeBounded(t, lo, hi + 1);
    } else {
      var next := QueryStep(t, lo, hi, res);
      QueryStepBounds(t, lo, hi, res);
      QueryStepCorrect(t, offset, lo, hi, res);
      QueryLoopCorrect(t, offset, next.0, next.1, next.2);
    }
  }

  /** From the leaves of a valid list, the loop answers the minimum of nums over [a, b]. */
  lemma QueryMinCorrect(t: seq<int>, offset: nat, nums: seq<int>, a: int, b: int)
    requires |nums| <= offset + 1 && Layout(t, offset, nums)
    requires 0 <= a <= b + 1 <= |nums|
    ensures QueryLoop(t, a + offset, b + offset, MaxInt) == MinRange(nums, a, b + 1)
  {
    var lo, hi := offset + a, offset + b;
    QueryLoopCorrect(t, offset, lo, hi, MaxInt);
    MinRangeShift(t, offset, nums, a, b + 1);
    assert MinRange(t, lo, hi + 1) == MinRange(nums, a, b + 1);
    MinRangeBounded(nums, a, b + 1);
  }

  class SegmentTreeList {
    var tree: array<int>
    var offset: nat
    ghost var nums: seq<int>

    /**
     * The list holds the layout of nums, and offset leaves room for every
     * leaf under the internal slots (offset + 1 == msb(n) at construction,
     * and offset never changes afterwards).
     */
    ghost predicate Valid()
      reads this, tree
    {
      |nums| <= offset + 1 && Layout(tree[..], offset, nums)
    }

    constructor (nums: seq<int>)
      ensures Valid() && this.nums == nums && fresh(tree)
      ensures offset + 1 == Msb(|nums|)
    {
      this.nums := nums;
      var t, off := BuildTree(nums);
      tree, offset := t, off;
    }

    /** __build_tree: fill the leaves, then the internal slots from offset - 1 down to 0. */
    static method BuildTree(nums: seq<int>) returns (t: array<int>, offset: nat)
      ensures fresh(t) && offset + 1 == Msb(|nums|) && Layout(t[..], offset, nums)
    {
      var n := |nums|;
      offset := Msb(n) - 1;
      t := new int[offset + n](_ => MaxInt);
      for i := 0 to n
        invariant forall k :: 0 <= k < i ==> t[offset + k] == nums[k]
        invariant forall j :: 0 <= j < offset ==> t[j] == MaxInt
      {
        t[i + offset] := nums[i];
      }
      for i := offset downto 0
        invariant forall k :: 0 <= k < n ==> t[offset + k] == nums[k]
        invariant forall p :: i <= p < offset ==> SlotOk(t[..], p)
        invariant forall p :: 0 <= p < i ==> t[p] == MaxInt
      {
        var tmp := t[i];
        if 2 * i + 1 < offset + n {
          tmp := Min(tmp, t[2 * i + 1]);
        }
        if 2 * i + 2 < offset + n {
          tmp := Min(tmp, t[2 * i + 2]);
        }
        ghost var before := t[..];
        assert tmp == Combine(before, i, MaxInt);
        t[i] := tmp;
        assert t[..] == before[i := tmp];
        forall p | i <= p < offset ensures SlotOk(t[..], p) {
          if p == i {
            CombineFrame(before, i, tmp, i, MaxInt);
          } else {
            SlotOkFrame(before, i, tmp, p);
          }
        }
      }
    }

    /** query_min(a, b): the minimum over [a, b] (MAX_INT for the empty range a == b + 1). */
    method QueryMin(a: int, b: int) returns (res: int)
      requires Valid() && 0 <= a <= b + 1 <= |nums|
      ensures res == MinRange(nums, a, b + 1)
    {
      ghost var t := tree[..];
      var lo, hi := a + offset, b + offset;
      res := MaxInt;
      ghost var target := QueryLoop(t, lo, hi, res);
      while lo <= hi
        invariant 0 <= lo <= hi + 1 <= |t|
        invariant QueryLoop(t, lo, hi, res) == target
        decreases hi + 1
      {
        ghost var next := QueryStep(t, lo, hi, res);
        QueryStepBounds(t, lo, hi, res);
        if lo % 2 == 0 {
          res := Min(res, tree[lo]);
          lo := lo + 1;
        }
        if hi % 2 == 1 {
          res := Min(res, tree[hi]);
          hi := hi - 1;
        }
        lo := (lo - 1) / 2;
        hi := (hi - 1) / 2;
        assert (lo, hi, res) == next;
      }
      QueryMinCorrect(t, offset, nums, a, b);
    }

    /**
     * update(idx, val) as written. The ancestors are recomputed from their
     * old values. The list is proved valid again when val does not exceed the
     * old value; a larger val can leave ancestors with a smaller, stale value.
     */
    method Update(idx: int, val: int)
      requires Valid() && 0 <= idx < |nums|
      modifies this, tree
      ensures tree == old(tree) && offset == old(offset)
      ensures tree[..] == PointSetAsWritten(old(tree[..]), offset + idx, val)
      ensures nums == old(nums)[idx := val]
      ensures val <= old(nums)[idx] ==> Valid()
    {
      ghost var t0, nums0 := tree[..], nums;
      ghost var target := PointSetAsWritten(t0, offset + idx, val);
      nums := nums[idx := val];
      var i := idx + offset;
      tree[i] := val;
      while (i - 1) / 2 >= 0
        modifies tree
        invariant 0 <= i < tree.Length
        invariant RepairAsWritten(tree[..], i) == target
        decreases i
      {
        i := (i - 1) / 2;
        var tmp := tree[i];
        if 2 * i + 1 < tree.Length {
          tmp := Min(tmp, tree[2 * i + 1]);
        }
        if 2 * i + 2 < tree.Length {
          tmp := Min(tmp, tree[2 * i + 2]);
        }
        ghost var before := tree[..];
        assert tmp == Combine(before, i, before[i]);
        tree[i] := tmp;
        assert tree[..] == before[i := tmp];
      }
      ghost var t1 := tree[..];
      assert t1 == target;
      if val <= nums0[idx] {
        PointSetAsWrittenWhenLowering(t0, offset, nums0, idx, val);
        assert Layout(t1, offset, nums0[idx := val]);
      }
    }

    /** update(idx, val) with each ancestor recomputed from MAX_INT, as __build_tree does. */
    method UpdateCorrected(idx: int, val: int)
      requires Valid() && 0 <= idx < |nums|
      modifies this, tree
      ensures tree == old(tree) && offset == old(offset)
      ensures tree[..] == PointSet(old(tree[..]), offset + idx, val)
      ensures Valid() && nums == old(nums)[idx := val]
    {
      ghost var t0, nums0 := tree[..], nums;
      ghost var target := PointSet(t0, offset + idx, val);
      nums := nums[idx := val];
      var i := idx + offset;
      tree[i] := val;
      while (i - 1) / 2 >= 0
        modifies tree
        invariant 0 <= i < tree.Length
        invariant Repair(tree[..], i) == target
        decreases i
      {
        i := (i - 1) / 2;
        var tmp := MaxInt;
        if 2 * i + 1 < tree.Length {
          tmp := Min(tmp, tree[2 * i + 1]);
        }
        if 2 * i + 2 < tree.Length {
          tmp := Min(tmp, tree[2 * i + 2]);
        }
        ghost var before := tree[..];
        assert tmp == Combine(before, i, MaxInt);
        tree[i] := tmp;
        assert tree[..] == before[i := tmp];
      }
      ghost var t1 := tree[..];
      assert t1 == target;
      PointSetRestores(t0, offset, nums0, idx, val);
      assert Layout(t1, offset, nums0[idx := val]);
    }
  }
}
