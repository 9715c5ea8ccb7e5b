// The reference meaning of a range-sum query, independent of any tree: the
// sum of s[lo], ..., s[hi - 1]. Both sum trees of segment_tree.py are proved
// against it.
module RangeSum {

  /** Sum of the half-open range [lo, hi) of s; 0 for an empty range. */
  function SumRange(s: seq<int>, lo: int, hi: int): int
    requires 0 <= lo <= hi <= |s|
    decreases hi - lo
  {
    if lo == hi then 0 else SumRange(s, lo, hi - 1) + s[hi - 1]
  }

  /** A range splits into two adjacent ranges. */
  lemma {:induction false} SumRangeSplit(s: seq<int>, lo: int, mid: int, hi: int)
    requires 0 <= lo <= mid <= hi <= |s|
    ensures SumRange(s, lo, hi) == SumRange(s, lo, mid) + SumRange(s, mid, hi)
    decreases hi - mid
  {
    if mid < hi {
      SumRangeSplit(s, lo, mid, hi - 1);
    }
  }

  /** Writing outside [lo, hi) does not change the range's sum. */
  lemma {:induction false} SumRangeFrame(s: seq<int>, i: int, v: int, lo: int, hi: int)
    requires 0 <= lo <= hi <= |s| && 0 <= i < |s|
    requires i < lo || hi <= i
    ensures SumRange(s[i := v], lo, hi) == SumRange(s, lo, hi)
    decreases hi - lo
  {
    if lo < hi {
      SumRangeFrame(s, i, v, lo, hi - 1);
    }
  }

  /** Two sequences that agree on a shifted window have equal window sums. */
  lemma {:induction false} SumRangeShift(t: seq<int>, d: int, s: seq<int>, lo: int, hi: int)
    requires 0 <= lo <= hi <= |s| && 0 <= d && d + |s| <= |t|
    requires forall k :: lo <= k < hi ==> t[d + k] == s[k]
    ensures SumRange(t, d + lo, d + hi) == SumRange(s, lo, hi)
    decreases hi - lo
  {
    if lo < hi {
      SumRangeShift(t, d, s, lo, hi - 1);
    }
  }
}
