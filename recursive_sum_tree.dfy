// SegmentTreeNode / SegmentTree of segment_tree.py: a pointer tree over the
// index range [0, n - 1] whose nodes cache the sum of their range. A node
// without children (left = right = None) is a Leaf; a node with both is a
// Branch. Nodes are owned by exactly one parent, so the in-place writes to
// `.sum` done by `update` are modelled as a functional rebuild of the same
// shape.
module RecursiveSumTree {
  import opened RangeSum

  datatype Node =
    | Leaf(start: int, end: int, sum: int)
    | Branch(start: int, end: int, sum: int, left: Node, right: Node)

  /** The split point (start + end) // 2 used by build, query and update. */
  function Mid(start: int, end: int): int
  {
    (start + end) / 2
  }

  /**
   * The shape __build_tree produces: leaves cover one index; a branch over
   * [start, end] has its left child over [start, mid] and its right child
   * over [mid + 1, end].
   */
  ghost predicate WellFormed(t: Node)
  {
    match t
    case Leaf(s, e, _) => s == e
    case Branch(s, e, _, l, r) =>
      s < e && l.start == s && l.end == Mid(s, e) && r.start == Mid(s, e) + 1 && r.end == e &&
      WellFormed(l) && WellFormed(r)
  }

  /** Every node caches the sum of nums over its range. */
  ghost predicate Caches(t: Node, nums: seq<int>)
  {
    0 <= t.start <= t.end < |nums| && t.sum == SumRange(nums, t.start, t.end + 1) &&
    (t.Branch? ==> Caches(t.left, nums) && Caches(t.right, nums))
  }

  ghost predicate Models(t: Node, nums: seq<int>)
  {
    WellFormed(t) && Caches(t, nums)
  }

  /** The local invariant the code maintains: sum == left.sum + right.sum. */
  ghost predicate SumInvariant(t: Node)
  {
    t.Branch? ==> t.sum == t.left.sum + t.right.sum && SumInvariant(t.left) && SumInvariant(t.right)
  }

  /** Every leaf [i, i] holds nums[i]. */
  ghost predicate LeavesHold(t: Node, nums: seq<int>)
  {
    match t
    case Leaf(s, _, v) => 0 <= s < |nums| && v == nums[s]
    case Branch(_, _, _, l, r) => LeavesHold(l, nums) && LeavesHold(r, nums)
  }

  /** Two trees with the same node ranges and the same shape (sums may differ). */
  ghost predicate SameShape(t: Node, u: Node)
  {
    t.start == u.start && t.end == u.end &&
    match t
    case Leaf(_, _, _) => u.Leaf?
    case Branch(_, _, _, l, r) => u.Branch? && SameShape(l, u.left) && SameShape(r, u.right)
  }

  /** Every node of u whose range does not contain idx is the node of t. */
  ghost predicate OffPathUnchanged(t: Node, u: Node, idx: int)
  {
    if idx < t.start || t.end < idx then u == t
    else t.Branch? && u.Branch? ==>
      OffPathUnchanged(t.left, u.left, idx) && OffPathUnchanged(t.right, u.right, idx)
  }

  /** __build_tree(start, end). */
  function Build(nums: seq<int>, start: int, end: int): (t: Node)
    requires 0 <= start <= end < |nums|
    ensures Models(t, nums) && t.start == start && t.end == end
    decreases end - start
  {
    if start == end then Leaf(start, end, nums[start])
    else
      var mid := Mid(start, end);
      var left := Build(nums, start, mid);
      var right := Build(nums, mid + 1, end);
      SumRangeSplit(nums, start, mid + 1, end + 1);
      Branch(start, end, left.sum + right.sum, left, right)
  }

  /**
   * query_sum(a, b, root): an exact match returns the cached sum, otherwise
   * the query goes left, right, or is split at mid. The requires clause keeps
   * every recursive call inside the node's range, so no call reaches a
   * missing child.
   */
  function QueryNode(t: Node, a: int, b: int): int
    requires WellFormed(t) && t.start <= a <= b <= t.end
    decreases t
  {
    if t.start == a && t.end == b then t.sum
    else
      var mid := Mid(t.start, t.end);
      if b <= mid then QueryNode(t.left, a, b)
      else if a > mid then QueryNode(t.right, a, b)
      else QueryNode(t.left, a, mid) + QueryNode(t.right, mid + 1, b)
  }

  /**
   * update(idx, val, root): the leaf [idx, idx] gets val (an absolute set);
   * on the way back every node on the path gets left.sum + right.sum.
   */
  function UpdateNode(t: Node, idx: int, val: int): (u: Node)
    requires WellFormed(t) && t.start <= idx <= t.end
    ensures WellFormed(u) && SameShape(t, u)
    decreases t
  {
    if t.start == t.end == idx then Leaf(t.start, t.end, val)
    else
      var mid := Mid(t.start, t.end);
      SameShapeRefl(t.left);
      SameShapeRefl(t.right);
      var left := if idx <= mid then UpdateNode(t.left, idx, val) else t.left;
      var right := if idx <= mid then t.right else UpdateNode(t.right, idx, val);
      Branch(t.start, t.end, left.sum + right.sum, left, right)
  }

  lemma {:induction false} SameShapeRefl(t: Node)
    ensures SameShape(t, t)
  {
    if t.Branch? {
      SameShapeRefl(t.left);
      SameShapeRefl(t.right);
    }
  }

  /** The query answers the sum of nums over [a, b]. */
  lemma {:induction false} QueryCorrect(t: Node, nums: seq<int>, a: int, b: int)
    requires Models(t, nums) && t.start <= a <= b <= t.end
    ensures QueryNode(t, a, b) == SumRange(nums, a, b + 1)
    decreases t
  {
    if !(t.start == a && t.end == b) {
      var mid := Mid(t.start, t.end);
      if b <= mid {
        QueryCorrect(t.left, nums, a, b);
      } else if a > mid {
        QueryCorrect(t.right, nums, a, b);
      } else {
        QueryCorrect(t.left, nums, a, mid);
        QueryCorrect(t.right, nums, mid + 1, b);
        SumRangeSplit(nums, a, mid + 1, b + 1);
      }
    }
  }

  /** Nodes whose range misses idx keep their cached sums when nums[idx] changes. */
  lemma {:induction false} CachesFrame(t: Node, nums: seq<int>, idx: int, val: int)
    requires Models(t, nums) && 0 <= idx < |nums| && (idx < t.start || t.end < idx)
    ensures Models(t, nums[idx := val])
    decreases t
  {
    SumRangeFrame(nums, idx, val, t.start, t.end + 1);
    if t.Branch? {
      CachesFrame(t.left, nums, idx, val);
      CachesFrame(t.right, nums, idx, val);
    }
  }

  /**
   * After update, every node caches the sum of the updated sequence: the
   * leaf holds val and every internal node on the path is recomputed.
   */
  lemma {:induction false} UpdateCorrect(t: Node, nums: seq<int>, idx: int, val: int)
    requires Models(t, nums) && t.start <= idx <= t.end
    ensures Models(UpdateNode(t, idx, val), nums[idx := val])
    decreases t
  {
    var u := UpdateNode(t, idx, val);
    var nums' := nums[idx := val];
    if t.start == t.end == idx {
      assert SumRange(nums', idx, idx + 1) == nums'[idx];
    } else {
      var mid := Mid(t.start, t.end);
      if idx <= mid {
        UpdateCorrect(t.left, nums, idx, val);
        CachesFrame(t.right, nums, idx, val);
      } else {
        CachesFrame(t.left, nums, idx, val);
        UpdateCorrect(t.right, nums, idx, val);
      }
      SumRangeSplit(nums', t.start, mid + 1, t.end + 1);
    }
  }

  /** update rewrites only the nodes on the root-to-leaf path of idx. */
  lemma {:induction false} UpdateOnlyTouchesPath(t: Node, idx: int, val: int)
    requires WellFormed(t) && t.start <= idx <= t.end
    ensures OffPathUnchanged(t, UpdateNode(t, idx, val), idx)
    decreases t
  {
    var u := UpdateNode(t, idx, val);
    if !(t.start == t.end == idx) {
      var mid := Mid(t.start, t.end);
      if idx <= mid {
        UpdateOnlyTouchesPath(t.left, idx, val);
      } else {
        UpdateOnlyTouchesPath(t.right, idx, val);
      }
    }
  }

  /** The global caching property is the code's local invariant plus correct leaves. */
  lemma {:induction false} ModelsIffLocal(t: Node, nums: seq<int>)
    requires WellFormed(t) && 0 <= t.start && t.end < |nums|
    ensures Models(t, nums) <==> SumInvariant(t) && LeavesHold(t, nums)
    decreases t
  {
    if t.Branch? {
      ModelsIffLocal(t.left, nums);
      ModelsIffLocal(t.right, nums);
      SumRangeSplit(nums, t.start, t.left.end + 1, t.end + 1);
    } else {
      assert SumRange(nums, t.start, t.start + 1) == nums[t.start];
    }
  }

  /** Repeating update(idx, val) gives the same tree as applying it once. */
  lemma {:induction false} UpdateIdempotent(t: Node, idx: int, val: int)
    requires WellFormed(t) && t.start <= idx <= t.end
    ensures UpdateNode(UpdateNode(t, idx, val), idx, val) == UpdateNode(t, idx, val)
    decreases t
  {
    if !(t.start == t.end == idx) {
      if idx <= Mid(t.start, t.end) {
        UpdateIdempotent(t.left, idx, val);
      } else {
        UpdateIdempotent(t.right, idx, val);
      }
    }
  }

  /** After update(idx, val), the single-index query at idx returns val. */
  lemma UpdateThenQueryPoint(t: Node, nums: seq<int>, idx: int, val: int)
    requires Models(t, nums) && t.start <= idx <= t.end
    ensures QueryNode(UpdateNode(t, idx, val), idx, idx) == val
  {
    var u := UpdateNode(t, idx, val);
    UpdateCorrect(t, nums, idx, val);
    QueryCorrect(u, nums[idx := val], idx, idx);
  }

  /**
   * SegmentTree: the root of the tree and, as ghost state, the sequence the
   * tree currently represents (the Python class keeps the caller's list in
   * self.nums and never writes it back; the model tracks the current values).
   */
  class SegmentTree {
    var tree: Node
    ghost var nums: seq<int>

    ghost predicate Valid()
      reads this
    {
      |nums| > 0 && Models(tree, nums) && tree.start == 0 && tree.end == |nums| - 1
    }

    constructor (nums: seq<int>)
      requires |nums| > 0
      ensures Valid() && this.nums == nums
    {
      this.nums := nums;
      tree := Build(nums, 0, |nums| - 1);
    }

    /** query_sum(a, b) started at the root: the sum over [a, b]. */
    method QuerySum(a: int, b: int) returns (r: int)
      requires Valid() && 0 <= a <= b < |nums|
      ensures r == SumRange(nums, a, b + 1)
    {
      r := QueryNode(tree, a, b);
      QueryCorrect(tree, nums, a, b);
    }

    /** update(idx, val) started at the root. */
    method Update(idx: int, val: int)
      requires Valid() && 0 <= idx < |nums|
      modifies this
      ensures Valid() && nums == old(nums)[idx := val]
      ensures SameShape(old(tree), tree) && OffPathUnchanged(old(tree), tree, idx)
    {
      UpdateCorrect(tree, nums, idx, val);
      UpdateOnlyTouchesPath(tree, idx, val);
      tree := UpdateNode(tree, idx, val);
      nums := nums[idx := val];
    }
  }
}
