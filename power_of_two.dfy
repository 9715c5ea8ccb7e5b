// The `msb` helper of segment_tree.py: the smallest power of two that is no
// less than its argument, stated as a search over the powers of two rather
// than through the bit_count / bit_length library calls.
module PowerOfTwo {

  /** x is 1, 2, 4, 8, ... */
  ghost predicate IsPowerOfTwo(x: int)
    decreases if x < 1 then 0 else x
  {
    x >= 1 && (x == 1 || (x % 2 == 0 && IsPowerOfTwo(x / 2)))
  }

  lemma {:induction false} DoubleIsPowerOfTwo(p: int)
    requires IsPowerOfTwo(p)
    ensures IsPowerOfTwo(2 * p) && (2 * p) / 2 == p
  {
    assert (2 * p) % 2 == 0 && (2 * p) / 2 == p;
  }

  /** Between two powers of two there is at least a factor of two. */
  lemma {:induction false} PowersAreSpread(p: int, q: int)
    requires IsPowerOfTwo(p) && IsPowerOfTwo(q) && p < q
    ensures 2 * p <= q
    decreases q
  {
    if p > 1 {
      PowersAreSpread(p / 2, q / 2);
    }
  }

  /** The first power of two, counting up from p, that is at least x. */
  function LeastPowerFrom(x: int, p: int): (r: int)
    requires IsPowerOfTwo(p)
    requires p == 1 || p / 2 < x
    ensures IsPowerOfTwo(r) && x <= r && p <= r
    ensures r == 1 || r / 2 < x
    decreases x - p
  {
    if p >= x then p
    else
      DoubleIsPowerOfTwo(p);
      LeastPowerFrom(x, 2 * p)
  }

  /**
   * msb(x) of segment_tree.py: a power of two, at least x, and the least such
   * (half of it is already below x). For x == 0 the Python msb also gives 1.
   */
  function Msb(x: nat): (r: nat)
    ensures IsPowerOfTwo(r) && x <= r
    ensures r == 1 || r / 2 < x
  {
    LeastPowerFrom(x, 1)
  }

  /** No power of two at least x is smaller than Msb(x). */
  lemma MsbIsLeast(x: nat, q: int)
    requires IsPowerOfTwo(q) && x <= q
    ensures Msb(x) <= q
  {
    var r := Msb(x);
    if q < r {
      PowersAreSpread(q, r);
    }
  }

  /** A power of two is returned unchanged. */
  lemma MsbOfPowerOfTwo(x: nat)
    requires IsPowerOfTwo(x)
    ensures Msb(x) == x
  {
    MsbIsLeast(x, x);
  }
}
