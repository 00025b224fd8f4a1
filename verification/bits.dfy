/** Powers of two and the lowest set bit.

    The segment tree and the Fenwick tree index their arrays with bit tricks:
    `p >>= 1`, `l & 1`, and `x & -x`, the last of which is, for a positive
    two's-complement integer, the value of its lowest set bit.  This module
    defines those quantities over mathematical integers and proves the facts
    the two trees rely on.
 */
module Bits {

  /** 2^k */
  function Pow2(k: nat): (r: nat)
    ensures r >= 1
  {
    if k == 0 then 1 else 2 * Pow2(k - 1)
  }

  /** A positive integer with a single bit set. */
  predicate IsPow2(x: int)
    decreases if x < 0 then 0 else x
  {
    x == 1 || (x >= 2 && x % 2 == 0 && IsPow2(x / 2))
  }

  /** floor(log2(x)) for x >= 1 (0 for smaller x). */
  function Log2(x: int): nat
    decreases if x < 0 then 0 else x
  {
    if x <= 1 then 0 else 1 + Log2(x / 2)
  }

  /** The value of the lowest set bit of x, i.e. `x & -x` for x > 0. */
  function LowBit(x: int): (r: int)
    requires x >= 1
    ensures 1 <= r <= x
    ensures IsPow2(r)
  {
    if x % 2 == 1 then 1 else 2 * LowBit(x / 2)
  }

  lemma {:induction false} Pow2IsPow2(k: nat)
    ensures IsPow2(Pow2(k))
  {
    if k > 0 {
      Pow2IsPow2(k - 1);
      assert Pow2(k) / 2 == Pow2(k - 1);
    }
  }

  /** Every power of two is 2^(Log2 x). */
  lemma {:induction false} IsPow2Log(x: int)
    requires IsPow2(x)
    ensures x == Pow2(Log2(x))
    decreases if x < 0 then 0 else x
  {
    if x != 1 {
      IsPow2Log(x / 2);
    }
  }

  lemma {:induction false} Pow2Monotone(a: nat, b: nat)
    requires a <= b
    ensures Pow2(a) <= Pow2(b)
    decreases b
  {
    if a < b {
      Pow2Monotone(a, b - 1);
    }
  }

  /** Two powers of two below one another differ by at least a factor two. */
  lemma {:induction false} Pow2Gap(a: nat, b: nat)
    requires Pow2(a) < Pow2(b)
    ensures 2 * Pow2(a) <= Pow2(b)
  {
    if b <= a {
      Pow2Monotone(b, a);
    } else {
      Pow2Monotone(a + 1, b);
    }
  }

  /** LowBit(x) == x exactly when x is a power of two; this is the test
      `(l & -l) != l` of the segment tree's searches. */
  lemma {:induction false} LowBitSelf(x: int)
    requires x >= 1
    ensures LowBit(x) == x <==> IsPow2(x)
    decreases x
  {
    if x % 2 == 0 {
      LowBitSelf(x / 2);
    }
  }

  /** Adding a positive d below the lowest set bit of x leaves the lowest set
      bit of d. */
  lemma {:induction false} LowBitAddSmall(x: int, d: int)
    requires x >= 1 && 0 < d < LowBit(x)
    ensures LowBit(x + d) == LowBit(d)
    decreases x
  {
    if d % 2 == 0 {
      assert x % 2 == 0;
      assert (x + d) / 2 == x / 2 + d / 2;
      LowBitAddSmall(x / 2, d / 2);
    }
  }

  /** Stepping x to x + LowBit(x) at least doubles the lowest set bit. */
  lemma {:induction false} LowBitStep(x: int)
    requires x >= 1
    ensures LowBit(x + LowBit(x)) >= 2 * LowBit(x)
    decreases x
  {
    if x % 2 == 0 {
      LowBitStep(x / 2);
      assert (x + LowBit(x)) / 2 == x / 2 + LowBit(x / 2);
    }
  }
}
