/** Finite sums of integer sequences over half-open index ranges: the
    abstract meaning of both the Fenwick tree and the prefix-sum table. */
module Sums {

  /** a[lo] + ... + a[hi - 1] */
  function Sum(a: seq<int>, lo: int, hi: int): int
    requires 0 <= lo <= hi <= |a|
    decreases hi - lo
  {
    if lo == hi then 0 else Sum(a, lo, hi - 1) + a[hi - 1]
  }

  lemma {:induction false} SumSplit(a: seq<int>, lo: int, mid: int, hi: int)
    requires 0 <= lo <= mid <= hi <= |a|
    ensures Sum(a, lo, hi) == Sum(a, lo, mid) + Sum(a, mid, hi)
    decreases hi - mid
  {
    if mid < hi {
      SumSplit(a, lo, mid, hi - 1);
    }
  }

  /** Adding w at p changes exactly the sums whose range holds p, by w. */
  lemma {:induction false} SumUpdate(a: seq<int>, p: int, w: int, lo: int, hi: int)
    requires 0 <= p < |a| && 0 <= lo <= hi <= |a|
    ensures Sum(a[p := a[p] + w], lo, hi) == Sum(a, lo, hi) + (if lo <= p < hi then w else 0)
    decreases hi - lo
  {
    if lo < hi {
      SumUpdate(a, p, w, lo, hi - 1);
    }
  }

  lemma {:induction false} SumZero(n: nat, lo: int, hi: int)
    requires 0 <= lo <= hi <= n
    ensures Sum(seq(n, _ => 0), lo, hi) == 0
    decreases hi - lo
  {
    if lo < hi {
      SumZero(n, lo, hi - 1);
    }
  }
}
