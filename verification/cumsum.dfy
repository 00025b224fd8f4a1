/** The static prefix-sum table of cpp/Cumsum.cpp: built once from an array
    of N integers, it answers closed-interval sums array[l] + ... + array[r].
    The C++ accumulates in `long long`; the model uses unbounded integers. */
module Cumsum {
  import opened Sums

  /** The table: `cumsum` has N + 1 entries, `cumsum[i]` is the sum of the
      first i array elements. */
  datatype Table = Table(n: nat, cumsum: seq<int>)

  /** The table holds the prefix sums of a. */
  ghost predicate PrefixSumsOf(t: Table, a: seq<int>) {
    && t.n == |a|
    && |t.cumsum| == t.n + 1
    && forall i :: 0 <= i <= t.n ==> t.cumsum[i] == Sum(a, 0, i)
  }

  /** The constructor: cumsum[0] = 0 and cumsum[i + 1] = cumsum[i] + a[i]. */
  method Build(a: seq<int>) returns (t: Table)
    ensures PrefixSumsOf(t, a)
    ensures t.cumsum[0] == 0
    ensures forall i :: 0 <= i < |a| ==> t.cumsum[i + 1] == t.cumsum[i] + a[i]
  {
    var n := |a|;
    var c := seq(n + 1, _ => 0);
    for i := 0 to n
      invariant |c| == n + 1
      invariant forall j :: 0 <= j <= i ==> c[j] == Sum(a, 0, j)
    {
      c := c[i + 1 := c[i] + a[i]];
    }
    t := Table(n, c);
  }

  /** sum(l, r): the closed-interval sum a[l] + ... + a[r] of the array a
      the table was built from; 0 unless 0 <= l <= r < N. */
  function RangeSum(t: Table, l: int, r: int): (s: int)
    requires |t.cumsum| == t.n + 1
    ensures !(0 <= l <= r < t.n) ==> s == 0
    ensures forall a :: PrefixSumsOf(t, a) && 0 <= l <= r < t.n ==> s == Sum(a, l, r + 1)
  {
    PrefixDifference(t, l, r);
    if l > r || r >= t.n || l < 0 then 0 else t.cumsum[r + 1] - t.cumsum[l]
  }

  /** The difference of two prefix sums is the sum of the interval between. */
  lemma {:induction false} PrefixDifference(t: Table, l: int, r: int)
    requires |t.cumsum| == t.n + 1
    ensures forall a :: PrefixSumsOf(t, a) && 0 <= l <= r < t.n ==>
      t.cumsum[r + 1] - t.cumsum[l] == Sum(a, l, r + 1)
  {
    forall a | PrefixSumsOf(t, a) && 0 <= l <= r < t.n
      ensures t.cumsum[r + 1] - t.cumsum[l] == Sum(a, l, r + 1)
    {
      SumSplit(a, 0, l, r + 1);
    }
  }

  /** A one-element interval is that element. */
  lemma {:induction false} RangeSumSingle(t: Table, a: seq<int>, i: int)
    requires PrefixSumsOf(t, a) && 0 <= i < |a|
    ensures RangeSum(t, i, i) == a[i]
  {
    assert Sum(a, i, i + 1) == Sum(a, i, i) + a[i];
  }

  /** Splitting an interval after m: sum(l, m) + sum(m + 1, r) == sum(l, r). */
  lemma {:induction false} RangeSumSplit(t: Table, a: seq<int>, l: int, m: int, r: int)
    requires PrefixSumsOf(t, a) && 0 <= l <= m < r < |a|
    ensures RangeSum(t, l, m) + RangeSum(t, m + 1, r) == RangeSum(t, l, r)
  {
    SumSplit(a, l, m + 1, r + 1);
  }
}
