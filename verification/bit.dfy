/** The Fenwick tree of cpp/BIT.cpp: point additions and half-open range
    sums over n integers.

    Cell x - 1 of `data` (1-based position x) holds the sum of the positions
    (x - lowbit(x), x] of an abstract array.  That array is not stored: it is
    a ghost argument, and `Represents(t, a)` ties the cells to it.  The
    element type T of the C++ template is modelled as `int`.
 */
module BinaryIndexedTree {
  import opened Bits
  import opened Sums

  datatype BIT = BIT(n: nat, data: seq<int>)

  /** The 1-based cell x covers the 0-based position p. */
  predicate Covers(x: int, p: int)
    requires x >= 1
  {
    x - LowBit(x) <= p < x
  }

  /** The cells of t are the lowbit-block sums of a. */
  ghost predicate Represents(t: BIT, a: seq<int>) {
    && |t.data| == t.n == |a|
    && forall x :: 1 <= x <= t.n ==> t.data[x - 1] == Sum(a, x - LowBit(x), x)
  }

  /** The constructor: n cells of 0, representing the all-zero array. */
  function New(n: nat): (t: BIT)
    ensures t.n == n
    ensures Represents(t, seq(n, _ => 0))
  {
    var t := BIT(n, seq(n, _ => 0));
    forall x | 1 <= x <= n
      ensures t.data[x - 1] == Sum(seq(n, _ => 0), x - LowBit(x), x)
    {
      SumZero(n, x - LowBit(x), x);
    }
    t
  }

  /** The cells strictly between a covering cell x and x + lowbit(x) do not
      cover p, and x + lowbit(x) does. */
  lemma {:induction false} NextCover(x: int, p: int)
    requires x >= 1 && Covers(x, p)
    ensures Covers(x + LowBit(x), p)
    ensures forall y :: x < y < x + LowBit(x) ==> !Covers(y, p)
  {
    LowBitStep(x);
    forall y | x < y < x + LowBit(x)
      ensures !Covers(y, p)
    {
      LowBitAddSmall(x, y - x);
    }
  }

  /** No cell below p + 1 covers p. */
  lemma {:induction false} FirstCover(p: int)
    requires p >= 0
    ensures Covers(p + 1, p)
    ensures forall y :: 1 <= y <= p ==> !Covers(y, p)
  {
  }

  /** The cells during add(p, w): the covering cells below x already carry
      w, all others are as before. */
  ghost predicate AddedBelow(data: seq<int>, a: seq<int>, p: int, w: int, x: int) {
    && |data| == |a|
    && forall y :: 1 <= y <= |a| ==>
         data[y - 1] == Sum(a, y - LowBit(y), y) + (if y < x && Covers(y, p) then w else 0)
  }

  lemma {:induction false} AddStep(data: seq<int>, a: seq<int>, p: int, w: int, x: int, data': seq<int>)
    requires 1 <= x <= |a| && Covers(x, p) && AddedBelow(data, a, p, w, x)
    requires data' == data[x - 1 := data[x - 1] + w]
    ensures Covers(x + LowBit(x), p) && AddedBelow(data', a, p, w, x + LowBit(x))
  {
    NextCover(x, p);
    var x' := x + LowBit(x);
    forall y | 1 <= y <= |a|
      ensures data'[y - 1] == Sum(a, y - LowBit(y), y) + (if y < x' && Covers(y, p) then w else 0)
    {
      if y != x {
        assert data'[y - 1] == data[y - 1];
        if x < y < x' {
          assert !Covers(y, p);
        }
      }
    }
  }

  lemma {:induction false} AddDone(data: seq<int>, a: seq<int>, p: int, w: int, x: int)
    requires 0 <= p < |a| && x > |a| && AddedBelow(data, a, p, w, x)
    ensures forall y :: 1 <= y <= |a| ==> data[y - 1] == Sum(a[p := a[p] + w], y - LowBit(y), y)
  {
    forall y | 1 <= y <= |a|
      ensures data[y - 1] == Sum(a[p := a[p] + w], y - LowBit(y), y)
    {
      SumUpdate(a, p, w, y - LowBit(y), y);
    }
  }

  /** add(p, w): adds w at position p, walking x = p + 1, x + lowbit(x), ...
      through exactly the cells that cover p.  Out of range it changes
      nothing. */
  method Add(t: BIT, ghost a: seq<int>, p: int, w: int) returns (t': BIT)
    requires Represents(t, a)
    ensures 0 <= p < t.n ==> Represents(t', a[p := a[p] + w])
    ensures !(0 <= p < t.n) ==> t' == t
  {
    if p < 0 || p >= t.n {
      return t;
    }
    var data := t.data;
    var x := p + 1;
    FirstCover(p);
    assert AddedBelow(data, a, p, w, x);
    while x <= t.n
      invariant x >= 1 && Covers(x, p)
      invariant AddedBelow(data, a, p, w, x)
      decreases t.n - x
    {
      ghost var data' := data[x - 1 := data[x - 1] + w];
      AddStep(data, a, p, w, x, data');
      data := data[x - 1 := data[x - 1] + w];
      x := x + LowBit(x);
    }
    AddDone(data, a, p, w, x);
    t' := BIT(t.n, data);
  }

  /** _sum(r): the prefix sum a[0] + ... + a[r - 1], walking
      x = r, x - lowbit(x), ... down to 0. */
  method PrefixSum(t: BIT, ghost a: seq<int>, r: int) returns (s: int)
    requires Represents(t, a) && 0 <= r <= t.n
    ensures s == Sum(a, 0, r)
  {
    s := 0;
    var x := r;
    while x > 0
      invariant 0 <= x <= r
      invariant s + Sum(a, 0, x) == Sum(a, 0, r)
    {
      SumSplit(a, 0, x - LowBit(x), x);
      s := s + t.data[x - 1];
      x := x - LowBit(x);
    }
  }

  /** sum(l, r): a[l] + ... + a[r - 1]; 0 for a range that is not within
      [0, n]. */
  method RangeSum(t: BIT, ghost a: seq<int>, l: int, r: int) returns (s: int)
    requires Represents(t, a)
    ensures 0 <= l <= r <= t.n ==> s == Sum(a, l, r)
    ensures !(0 <= l <= r <= t.n) ==> s == 0
  {
    if l < 0 || r < l || t.n < r {
      return 0;
    }
    var sr := PrefixSum(t, a, r);
    var sl := PrefixSum(t, a, l);
    SumSplit(a, 0, l, r);
    s := sr - sl;
  }
}
