/** The segment tree of cpp/SegmentTree.cpp: a perfect binary tree stored
    1-based in an array of 2 * size cells, where size is the least power of
    two that is at least n.  Cell j has children 2j and 2j+1; the leaves are
    cells size .. 2*size - 1, the first n of which hold the sequence A and the
    rest hold the identity.

    The tree is a value; `Set` returns the updated tree instead of mutating
    it, so the read-only operations cannot modify it by construction.
 */
module SegmentTree {
  import opened Bits
  import opened Monoids

  datatype SegTree<S> = SegTree(n: nat, size: nat, data: seq<S>)

  /** The array shape: size a power of two covering n, 2 * size cells. */
  predicate Shape<S>(t: SegTree<S>) {
    IsPow2(t.size) && t.n <= t.size && |t.data| == 2 * t.size
  }

  /** Cell i holds the combination of its two children. */
  ghost predicate Combined<S>(m: Monoid<S>, data: seq<S>, i: int) {
    1 <= i && 2 * i + 1 < |data| && data[i] == m.op(data[2 * i], data[2 * i + 1])
  }

  /** Every internal cell is the combination of its two children, and the
      padding leaves past n hold the identity. */
  ghost predicate Valid<S>(m: Monoid<S>, t: SegTree<S>) {
    && Shape(t)
    && (forall i :: 1 <= i < t.size ==> Combined(m, t.data, i))
    && (forall i :: t.size + t.n <= i < 2 * t.size ==> t.data[i] == m.e)
  }

  /** The abstract sequence A[0..n). */
  function Leaves<S>(t: SegTree<S>): seq<S>
    requires Shape(t)
  {
    t.data[t.size..t.size + t.n]
  }

  /** The ordered fold op(A[l], ..., A[r-1]), combined left to right; the
      identity for an empty range. */
  ghost function RangeFold<S>(m: Monoid<S>, t: SegTree<S>, l: int, r: int): S
    requires Shape(t) && 0 <= l <= r <= t.n
    decreases r - l
  {
    if l == r then m.e else m.op(RangeFold(m, t, l, r - 1), Leaves(t)[r - 1])
  }

  /** The ordered fold of the leaf cells at positions [a, b), padding
      included; the tree's internal cells are spans of this kind. */
  ghost function Span<S>(m: Monoid<S>, t: SegTree<S>, a: int, b: int): S
    requires Shape(t) && 0 <= a <= b <= t.size
    decreases b - a
  {
    if a == b then m.e else m.op(Span(m, t, a, b - 1), t.data[t.size + b - 1])
  }

  /** Splitting a span at any inner point. */
  lemma {:induction false} SpanSplit<S(!new)>(m: Monoid<S>, t: SegTree<S>, a: int, mid: int, b: int)
    requires IsMonoid(m) && Shape(t) && 0 <= a <= mid <= b <= t.size
    ensures Span(m, t, a, b) == m.op(Span(m, t, a, mid), Span(m, t, mid, b))
    decreases b - mid
  {
    if mid < b {
      SpanSplit(m, t, a, mid, b - 1);
      var x := t.data[t.size + b - 1];
      calc {
        Span(m, t, a, b);
        m.op(Span(m, t, a, b - 1), x);
        m.op(m.op(Span(m, t, a, mid), Span(m, t, mid, b - 1)), x);
        m.op(Span(m, t, a, mid), m.op(Span(m, t, mid, b - 1), x));
      }
    }
  }

  /** A span of one leaf cell is that cell. */
  lemma SpanSingle<S(!new)>(m: Monoid<S>, t: SegTree<S>, a: int)
    requires IsMonoid(m) && Shape(t) && 0 <= a < t.size
    ensures Span(m, t, a, a + 1) == t.data[t.size + a]
  {
  }

  /** Below n, a span is the fold of the abstract sequence. */
  lemma {:induction false} SpanLeaves<S(!new)>(m: Monoid<S>, t: SegTree<S>, l: int, r: int)
    requires IsMonoid(m) && Shape(t) && 0 <= l <= r <= t.n
    ensures Span(m, t, l, r) == RangeFold(m, t, l, r)
    decreases r - l
  {
    if l < r {
      SpanLeaves(m, t, l, r - 1);
    }
  }

  /** Past n the leaf cells are identities, so spanning them adds nothing. */
  lemma {:induction false} SpanPadding<S(!new)>(m: Monoid<S>, t: SegTree<S>, l: int, r: int)
    requires IsMonoid(m) && Valid(m, t) && 0 <= l <= t.n <= r <= t.size
    ensures Span(m, t, l, r) == RangeFold(m, t, l, t.n)
    decreases r
  {
    if r == t.n {
      SpanLeaves(m, t, l, r);
    } else {
      SpanPadding(m, t, l, r - 1);
      assert t.data[t.size + r - 1] == m.e;
    }
  }

  // ---------------------------------------------------------------------
  // Levels of the tree.  Height h counts up from the leaves (h = 0); the
  // cells of height h are Base(h) .. 2*Base(h) - 1 with Base(h) = size / 2^h,
  // and a cursor c of height h stands at leaf position Start(c, h), which
  // is (c - Base(h)) * 2^h.  Cell c of height h covers the leaf positions
  // [Start(c, h), Start(c + 1, h)).

  ghost function Height<S>(t: SegTree<S>): nat {
    Log2(t.size)
  }

  ghost function Base<S>(t: SegTree<S>, h: nat): nat
    requires h <= Height(t)
  {
    Pow2(Height(t) - h)
  }

  /** The leaf position where cursor c of height h stands: the leftmost leaf
      below it. */
  ghost function Start<S>(t: SegTree<S>, c: int, h: nat): int
    decreases h
  {
    if h == 0 then c - t.size else Start(t, 2 * c, h - 1)
  }

  /** Base(0) == size, and the next level up has half as many cells. */
  lemma LevelFacts<S>(t: SegTree<S>, h: nat)
    requires Shape(t) && h <= Height(t)
    ensures t.size == Pow2(Height(t))
    ensures Base(t, 0) == t.size
    ensures h < Height(t) ==> Base(t, h) == 2 * Base(t, h + 1)
    ensures Base(t, h) >= 1
  {
    IsPow2Log(t.size);
  }

  /** The start of a cursor moves by one cell width per index. */
  lemma {:induction false} StartNext<S>(t: SegTree<S>, c: int, h: nat)
    ensures Start(t, c + 1, h) == Start(t, c, h) + Pow2(h)
    decreases h
  {
    if h > 0 {
      StartNext(t, 2 * c, h - 1);
      StartNext(t, 2 * c + 1, h - 1);
    }
  }

  lemma {:induction false} StartMonotone<S>(t: SegTree<S>, c: int, d: int, h: nat)
    requires c <= d
    ensures Start(t, c, h) <= Start(t, d, h)
    decreases d - c
  {
    if c < d {
      StartMonotone(t, c, d - 1, h);
      StartNext(t, d - 1, h);
    }
  }

  /** The first cell of every level starts at leaf 0; the end of every level
      is leaf position size. */
  lemma {:induction false} StartEnds<S>(t: SegTree<S>, h: nat)
    requires Shape(t) && h <= Height(t)
    ensures Start(t, Base(t, h), h) == 0
    ensures Start(t, 2 * Base(t, h), h) == t.size
    decreases h
  {
    LevelFacts(t, h);
    if h > 0 {
      LevelFacts(t, h - 1);
      StartEnds(t, h - 1);
    }
  }

  /** Halving an even cursor moves it one level up without moving its start. */
  lemma StartHalve<S>(t: SegTree<S>, c: int, h: nat)
    requires c % 2 == 0
    ensures Start(t, c / 2, h + 1) == Start(t, c, h)
  {
    assert 2 * (c / 2) == c;
  }

  /** A cell of height h covers 2^h leaf positions, all inside [0, size). */
  lemma NodeSpan<S>(t: SegTree<S>, j: int, h: nat)
    requires Shape(t) && h <= Height(t) && Base(t, h) <= j < 2 * Base(t, h)
    ensures 1 <= j < 2 * t.size
    ensures 0 <= Start(t, j, h)
    ensures Start(t, j + 1, h) == Start(t, j, h) + Pow2(h) <= t.size
  {
    LevelFacts(t, h);
    Pow2Monotone(Height(t) - h, Height(t));
    StartEnds(t, h);
    StartNext(t, j, h);
    StartMonotone(t, Base(t, h), j, h);
    StartMonotone(t, j + 1, 2 * Base(t, h), h);
  }

  /** The two children of cell j split its span in the middle. */
  lemma ChildStarts<S>(t: SegTree<S>, j: int, h: nat)
    requires 1 <= h
    ensures Start(t, 2 * j, h - 1) == Start(t, j, h)
    ensures Start(t, 2 * j + 2, h - 1) == Start(t, j + 1, h)
    ensures Start(t, 2 * j + 1, h - 1) == Start(t, 2 * j, h - 1) + Pow2(h - 1)
  {
    StartNext(t, 2 * j, h - 1);
  }

  /** Cells of height h >= 1 are internal, and their children have height h - 1. */
  lemma ChildLevel<S>(t: SegTree<S>, j: int, h: nat)
    requires Shape(t) && 1 <= h <= Height(t) && Base(t, h) <= j < 2 * Base(t, h)
    ensures 1 <= j < t.size
    ensures Base(t, h - 1) == 2 * Base(t, h)
  {
    LevelFacts(t, h);
    LevelFacts(t, h - 1);
    Pow2Monotone(Height(t) - h + 1, Height(t));
  }

  /** Cell j of height h holds the fold of the leaf cells it covers. */
  lemma {:induction false} NodeValue<S(!new)>(m: Monoid<S>, t: SegTree<S>, j: int, h: nat)
    requires IsMonoid(m) && Valid(m, t)
    requires h <= Height(t) && Base(t, h) <= j < 2 * Base(t, h)
    ensures 1 <= j < 2 * t.size
    ensures 0 <= Start(t, j, h) <= Start(t, j + 1, h) <= t.size
    ensures t.data[j] == Span(m, t, Start(t, j, h), Start(t, j + 1, h))
    decreases h
  {
    NodeSpan(t, j, h);
    if h == 0 {
      LevelFacts(t, 0);
      SpanSingle(m, t, j - t.size);
    } else {
      ChildLevel(t, j, h);
      ChildStarts(t, j, h);
      var a, mid, b := Start(t, j, h), Start(t, 2 * j + 1, h - 1), Start(t, j + 1, h);
      NodeValue(m, t, 2 * j, h - 1);
      NodeValue(m, t, 2 * j + 1, h - 1);
      assert t.data[2 * j] == Span(m, t, a, mid);
      assert t.data[2 * j + 1] == Span(m, t, mid, b);
      SpanSplit(m, t, a, mid, b);
      assert Combined(m, t.data, j);
    }
  }

  /** Appending the cell at a left cursor to a running left fold. */
  lemma AbsorbLeft<S(!new)>(m: Monoid<S>, t: SegTree<S>, l: int, j: int, h: nat, acc: S)
    requires IsMonoid(m) && Valid(m, t)
    requires h <= Height(t) && Base(t, h) <= j < 2 * Base(t, h)
    requires 0 <= l <= Start(t, j, h) <= t.size
    requires acc == Span(m, t, l, Start(t, j, h))
    ensures 1 <= j < 2 * t.size
    ensures Start(t, j + 1, h) == Start(t, j, h) + Pow2(h) <= t.size
    ensures m.op(acc, t.data[j]) == Span(m, t, l, Start(t, j + 1, h))
  {
    NodeSpan(t, j, h);
    NodeValue(m, t, j, h);
    SpanSplit(m, t, l, Start(t, j, h), Start(t, j + 1, h));
  }

  /** Prepending the cell at a right cursor to a running right fold. */
  lemma AbsorbRight<S(!new)>(m: Monoid<S>, t: SegTree<S>, j: int, h: nat, r: int, acc: S)
    requires IsMonoid(m) && Valid(m, t)
    requires h <= Height(t) && Base(t, h) <= j < 2 * Base(t, h)
    requires 0 <= Start(t, j + 1, h) <= r <= t.size
    requires acc == Span(m, t, Start(t, j + 1, h), r)
    ensures 1 <= j < 2 * t.size
    ensures 0 <= Start(t, j, h) && Start(t, j + 1, h) == Start(t, j, h) + Pow2(h)
    ensures m.op(t.data[j], acc) == Span(m, t, Start(t, j, h), r)
  {
    NodeSpan(t, j, h);
    NodeValue(m, t, j, h);
    SpanSplit(m, t, Start(t, j, h), Start(t, j + 1, h), r);
  }

  // ---------------------------------------------------------------------
  // Operations

  /** The constructor: size becomes the least power of two >= n and every
      cell holds the identity. */
  method New<S(!new)>(m: Monoid<S>, n: nat) returns (t: SegTree<S>)
    requires IsMonoid(m)
    ensures Valid(m, t) && t.n == n
    ensures forall k: nat :: Pow2(k) >= n ==> t.size <= Pow2(k)
    ensures Leaves(t) == seq(n, _ => m.e)
  {
    var size := 1;
    ghost var j := 0;
    while size < n
      invariant size == Pow2(j)
      invariant j == 0 || Pow2(j - 1) < n
    {
      size := size * 2;
      j := j + 1;
    }
    forall k: nat | Pow2(k) >= n
      ensures size <= Pow2(k)
    {
      if k < j {
        Pow2Monotone(k, j - 1);
      } else {
        Pow2Monotone(j, k);
      }
    }
    Pow2IsPow2(j);
    t := SegTree(n, size, seq(2 * size, _ => m.e));
  }

  /** Whether node i is a proper ancestor of cell k. */
  predicate StrictAncestor(i: int, k: int)
    decreases if k < 0 then 0 else k
  {
    k >= 2 && (k / 2 == i || StrictAncestor(i, k / 2))
  }

  /** A proper ancestor of a cell has a smaller index. */
  lemma {:induction false} AncestorBelow(i: int, k: int)
    requires StrictAncestor(i, k)
    ensures 1 <= i < k
    decreases if k < 0 then 0 else k
  {
    if k / 2 != i {
      AncestorBelow(i, k / 2);
    }
  }

  /** Point assignment A[p] := x, then recomputing every ancestor; a
      position outside [0, n) leaves the tree unchanged. */
  method Set<S(!new)>(m: Monoid<S>, t: SegTree<S>, p: int, x: S) returns (t': SegTree<S>)
    requires Valid(m, t)
    ensures Valid(m, t') && t'.n == t.n && t'.size == t.size
    ensures 0 <= p < t.n ==> Leaves(t') == Leaves(t)[p := x]
    ensures 0 <= p < t.n ==> Get(m, t', p) == x
    ensures forall q :: q != p ==> Get(m, t', q) == Get(m, t, q)
    ensures !(0 <= p < t.n) ==> t' == t
  {
    if p < 0 || p >= t.n {
      return t;
    }
    var k := p + t.size;
    var data := t.data[k := x];
    forall i | 1 <= i < t.size && !StrictAncestor(i, k)
      ensures Combined(m, data, i)
    {
      assert Combined(m, t.data, i);
    }
    while k >= 2
      invariant 1 <= k < 2 * t.size
      invariant |data| == 2 * t.size
      invariant forall i :: t.size <= i < 2 * t.size ==> data[i] == if i == p + t.size then x else t.data[i]
      invariant forall i :: 1 <= i < t.size && !StrictAncestor(i, k) ==> Combined(m, data, i)
    {
      ghost var child := k;
      k := k / 2;
      data := data[k := m.op(data[2 * k], data[2 * k + 1])];
      forall i | 1 <= i < t.size && !StrictAncestor(i, k)
        ensures Combined(m, data, i)
      {
        if i != k {
          assert !StrictAncestor(i, child);
        }
      }
    }
    t' := SegTree(t.n, t.size, data);
    assert Leaves(t') == Leaves(t)[p := x];
  }

  /** A[p], or the identity for a position outside [0, n). */
  function Get<S>(m: Monoid<S>, t: SegTree<S>, p: int): (r: S)
    requires Shape(t)
    ensures 0 <= p < t.n ==> r == Leaves(t)[p]
    ensures !(0 <= p < t.n) ==> r == m.e
  {
    if p < 0 || p >= t.n then m.e else t.data[p + t.size]
  }

  /** The fold of A over the half-open range [l, r); the identity for an
      empty range and for a range outside [0, n). */
  method Prod<S(!new)>(m: Monoid<S>, t: SegTree<S>, l: int, r: int) returns (res: S)
    requires IsMonoid(m) && Valid(m, t)
    ensures 0 <= l <= r <= t.n ==> res == RangeFold(m, t, l, r)
    ensures !(0 <= l <= r <= t.n) ==> res == m.e
  {
    if l < 0 || r < l || t.n < r {
      return m.e;
    }
    var vl, vr := m.e, m.e;
    var lo, hi := l + t.size, r + t.size;
    ghost var h: nat := 0;
    ghost var posL, posR := l, r;
    LevelFacts(t, 0);
    while lo < hi
      invariant ProdInv(m, t, l, r, lo, hi, h, vl, vr, posL, posR)
      decreases hi - lo
    {
      ghost var lo0, hi0, vl0, vr0, posL0, posR0 := lo, hi, vl, vr, posL, posR;
      ProdCursors(m, t, l, r, lo, hi, h, vl, vr, posL, posR);
      if lo % 2 == 1 {
        vl := m.op(vl, t.data[lo]);
        posL := posL + Pow2(h);
        lo := lo + 1;
      }
      if hi % 2 == 1 {
        hi := hi - 1;
        vr := m.op(t.data[hi], vr);
        posR := posR - Pow2(h);
      }
      ProdStep(m, t, l, r, h, lo0, hi0, vl0, vr0, posL0, posR0, lo, hi, vl, vr, posL, posR);
      lo := lo / 2;
      hi := hi / 2;
      h := h + 1;
    }
    SpanSplit(m, t, l, posL, r);
    SpanLeaves(m, t, l, r);
    res := m.op(vl, vr);
  }

  /** The loop invariant of Prod: vl folds the leaves [l, posL), vr folds
      [posR, r), and while the cursors lo < hi of height h have not met they
      stand at posL and posR. */
  ghost predicate ProdInv<S>(m: Monoid<S>, t: SegTree<S>, l: int, r: int, lo: int, hi: int, h: nat,
                             vl: S, vr: S, posL: int, posR: int)
  {
    && Shape(t) && 0 <= l <= posL <= posR <= r <= t.size
    && vl == Span(m, t, l, posL) && vr == Span(m, t, posR, r)
    && lo <= hi
    && (lo < hi ==> h <= Height(t) && Base(t, h) <= lo && hi <= 2 * Base(t, h))
    && (lo < hi ==> posL == Start(t, lo, h) && posR == Start(t, hi, h))
    && (lo == hi ==> posL == posR)
  }

  /** While they have not met, both cursors of Prod index cells of the tree. */
  lemma ProdCursors<S>(m: Monoid<S>, t: SegTree<S>, l: int, r: int, lo: int, hi: int, h: nat,
                       vl: S, vr: S, posL: int, posR: int)
    requires ProdInv(m, t, l, r, lo, hi, h, vl, vr, posL, posR) && lo < hi
    ensures 1 <= lo < hi <= |t.data|
  {
    NodeSpan(t, lo, h);
    NodeSpan(t, hi - 1, h);
  }

  /** One iteration of Prod's loop: absorbing the odd cursors and halving
      keeps ProdInv, and brings the cursors closer. */
  lemma ProdStep<S(!new)>(m: Monoid<S>, t: SegTree<S>, l: int, r: int, h: nat,
                          lo: int, hi: int, vl: S, vr: S, posL: int, posR: int,
                          lo1: int, hi1: int, vl1: S, vr1: S, posL1: int, posR1: int)
    requires IsMonoid(m) && Valid(m, t)
    requires ProdInv(m, t, l, r, lo, hi, h, vl, vr, posL, posR) && lo < hi
    requires 1 <= lo < hi <= |t.data|
    requires lo % 2 == 1 ==> lo1 == lo + 1 && vl1 == m.op(vl, t.data[lo]) && posL1 == posL + Pow2(h)
    requires lo % 2 == 0 ==> lo1 == lo && vl1 == vl && posL1 == posL
    requires hi % 2 == 1 ==> hi1 == hi - 1 && vr1 == m.op(t.data[hi1], vr) && posR1 == posR - Pow2(h)
    requires hi % 2 == 0 ==> hi1 == hi && vr1 == vr && posR1 == posR
    ensures ProdInv(m, t, l, r, lo1 / 2, hi1 / 2, h + 1, vl1, vr1, posL1, posR1)
    ensures hi1 / 2 - lo1 / 2 < hi - lo
  {
    if lo % 2 == 1 {
      AbsorbLeft(m, t, l, lo, h, vl);
    }
    if hi % 2 == 1 {
      AbsorbRight(m, t, hi1, h, r, vr);
    }
    ProdRebuild(m, t, l, r, h, lo, hi, lo1, hi1, vl1, vr1, posL1, posR1);
  }

  /** The index half of ProdStep: after absorbing, the cursors are even and
      halving them keeps their leaf positions. */
  lemma ProdRebuild<S>(m: Monoid<S>, t: SegTree<S>, l: int, r: int, h: nat, lo: int, hi: int,
                       lo1: int, hi1: int, vl1: S, vr1: S, posL1: int, posR1: int)
    requires Shape(t) && h <= Height(t) && Base(t, h) <= lo < hi <= 2 * Base(t, h)
    requires lo1 == lo + lo % 2 && hi1 == hi - hi % 2
    requires 0 <= l <= posL1 <= t.size && 0 <= posR1 <= r <= t.size
    requires posL1 == Start(t, lo1, h) && posR1 == Start(t, hi1, h)
    requires vl1 == Span(m, t, l, posL1) && vr1 == Span(m, t, posR1, r)
    ensures ProdInv(m, t, l, r, lo1 / 2, hi1 / 2, h + 1, vl1, vr1, posL1, posR1)
    ensures hi1 / 2 - lo1 / 2 < hi - lo
  {
    assert lo1 <= hi1;
    StartMonotone(t, lo1, hi1, h);
    ProdHalve(t, lo1, hi1, h);
  }

  /** The halving step of Prod's two cursors: both are even here, so they
      keep their leaf positions one level up, and they meet exactly when
      those positions meet. */
  lemma ProdHalve<S>(t: SegTree<S>, lo: int, hi: int, h: nat)
    requires Shape(t) && h <= Height(t) && Base(t, h) <= lo <= hi <= 2 * Base(t, h)
    requires lo % 2 == 0 && hi % 2 == 0
    ensures lo / 2 <= hi / 2
    ensures lo / 2 == hi / 2 ==> Start(t, lo, h) == Start(t, hi, h)
    ensures lo / 2 < hi / 2 ==> h + 1 <= Height(t)
    ensures lo / 2 < hi / 2 ==> Base(t, h + 1) <= lo / 2 && hi / 2 <= 2 * Base(t, h + 1)
    ensures lo / 2 < hi / 2 ==> Start(t, lo / 2, h + 1) == Start(t, lo, h) && Start(t, hi / 2, h + 1) == Start(t, hi, h)
  {
    LevelFacts(t, h);
    if lo / 2 < hi / 2 {
      if h == Height(t) {
        assert false;
      }
      StartHalve(t, lo, h);
      StartHalve(t, hi, h);
    }
  }

  /** Splitting a range fold at any inner point (the associativity the
      two-cursor walk of Prod depends on). */
  lemma RangeFoldSplit<S(!new)>(m: Monoid<S>, t: SegTree<S>, l: int, mid: int, r: int)
    requires IsMonoid(m) && Shape(t)
    requires 0 <= l <= mid <= r <= t.n
    ensures RangeFold(m, t, l, r) == m.op(RangeFold(m, t, l, mid), RangeFold(m, t, mid, r))
  {
    SpanSplit(m, t, l, mid, r);
    SpanLeaves(m, t, l, r);
    SpanLeaves(m, t, l, mid);
    SpanLeaves(m, t, mid, r);
  }
}
