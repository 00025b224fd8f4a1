/** The two binary searches of cpp/SegmentTree.cpp, max_right and min_left.

    Both walk the implicit tree: they climb from a leaf while the current
    cell is a left child (max_right) or a right child (min_left), absorb
    whole cells into a running fold while the predicate still holds, and when
    it first fails descend into that cell to find the boundary leaf.

    The contracts need only f(e); monotonicity of f is what makes the answer
    the unique boundary (MaxRightMaximal, MinLeftMinimal).
 */
module SegmentTreeSearch {
  import opened Bits
  import opened Monoids
  import opened SegmentTree

  /** A power of two strictly above 2^b and at most 2^(b+1) is 2^(b+1). */
  lemma Pow2Above(b: nat, x: int)
    requires IsPow2(x) && Pow2(b) < x <= 2 * Pow2(b)
    ensures x == 2 * Pow2(b)
  {
    IsPow2Log(x);
    Pow2Gap(b, Log2(x));
  }

  /** A power of two in [2^b, 2^(b+1)) is 2^b. */
  lemma Pow2Within(b: nat, x: int)
    requires IsPow2(x) && Pow2(b) <= x < 2 * Pow2(b)
    ensures x == Pow2(b)
  {
    IsPow2Log(x);
    var j := Log2(x);
    if j > b {
      Pow2Monotone(b + 1, j);
    } else if j < b {
      Pow2Monotone(j + 1, b);
    }
  }

  /** Cell j of height h is a cell of the tree. */
  ghost predicate IsCell<S>(t: SegTree<S>, j: int, h: nat) {
    Shape(t) && h <= Height(t) && Base(t, h) <= j < 2 * Base(t, h)
  }

  // ---------------------------------------------------------------------
  // max_right

  /** Climbing phase of max_right: sum folds [l, Start(i, h)) and satisfies f. */
  ghost predicate RightClimb<S>(m: Monoid<S>, t: SegTree<S>, f: S -> bool, l: int, i: int, h: nat, sum: S) {
    && IsCell(t, i, h)
    && 0 <= l <= Start(t, i, h) <= t.size
    && sum == Span(m, t, l, Start(t, i, h))
    && f(sum)
  }

  /** Descending phase of max_right: as RightClimb, and absorbing cell i
      would make f fail. */
  ghost predicate RightDescend<S>(m: Monoid<S>, t: SegTree<S>, f: S -> bool, l: int, i: int, h: nat, sum: S)
  {
    && RightClimb(m, t, f, l, i, h, sum)
    && 1 <= i < |t.data|
    && !f(m.op(sum, t.data[i]))
  }

  lemma RightCell<S(!new)>(m: Monoid<S>, t: SegTree<S>, f: S -> bool, l: int, i: int, h: nat, sum: S)
    requires IsMonoid(m) && Valid(m, t) && RightClimb(m, t, f, l, i, h, sum)
    ensures 1 <= i < |t.data|
    ensures Start(t, i, h) < Start(t, i + 1, h) <= t.size
    ensures m.op(sum, t.data[i]) == Span(m, t, l, Start(t, i + 1, h))
  {
    NodeSpan(t, i, h);
    AbsorbLeft(m, t, l, i, h, sum);
  }

  /** A left child (even cell) is replaced by its parent: same start. */
  lemma RightClimbUp<S>(m: Monoid<S>, t: SegTree<S>, f: S -> bool, l: int, i: int, h: nat, sum: S)
    requires RightClimb(m, t, f, l, i, h, sum) && i % 2 == 0
    ensures RightClimb(m, t, f, l, i / 2, h + 1, sum)
    ensures Start(t, i / 2, h + 1) == Start(t, i, h) && i / 2 < i
  {
    LevelFacts(t, h);
    if h == Height(t) {
      assert false;
    }
    StartHalve(t, i, h);
  }

  /** After absorbing cell i into sum1, either i + 1 is a power of two and
      every leaf from l on has been absorbed, or cell i + 1 is the next one to
      try and lies further right. */
  lemma RightNext<S>(m: Monoid<S>, t: SegTree<S>, f: S -> bool, l: int, i: int, h: nat, sum: S,
                      i1: int, sum1: S)
    requires RightClimb(m, t, f, l, i, h, sum) && Start(t, i, h) < Start(t, i + 1, h) <= t.size
    requires i1 == i + 1 && sum1 == Span(m, t, l, Start(t, i1, h)) && f(sum1)
    ensures LowBit(i1) == i1 ==> Start(t, i1, h) == t.size
    ensures LowBit(i1) != i1 ==> RightClimb(m, t, f, l, i1, h, sum1) && Start(t, i1, h) > Start(t, i, h)
  {
    StartEnds(t, h);
    LowBitSelf(i1);
    if IsPow2(i1) {
      Pow2Above(Height(t) - h, i1);
    } else {
      Pow2IsPow2(Height(t) - h + 1);
      assert 2 * Base(t, h) == Pow2(Height(t) - h + 1);
    }
  }

  /** A cell above the leaves has two children and a height of at least one. */
  lemma Children<S>(t: SegTree<S>, i: int, h: nat)
    requires IsCell(t, i, h) && i < t.size
    ensures h >= 1 && 1 <= i && 2 * i + 1 < |t.data|
    ensures IsCell(t, 2 * i, h - 1) && IsCell(t, 2 * i + 1, h - 1)
    ensures Start(t, 2 * i, h - 1) == Start(t, i, h)
    ensures Start(t, 2 * i + 2, h - 1) == Start(t, i + 1, h)
    ensures Start(t, i, h) <= Start(t, 2 * i + 1, h - 1) <= Start(t, i + 1, h) <= t.size
  {
    LevelFacts(t, h);
    if h == 0 {
      assert false;
    }
    ChildLevel(t, i, h);
    ChildStarts(t, i, h);
    NodeSpan(t, i, h);
    NodeSpan(t, 2 * i, h - 1);
    NodeSpan(t, 2 * i + 1, h - 1);
  }

  /** One step of the descent of max_right: absorb the left child when f
      still holds and go right, otherwise go left. */
  lemma RightDown<S(!new)>(m: Monoid<S>, t: SegTree<S>, f: S -> bool, l: int, i: int, h: nat, sum: S,
                           i1: int, sum1: S)
    requires IsMonoid(m) && Valid(m, t) && RightDescend(m, t, f, l, i, h, sum)
    requires 1 <= h && 1 <= i < t.size && 2 * i + 1 < |t.data|
    requires f(m.op(sum, t.data[2 * i])) ==> i1 == 2 * i + 1 && sum1 == m.op(sum, t.data[2 * i])
    requires !f(m.op(sum, t.data[2 * i])) ==> i1 == 2 * i && sum1 == sum
    ensures RightDescend(m, t, f, l, i1, h - 1, sum1)
  {
    Children(t, i, h);
    var a, b := t.data[2 * i], t.data[2 * i + 1];
    if f(m.op(sum, a)) {
      AbsorbLeft(m, t, l, 2 * i, h - 1, sum);
      assert Combined(m, t.data, i);
      assert m.op(sum1, b) == m.op(sum, m.op(a, b)) == m.op(sum, t.data[i]);
    } else {
    }
  }

  /** The descent of max_right ends at a leaf before n where f first fails. */
  lemma RightLeaf<S(!new)>(m: Monoid<S>, t: SegTree<S>, f: S -> bool, l: int, i: int, h: nat, sum: S, p: int)
    requires IsMonoid(m) && Valid(m, t) && RightDescend(m, t, f, l, i, h, sum) && i >= t.size
    requires p == i - t.size
    ensures l <= p < t.n
    ensures f(RangeFold(m, t, l, p))
    ensures !f(RangeFold(m, t, l, p + 1))
  {
    LevelFacts(t, h);
    if h > 0 {
      ChildLevel(t, i, h);
      assert false;
    }
    assert sum == Span(m, t, l, p) && f(sum);
    assert Span(m, t, l, p + 1) == m.op(sum, t.data[i]);
    if p >= t.n {
      assert false;
    }
    SpanLeaves(m, t, l, p);
    SpanLeaves(m, t, l, p + 1);
  }

  /** The inner climb of max_right: while the cell is a left child, move to
      its parent, which starts at the same leaf. */
  method RightRise<S>(m: Monoid<S>, t: SegTree<S>, f: S -> bool, l: int, i: int, ghost h: nat, sum: S)
    returns (i': int, ghost h': nat)
    requires RightClimb(m, t, f, l, i, h, sum)
    ensures RightClimb(m, t, f, l, i', h', sum)
    ensures i' % 2 == 1 && Start(t, i', h') == Start(t, i, h)
  {
    i', h' := i, h;
    while i' % 2 == 0
      invariant RightClimb(m, t, f, l, i', h', sum) && Start(t, i', h') == Start(t, i, h)
      decreases i'
    {
      RightClimbUp(m, t, f, l, i', h', sum);
      i' := i' / 2;
      h' := h' + 1;
    }
  }

  /** One step of the descent of max_right on data: the right child after
      absorbing the left one when f still holds, else the left child. */
  method RightPick<S(!new)>(m: Monoid<S>, t: SegTree<S>, f: S -> bool, l: int, i: int, ghost h: nat, sum: S)
    returns (i1: int, sum1: S)
    requires IsMonoid(m) && Valid(m, t) && RightDescend(m, t, f, l, i, h, sum)
    requires 1 <= h && 1 <= i < t.size && 2 * i + 1 < |t.data|
    ensures RightDescend(m, t, f, l, i1, h - 1, sum1)
  {
    i1, sum1 := 2 * i, sum;
    if f(m.op(sum, t.data[2 * i])) {
      i1, sum1 := 2 * i + 1, m.op(sum, t.data[2 * i]);
    }
    RightDown(m, t, f, l, i, h, sum, i1, sum1);
  }

  /** The descent of max_right: from a cell whose absorption makes f fail,
      down to the leaf where f first fails. */
  method RightSink<S(!new)>(m: Monoid<S>, t: SegTree<S>, f: S -> bool, l: int, i: int, ghost h: nat, sum: S)
    returns (res: int)
    requires IsMonoid(m) && Valid(m, t) && RightDescend(m, t, f, l, i, h, sum)
    ensures l <= res < t.n
    ensures f(RangeFold(m, t, l, res))
    ensures !f(RangeFold(m, t, l, res + 1))
  {
    var j, acc := i, sum;
    ghost var k := h;
    while j < t.size
      invariant RightDescend(m, t, f, l, j, k, acc)
      decreases k
    {
      Children(t, j, k);
      j, acc := RightPick(m, t, f, l, j, k, acc);
      k := k - 1;
    }
    res := j - t.size;
    RightLeaf(m, t, f, l, j, k, acc, res);
  }

  /** One round of the do-while of max_right: climb, then either descend to
      the answer or absorb the cell and move one cell right. */
  method RightRound<S(!new)>(m: Monoid<S>, t: SegTree<S>, f: S -> bool, l: int, i: int, ghost h: nat, sum: S)
    returns (done: bool, res: int, i': int, ghost h': nat, sum': S)
    requires IsMonoid(m) && Valid(m, t) && RightClimb(m, t, f, l, i, h, sum) && l <= t.n
    ensures done ==> l <= res <= t.n && f(RangeFold(m, t, l, res))
    ensures done ==> res < t.n ==> !f(RangeFold(m, t, l, res + 1))
    ensures !done ==> RightClimb(m, t, f, l, i', h', sum') && Start(t, i', h') > Start(t, i, h)
  {
    var j;
    ghost var k;
    j, k := RightRise(m, t, f, l, i, h, sum);
    RightCell(m, t, f, l, j, k, sum);
    if !f(m.op(sum, t.data[j])) {
      res := RightSink(m, t, f, l, j, k, sum);
      return true, res, j, k, sum;
    }
    var j1, sum1 := j + 1, m.op(sum, t.data[j]);
    RightNext(m, t, f, l, j, k, sum, j1, sum1);
    if LowBit(j1) == j1 {
      SpanPadding(m, t, l, t.size);
      return true, t.n, j1, k, sum1;
    }
    return false, 0, j1, k, sum1;
  }

  /** max_right(f, l): for l == n, n whatever f is; otherwise, with f(e)
      true, a boundary r in [l, n] such
      that f holds of the fold of [l, r) and fails of the fold of [l, r + 1)
      unless r == n. */
  method MaxRight<S(!new)>(m: Monoid<S>, t: SegTree<S>, f: S -> bool, l: int) returns (res: int)
    requires IsMonoid(m) && Valid(m, t)
    requires l < t.n ==> f(m.e)
    requires 0 <= l <= t.n
    ensures l <= res <= t.n
    ensures l == t.n ==> res == t.n
    ensures l < t.n ==> f(RangeFold(m, t, l, res))
    ensures res < t.n ==> !f(RangeFold(m, t, l, res + 1))
  {
    if l == t.n {
      return t.n;
    }
    var i := l + t.size;
    var sum := m.e;
    ghost var h: nat := 0;
    LevelFacts(t, 0);
    while true
      invariant RightClimb(m, t, f, l, i, h, sum)
      decreases t.size - Start(t, i, h)
    {
      var done;
      done, res, i, h, sum := RightRound(m, t, f, l, i, h, sum);
      if done {
        return;
      }
    }
  }

  /** f holds on a prefix of the right ends and fails on the rest. */
  ghost predicate MonotoneRight<S>(m: Monoid<S>, t: SegTree<S>, f: S -> bool, l: int)
    requires Shape(t) && 0 <= l <= t.n
  {
    forall a, b :: l <= a <= b <= t.n && f(RangeFold(m, t, l, b)) ==> f(RangeFold(m, t, l, a))
  }

  /** For a monotone f the boundary described by MaxRight's contract is the
      largest r with f(op(A[l..r))). */
  lemma MaxRightMaximal<S>(m: Monoid<S>, t: SegTree<S>, f: S -> bool, l: int, r: int)
    requires Shape(t) && 0 <= l <= r <= t.n && MonotoneRight(m, t, f, l)
    requires f(RangeFold(m, t, l, r))
    requires r < t.n ==> !f(RangeFold(m, t, l, r + 1))
    ensures forall r' :: l <= r' <= t.n ==> (f(RangeFold(m, t, l, r')) <==> r' <= r)
  {
  }

  // ---------------------------------------------------------------------
  // min_left

  /** Loop head of min_left: cursor i of height h stands after the cells not
      yet absorbed; sum folds [Start(i, h), r) and satisfies f. */
  ghost predicate LeftHead<S>(m: Monoid<S>, t: SegTree<S>, f: S -> bool, r: int, i: int, h: nat, sum: S) {
    && Shape(t) && h <= Height(t) && Base(t, h) < i <= 2 * Base(t, h)
    && 0 < Start(t, i, h) <= r <= t.n
    && sum == Span(m, t, Start(t, i, h), r)
    && f(sum)
  }

  /** Climbing phase of min_left: cell i is the candidate; sum folds the
      leaves from its end to r. */
  ghost predicate LeftClimb<S>(m: Monoid<S>, t: SegTree<S>, f: S -> bool, r: int, i: int, h: nat, sum: S) {
    && IsCell(t, i, h)
    && 0 <= Start(t, i + 1, h) <= r <= t.n
    && sum == Span(m, t, Start(t, i + 1, h), r)
    && f(sum)
  }

  ghost predicate LeftDescend<S>(m: Monoid<S>, t: SegTree<S>, f: S -> bool, r: int, i: int, h: nat, sum: S) {
    && LeftClimb(m, t, f, r, i, h, sum)
    && 1 <= i < |t.data|
    && !f(m.op(t.data[i], sum))
  }

  lemma LeftStep<S>(m: Monoid<S>, t: SegTree<S>, f: S -> bool, r: int, i: int, h: nat, sum: S)
    requires LeftHead(m, t, f, r, i, h, sum)
    ensures LeftClimb(m, t, f, r, i - 1, h, sum)
  {
  }

  lemma LeftCell<S(!new)>(m: Monoid<S>, t: SegTree<S>, f: S -> bool, r: int, i: int, h: nat, sum: S)
    requires IsMonoid(m) && Valid(m, t) && LeftClimb(m, t, f, r, i, h, sum)
    ensures 1 <= i < |t.data|
    ensures 0 <= Start(t, i, h) < Start(t, i + 1, h)
    ensures m.op(t.data[i], sum) == Span(m, t, Start(t, i, h), r)
  {
    LevelFacts(t, h);
    AbsorbRight(m, t, i, h, r, sum);
  }

  /** A right child (odd cell other than the root) is replaced by its
      parent: same end. */
  lemma LeftClimbUp<S>(m: Monoid<S>, t: SegTree<S>, f: S -> bool, r: int, i: int, h: nat, sum: S)
    requires LeftClimb(m, t, f, r, i, h, sum) && i > 1 && i % 2 == 1
    ensures LeftClimb(m, t, f, r, i / 2, h + 1, sum)
    ensures i / 2 < i && Start(t, i / 2 + 1, h + 1) == Start(t, i + 1, h)
  {
    LevelFacts(t, h);
    if h == Height(t) {
      assert false;
    }
    StartHalve(t, i + 1, h);
    assert (i + 1) / 2 == i / 2 + 1;
  }

  /** After absorbing cell i into sum1, either i is a power of two and
      everything before r has been absorbed, or the loop goes round again
      from cursor i, further left. */
  lemma LeftNext<S(!new)>(m: Monoid<S>, t: SegTree<S>, f: S -> bool, r: int, i: int, h: nat, sum: S, sum1: S)
    requires IsMonoid(m) && LeftClimb(m, t, f, r, i, h, sum) && 0 <= Start(t, i, h) < Start(t, i + 1, h)
    requires sum1 == Span(m, t, Start(t, i, h), r) && f(sum1)
    ensures LowBit(i) == i ==> f(RangeFold(m, t, 0, r))
    ensures LowBit(i) != i ==> LeftHead(m, t, f, r, i, h, sum1)
  {
    LevelFacts(t, h);
    StartEnds(t, h);
    LowBitSelf(i);
    if IsPow2(i) {
      Pow2Within(Height(t) - h, i);
      SpanLeaves(m, t, 0, r);
    } else {
      Pow2IsPow2(Height(t) - h);
      StartMonotone(t, Base(t, h) + 1, i, h);
      StartNext(t, Base(t, h), h);
    }
  }

  /** One step of the descent of min_left: absorb the right child when f
      still holds and go left, otherwise go right. */
  lemma LeftDown<S(!new)>(m: Monoid<S>, t: SegTree<S>, f: S -> bool, r: int, i: int, h: nat, sum: S,
                          i1: int, sum1: S)
    requires IsMonoid(m) && Valid(m, t) && LeftDescend(m, t, f, r, i, h, sum)
    requires 1 <= h && 1 <= i < t.size && 2 * i + 1 < |t.data|
    requires f(m.op(t.data[2 * i + 1], sum)) ==> i1 == 2 * i && sum1 == m.op(t.data[2 * i + 1], sum)
    requires !f(m.op(t.data[2 * i + 1], sum)) ==> i1 == 2 * i + 1 && sum1 == sum
    ensures LeftDescend(m, t, f, r, i1, h - 1, sum1)
  {
    Children(t, i, h);
    var a, b := t.data[2 * i], t.data[2 * i + 1];
    if f(m.op(b, sum)) {
      assert 2 * i + 2 == (2 * i + 1) + 1;
      AbsorbRight(m, t, 2 * i + 1, h - 1, r, sum);
      assert Combined(m, t.data, i);
      assert m.op(a, sum1) == m.op(m.op(a, b), sum) == m.op(t.data[i], sum);
    } else {
      assert 2 * i + 2 == (2 * i + 1) + 1;
    }
  }

  /** The descent of min_left ends at the leaf just before the boundary. */
  lemma LeftLeaf<S(!new)>(m: Monoid<S>, t: SegTree<S>, f: S -> bool, r: int, i: int, h: nat, sum: S, q: int)
    requires IsMonoid(m) && Valid(m, t) && LeftDescend(m, t, f, r, i, h, sum) && i >= t.size
    requires q == i + 1 - t.size
    ensures 0 < q <= r
    ensures f(RangeFold(m, t, q, r))
    ensures !f(RangeFold(m, t, q - 1, r))
  {
    LevelFacts(t, h);
    if h > 0 {
      ChildLevel(t, i, h);
      assert false;
    }
    LeftLeafFold(m, t, f, r, i - t.size, sum);
  }

  /** The leaf fold at the end of the descent of min_left: f holds from
      leaf p + 1 to r but fails once leaf p joins. */
  lemma LeftLeafFold<S(!new)>(m: Monoid<S>, t: SegTree<S>, f: S -> bool, r: int, p: int, sum: S)
    requires IsMonoid(m) && Valid(m, t) && 0 <= p < r <= t.n
    requires sum == Span(m, t, p + 1, r) && f(sum) && !f(m.op(t.data[t.size + p], sum))
    ensures f(RangeFold(m, t, p + 1, r))
    ensures !f(RangeFold(m, t, p, r))
  {
    SpanSplit(m, t, p, p + 1, r);
    SpanSingle(m, t, p);
    SpanLeaves(m, t, p, r);
    SpanLeaves(m, t, p + 1, r);
  }

  /** The inner climb of min_left: while the cell is a right child other
      than the root, move to its parent, which ends at the same leaf. */
  method LeftRise<S>(m: Monoid<S>, t: SegTree<S>, f: S -> bool, r: int, i: int, ghost h: nat, sum: S)
    returns (i': int, ghost h': nat)
    requires LeftClimb(m, t, f, r, i, h, sum)
    ensures LeftClimb(m, t, f, r, i', h', sum)
    ensures !(i' > 1 && i' % 2 == 1) && Start(t, i' + 1, h') == Start(t, i + 1, h)
  {
    i', h' := i, h;
    while i' > 1 && i' % 2 == 1
      invariant LeftClimb(m, t, f, r, i', h', sum) && Start(t, i' + 1, h') == Start(t, i + 1, h)
      decreases i'
    {
      LeftClimbUp(m, t, f, r, i', h', sum);
      i' := i' / 2;
      h' := h' + 1;
    }
  }

  /** One step of the descent of min_left on data: the left child after
      absorbing the right one when f still holds, else the right child. */
  method LeftPick<S(!new)>(m: Monoid<S>, t: SegTree<S>, f: S -> bool, r: int, i: int, ghost h: nat, sum: S)
    returns (i1: int, sum1: S)
    requires IsMonoid(m) && Valid(m, t) && LeftDescend(m, t, f, r, i, h, sum)
    requires 1 <= h && 1 <= i < t.size && 2 * i + 1 < |t.data|
    ensures LeftDescend(m, t, f, r, i1, h - 1, sum1)
  {
    i1, sum1 := 2 * i + 1, sum;
    if f(m.op(t.data[2 * i + 1], sum)) {
      i1, sum1 := 2 * i, m.op(t.data[2 * i + 1], sum);
    }
    LeftDown(m, t, f, r, i, h, sum, i1, sum1);
  }

  /** The descent of min_left: from a cell whose absorption makes f fail,
      down to the leaf just before the boundary. */
  method LeftSink<S(!new)>(m: Monoid<S>, t: SegTree<S>, f: S -> bool, r: int, i: int, ghost h: nat, sum: S)
    returns (res: int)
    requires IsMonoid(m) && Valid(m, t) && LeftDescend(m, t, f, r, i, h, sum)
    ensures 0 < res <= r
    ensures f(RangeFold(m, t, res, r))
    ensures !f(RangeFold(m, t, res - 1, r))
  {
    var j, acc := i, sum;
    ghost var k := h;
    while j < t.size
      invariant LeftDescend(m, t, f, r, j, k, acc)
      decreases k
    {
      Children(t, j, k);
      j, acc := LeftPick(m, t, f, r, j, k, acc);
      k := k - 1;
    }
    res := j + 1 - t.size;
    LeftLeaf(m, t, f, r, j, k, acc, res);
  }

  /** One round of the do-while of min_left: step left, climb, then either
      descend to the answer or absorb the cell. */
  method LeftRound<S(!new)>(m: Monoid<S>, t: SegTree<S>, f: S -> bool, r: int, i: int, ghost h: nat, sum: S)
    returns (done: bool, res: int, i': int, ghost h': nat, sum': S)
    requires IsMonoid(m) && Valid(m, t) && LeftHead(m, t, f, r, i, h, sum)
    ensures done ==> 0 <= res <= r && f(RangeFold(m, t, res, r))
    ensures done ==> res > 0 ==> !f(RangeFold(m, t, res - 1, r))
    ensures !done ==> LeftHead(m, t, f, r, i', h', sum') && Start(t, i', h') < Start(t, i, h)
  {
    LeftStep(m, t, f, r, i, h, sum);
    var j;
    ghost var k;
    j, k := LeftRise(m, t, f, r, i - 1, h, sum);
    LeftCell(m, t, f, r, j, k, sum);
    if !f(m.op(t.data[j], sum)) {
      res := LeftSink(m, t, f, r, j, k, sum);
      return true, res, j, k, sum;
    }
    var sum1 := m.op(t.data[j], sum);
    LeftNext(m, t, f, r, j, k, sum, sum1);
    if LowBit(j) == j {
      return true, 0, j, k, sum1;
    }
    return false, 0, j, k, sum1;
  }

  /** min_left(f, r): r == 0 gives 0 whatever f is; otherwise, with f(e)
      true and r == -1 standing for n, a boundary l in [0, r] such that f
      holds of the fold of [l, r) and fails of the fold of [l - 1, r)
      unless l == 0. */
  method MinLeft<S(!new)>(m: Monoid<S>, t: SegTree<S>, f: S -> bool, r: int) returns (res: int)
    requires IsMonoid(m) && Valid(m, t)
    requires r != 0 ==> f(m.e)
    requires r == -1 || 0 <= r <= t.n
    ensures var r' := if r == -1 then t.n else r;
      && 0 <= res <= r'
      && (r != 0 ==> f(RangeFold(m, t, res, r')))
      && (res > 0 ==> !f(RangeFold(m, t, res - 1, r')))
    ensures (if r == -1 then t.n else r) == 0 ==> res == 0
  {
    if r == 0 {
      return 0;
    }
    var r' := r;
    if r' == -1 {
      r' := t.n;
    }
    if r' == 0 {
      return 0;
    }
    var i := r' + t.size;
    var sum := m.e;
    ghost var h: nat := 0;
    LevelFacts(t, 0);
    while true
      invariant LeftHead(m, t, f, r', i, h, sum)
      decreases Start(t, i, h)
    {
      var done;
      done, res, i, h, sum := LeftRound(m, t, f, r', i, h, sum);
      if done {
        return;
      }
    }
  }

  /** f holds on a suffix of the left ends and fails on the rest. */
  ghost predicate MonotoneLeft<S>(m: Monoid<S>, t: SegTree<S>, f: S -> bool, r: int)
    requires Shape(t) && 0 <= r <= t.n
  {
    forall a, b :: 0 <= a <= b <= r && f(RangeFold(m, t, a, r)) ==> f(RangeFold(m, t, b, r))
  }

  /** For a monotone f the boundary described by MinLeft's contract is the
      smallest l with f(op(A[l..r))). */
  lemma MinLeftMinimal<S>(m: Monoid<S>, t: SegTree<S>, f: S -> bool, l: int, r: int)
    requires Shape(t) && 0 <= l <= r <= t.n && MonotoneLeft(m, t, f, r)
    requires f(RangeFold(m, t, l, r))
    requires l > 0 ==> !f(RangeFold(m, t, l - 1, r))
    ensures forall l' :: 0 <= l' <= r ==> (f(RangeFold(m, t, l', r)) <==> l <= l')
  {
  }
}
