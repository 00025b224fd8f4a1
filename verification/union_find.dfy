/** The disjoint-set forest of cpp/UnionFind.cpp: union by size and path
    compression over one encoded array `parent_or_size`, where a negative
    entry marks a root and holds minus the size of its component, and a
    non-negative entry is the index of the parent.

    The structure is a value: every operation that compresses paths returns
    the new forest next to its result.  The roots reached from each vertex
    are given by `Find`, a ghost reference definition that follows parents a
    bounded number of steps; `Valid` says that bound is always enough and
    that the sizes stored at the roots are right.
 */
module UnionFind {

  datatype Forest = Forest(n: nat, parentOrSize: seq<int>)

  /** Every entry is a root marker or the index of a vertex. */
  predicate InRange(ps: seq<int>) {
    forall i :: 0 <= i < |ps| ==> ps[i] < |ps|
  }

  /** The vertex reached from x by following parents at most k times. */
  ghost function Climb(ps: seq<int>, x: int, k: nat): (r: int)
    requires InRange(ps) && 0 <= x < |ps|
    ensures 0 <= r < |ps|
    decreases k
  {
    if k == 0 || ps[x] < 0 then x else Climb(ps, ps[x], k - 1)
  }

  /** The root of x: following parents |ps| times is enough in a valid forest. */
  ghost function Find(ps: seq<int>, x: int): (r: int)
    requires InRange(ps) && 0 <= x < |ps|
  {
    Climb(ps, x, |ps|)
  }

  function NonRootMark(v: int): nat {
    if v >= 0 then 1 else 0
  }

  /** The size an entry stores: the component size at a root, else 0. */
  function SizeMark(v: int): int {
    if v < 0 then -v else 0
  }

  /** The number of non-root entries among the first k. */
  ghost function NonRoots(ps: seq<int>, k: int): (c: nat)
    requires 0 <= k <= |ps|
    ensures c <= k
  {
    if k == 0 then 0 else NonRoots(ps, k - 1) + NonRootMark(ps[k - 1])
  }

  /** The sum of the component sizes stored at the roots among the first k. */
  ghost function SizeSum(ps: seq<int>, k: int): int
    requires 0 <= k <= |ps|
  {
    if k == 0 then 0 else SizeSum(ps, k - 1) + SizeMark(ps[k - 1])
  }

  /** Every vertex reaches a root within as many steps as there are
      non-root vertices: the parent links have no cycle. */
  ghost predicate Acyclic(ps: seq<int>) {
    && InRange(ps)
    && forall x :: 0 <= x < |ps| ==> ps[Climb(ps, x, NonRoots(ps, |ps|))] < 0
  }

  /** The vertices whose root is r. */
  ghost function Component(ps: seq<int>, r: int): set<int>
    requires InRange(ps)
  {
    set y | 0 <= y < |ps| && Find(ps, y) == r
  }

  /** The stored size of every root is the size of its component. */
  ghost predicate SizesRight(ps: seq<int>)
    requires InRange(ps)
  {
    forall r :: 0 <= r < |ps| && ps[r] < 0 ==> -ps[r] == |Component(ps, r)|
  }

  ghost predicate Valid(f: Forest) {
    && |f.parentOrSize| == f.n
    && Acyclic(f.parentOrSize)
    && SizesRight(f.parentOrSize)
    && SizeSum(f.parentOrSize, f.n) == f.n
  }

  /** Whether x and y are in the same component. */
  ghost predicate Same(f: Forest, x: int, y: int)
    requires Valid(f) && 0 <= x < f.n && 0 <= y < f.n
  {
    Find(f.parentOrSize, x) == Find(f.parentOrSize, y)
  }

  /** Two forests describe the same partition with the same stored sizes. */
  ghost predicate SamePartition(f: Forest, g: Forest)
    requires Valid(f) && Valid(g)
  {
    && f.n == g.n
    && (forall y :: 0 <= y < f.n ==> Find(g.parentOrSize, y) == Find(f.parentOrSize, y))
    && (forall r :: 0 <= r < f.n ==> (g.parentOrSize[r] < 0 <==> f.parentOrSize[r] < 0))
    && (forall r :: 0 <= r < f.n && f.parentOrSize[r] < 0 ==> g.parentOrSize[r] == f.parentOrSize[r])
  }

  // ---------------------------------------------------------------------
  // Facts about Climb

  /** Once a root is reached, further steps stay there. */
  lemma {:induction false} ClimbStable(ps: seq<int>, x: int, k: nat, k': nat)
    requires InRange(ps) && 0 <= x < |ps| && k <= k'
    requires ps[Climb(ps, x, k)] < 0
    ensures Climb(ps, x, k') == Climb(ps, x, k)
    decreases k
  {
    if k > 0 && ps[x] >= 0 {
      ClimbStable(ps, ps[x], k - 1, k' - 1);
    }
  }

  /** In an acyclic forest Find(x) is a root, reached within NonRoots steps. */
  lemma {:induction false} FindRoot(ps: seq<int>, x: int)
    requires Acyclic(ps) && 0 <= x < |ps|
    ensures Find(ps, x) == Climb(ps, x, NonRoots(ps, |ps|))
    ensures ps[Find(ps, x)] < 0
  {
    ClimbStable(ps, x, NonRoots(ps, |ps|), |ps|);
  }

  /** Roots are their own roots. */
  lemma {:induction false} FindOfRoot(ps: seq<int>, r: int)
    requires InRange(ps) && 0 <= r < |ps| && ps[r] < 0
    ensures Find(ps, r) == r
  {
  }

  // ---------------------------------------------------------------------
  // Counting lemmas

  /** Two arrays with the same root entries have the same counts. */
  lemma {:induction false} CountsAgree(ps: seq<int>, qs: seq<int>, k: int)
    requires |ps| == |qs| && 0 <= k <= |ps|
    requires forall i :: 0 <= i < k ==> (ps[i] < 0 <==> qs[i] < 0)
    requires forall i :: 0 <= i < k && ps[i] < 0 ==> qs[i] == ps[i]
    ensures NonRoots(qs, k) == NonRoots(ps, k)
    ensures SizeSum(qs, k) == SizeSum(ps, k)
  {
    if k > 0 {
      CountsAgree(ps, qs, k - 1);
    }
  }

  /** The counts after changing one entry. */
  lemma {:induction false} CountsUpdate(ps: seq<int>, i: int, v: int, k: int)
    requires 0 <= i < k <= |ps|
    ensures NonRoots(ps[i := v], k) == NonRoots(ps, k) - NonRootMark(ps[i]) + NonRootMark(v)
    ensures SizeSum(ps[i := v], k) == SizeSum(ps, k) - SizeMark(ps[i]) + SizeMark(v)
  {
    if i < k - 1 {
      CountsUpdate(ps, i, v, k - 1);
    } else {
      CountsAgree(ps, ps[i := v], k - 1);
    }
  }

  // ---------------------------------------------------------------------
  // Path compression

  /** qs differs from ps only in non-root entries that now point straight at
      the root ps reaches from them within k steps. */
  ghost predicate Redirected(ps: seq<int>, qs: seq<int>, k: nat)
    requires InRange(ps)
  {
    && |qs| == |ps|
    && (forall y :: 0 <= y < |ps| && ps[y] < 0 ==> qs[y] == ps[y])
    && (forall y :: 0 <= y < |ps| && ps[y] >= 0 && qs[y] != ps[y] ==>
          ps[Climb(ps, y, k)] < 0 && qs[y] == Climb(ps, y, k))
  }

  lemma {:induction false} RedirectedMore(ps: seq<int>, qs: seq<int>, k: nat)
    requires InRange(ps) && Redirected(ps, qs, k)
    ensures Redirected(ps, qs, k + 1)
  {
    forall y | 0 <= y < |ps| && ps[y] >= 0 && qs[y] != ps[y]
      ensures ps[Climb(ps, y, k + 1)] < 0 && qs[y] == Climb(ps, y, k + 1)
    {
      ClimbStable(ps, y, k, k + 1);
    }
  }

  /** Following the redirected links reaches the same roots, within no more
      steps. */
  lemma {:induction false} RedirectedClimb(ps: seq<int>, qs: seq<int>, K: nat, y: int, k: nat)
    requires InRange(ps) && Redirected(ps, qs, K) && InRange(qs)
    requires 0 <= y < |ps| && ps[Climb(ps, y, k)] < 0
    ensures Climb(qs, y, k) == Climb(ps, y, k)
    decreases k
  {
    if ps[y] >= 0 {
      assert k >= 1;
      if qs[y] == ps[y] {
        RedirectedClimb(ps, qs, K, ps[y], k - 1);
      } else {
        var r := Climb(ps, y, K);
        assert ps[r] < 0 && qs[r] == ps[r];
        ClimbStable(ps, y, k, K + k);
        ClimbStable(ps, y, K, K + k);
      }
    }
  }

  lemma {:induction false} RedirectedShape(ps: seq<int>, qs: seq<int>, K: nat)
    requires InRange(ps) && Redirected(ps, qs, K)
    ensures InRange(qs)
    ensures forall y :: 0 <= y < |ps| ==> (qs[y] < 0 <==> ps[y] < 0)
    ensures forall y :: 0 <= y < |ps| && ps[y] < 0 ==> qs[y] == ps[y]
  {
    forall y | 0 <= y < |qs|
      ensures qs[y] < |qs| && (qs[y] < 0 <==> ps[y] < 0)
    {
      if qs[y] != ps[y] {
        assert qs[y] == Climb(ps, y, K);
      }
    }
  }

  lemma {:induction false} RedirectedFind(ps: seq<int>, qs: seq<int>, y: int)
    requires Acyclic(ps) && Redirected(ps, qs, NonRoots(ps, |ps|)) && InRange(qs)
    requires NonRoots(qs, |qs|) == NonRoots(ps, |ps|)
    requires 0 <= y < |ps|
    ensures Find(qs, y) == Find(ps, y)
    ensures qs[Climb(qs, y, NonRoots(qs, |qs|))] < 0
  {
    var K := NonRoots(ps, |ps|);
    FindRoot(ps, y);
    RedirectedClimb(ps, qs, K, y, K);
    assert qs[Climb(ps, y, K)] < 0;
    ClimbStable(qs, y, K, |qs|);
  }

  /** Two acyclic arrays with the same roots everywhere have the same
      components. */
  lemma {:induction false} SameFindSizes(ps: seq<int>, qs: seq<int>)
    requires InRange(ps) && InRange(qs) && |ps| == |qs| && SizesRight(ps)
    requires forall y :: 0 <= y < |ps| ==> Find(qs, y) == Find(ps, y)
    requires forall y :: 0 <= y < |ps| && ps[y] < 0 ==> qs[y] == ps[y]
    requires forall y :: 0 <= y < |ps| ==> (qs[y] < 0 <==> ps[y] < 0)
    ensures SizesRight(qs)
  {
    forall r | 0 <= r < |qs| && qs[r] < 0
      ensures -qs[r] == |Component(qs, r)|
    {
      assert Component(qs, r) == Component(ps, r);
    }
  }

  lemma {:induction false} RedirectedAcyclic(ps: seq<int>, qs: seq<int>)
    requires Acyclic(ps) && Redirected(ps, qs, NonRoots(ps, |ps|))
    ensures Acyclic(qs)
    ensures forall y :: 0 <= y < |ps| ==> Find(qs, y) == Find(ps, y)
    ensures forall y :: 0 <= y < |ps| ==> (qs[y] < 0 <==> ps[y] < 0)
    ensures forall y :: 0 <= y < |ps| && ps[y] < 0 ==> qs[y] == ps[y]
    ensures SizeSum(qs, |qs|) == SizeSum(ps, |ps|)
  {
    RedirectedShape(ps, qs, NonRoots(ps, |ps|));
    CountsAgree(ps, qs, |ps|);
    forall y | 0 <= y < |ps|
      ensures Find(qs, y) == Find(ps, y)
      ensures qs[Climb(qs, y, NonRoots(qs, |qs|))] < 0
    {
      RedirectedFind(ps, qs, y);
    }
  }

  /** Redirecting non-roots to their roots keeps the forest valid and keeps
      every vertex's root and every stored size. */
  lemma {:induction false} RedirectedValid(f: Forest, qs: seq<int>)
    requires Valid(f) && Redirected(f.parentOrSize, qs, NonRoots(f.parentOrSize, f.n))
    ensures Valid(Forest(f.n, qs))
    ensures SamePartition(f, Forest(f.n, qs))
  {
    RedirectedAcyclic(f.parentOrSize, qs);
    SameFindSizes(f.parentOrSize, qs);
  }

  /** Only vertices on the path from x (its first k steps) differ. */
  ghost predicate OnlyPathChanged(ps: seq<int>, qs: seq<int>, x: int, k: nat)
    requires InRange(ps) && 0 <= x < |ps| && |qs| == |ps|
  {
    forall y :: 0 <= y < |ps| && qs[y] != ps[y] ==> exists j :: 0 <= j < k && y == Climb(ps, x, j)
  }

  /** Every non-root vertex on the path from x now holds r. */
  ghost predicate PathPointsAt(ps: seq<int>, qs: seq<int>, x: int, k: nat, r: int)
    requires InRange(ps) && 0 <= x < |ps| && |qs| == |ps|
  {
    forall j :: 0 <= j <= k && ps[Climb(ps, x, j)] >= 0 ==> qs[Climb(ps, x, j)] == r
  }

  /** The recursion of root(a): find the root of x and point every vertex
      on the way straight at it, and nothing else.  k bounds the steps to
      the root. */
  function Compress(ps: seq<int>, x: int, ghost k: nat): (res: (int, seq<int>))
    requires InRange(ps) && 0 <= x < |ps| && ps[Climb(ps, x, k)] < 0
    ensures res.0 == Climb(ps, x, k)
    ensures Redirected(ps, res.1, k)
    ensures OnlyPathChanged(ps, res.1, x, k)
    ensures PathPointsAt(ps, res.1, x, k, res.0)
    decreases k
  {
    if ps[x] < 0 then (x, ps)
    else
      var sub := Compress(ps, ps[x], k - 1);
      RedirectedMore(ps, sub.1, k - 1);
      CompressStep(ps, x, k, sub.0, sub.1);
      (sub.0, sub.1[x := sub.0])
  }

  /** The path facts of Compress carry over from the parent of x to x. */
  lemma {:induction false} CompressStep(ps: seq<int>, x: int, k: nat, r: int, qs: seq<int>)
    requires InRange(ps) && 0 <= x < |ps| && ps[x] >= 0 && k > 0 && |qs| == |ps|
    requires OnlyPathChanged(ps, qs, ps[x], k - 1)
    requires PathPointsAt(ps, qs, ps[x], k - 1, r)
    ensures OnlyPathChanged(ps, qs[x := r], x, k)
    ensures PathPointsAt(ps, qs[x := r], x, k, r)
  {
    var qs' := qs[x := r];
    assert Climb(ps, x, 0) == x;
    forall y | 0 <= y < |ps| && qs'[y] != ps[y]
      ensures exists j :: 0 <= j < k && y == Climb(ps, x, j)
    {
      if y != x {
        var j :| 0 <= j < k - 1 && y == Climb(ps, ps[x], j);
        assert y == Climb(ps, x, j + 1);
      }
    }
    forall j | 0 <= j <= k && ps[Climb(ps, x, j)] >= 0
      ensures qs'[Climb(ps, x, j)] == r
    {
      if j > 0 {
        assert Climb(ps, x, j) == Climb(ps, ps[x], j - 1);
      }
    }
  }

  // ---------------------------------------------------------------------
  // Operations

  /** The constructor: n singleton components. */
  function New(n: nat): (f: Forest)
    ensures Valid(f) && f.n == n
    ensures forall x :: 0 <= x < n ==> Find(f.parentOrSize, x) == x
    ensures forall x :: 0 <= x < n ==> |Component(f.parentOrSize, x)| == 1
  {
    var ps := seq(n, _ => -1);
    assert forall x :: 0 <= x < n ==> Find(ps, x) == x;
    assert forall x :: 0 <= x < n ==> Component(ps, x) == {x};
    NewCounts(ps, n);
    Forest(n, ps)
  }

  lemma {:induction false} NewCounts(ps: seq<int>, k: int)
    requires 0 <= k <= |ps| && forall i :: 0 <= i < |ps| ==> ps[i] == -1
    ensures NonRoots(ps, k) == 0 && SizeSum(ps, k) == k
  {
    if k > 0 {
      NewCounts(ps, k - 1);
    }
  }

  /** root(a): the root of a, with the path from a compressed; -1 and the
      forest unchanged for a vertex out of range. */
  function Root(f: Forest, a: int): (res: (int, Forest))
    requires Valid(f)
    ensures Valid(res.1) && SamePartition(f, res.1)
    ensures 0 <= a < f.n ==> res.0 == Find(f.parentOrSize, a) && f.parentOrSize[res.0] < 0
    ensures !(0 <= a < f.n) ==> res == (-1, f)
  {
    if a < 0 || f.n <= a then (-1, f)
    else
      var ps := f.parentOrSize;
      FindRoot(ps, a);
      var c := Compress(ps, a, NonRoots(ps, f.n));
      RedirectedValid(f, c.1);
      (c.0, Forest(f.n, c.1))
  }

  // ---------------------------------------------------------------------
  // Linking two roots

  /** The array after root s is hung below root r, r absorbing s's size. */
  function LinkArray(ps: seq<int>, r: int, s: int): (qs: seq<int>)
    requires 0 <= r < |ps| && 0 <= s < |ps|
  {
    ps[r := ps[r] + ps[s]][s := r]
  }

  /** After the link, a vertex that reached s reaches r one step later and
      every other vertex reaches the root it reached before. */
  lemma {:induction false} LinkClimb(ps: seq<int>, r: int, s: int, y: int, k: nat)
    requires InRange(ps) && 0 <= r < |ps| && 0 <= s < |ps| && r != s
    requires ps[r] < 0 && ps[s] < 0
    requires 0 <= y < |ps| && ps[Climb(ps, y, k)] < 0
    ensures InRange(LinkArray(ps, r, s))
    ensures Climb(ps, y, k) != s ==> Climb(LinkArray(ps, r, s), y, k) == Climb(ps, y, k)
    ensures Climb(ps, y, k) == s ==> Climb(LinkArray(ps, r, s), y, k + 1) == r
    decreases k
  {
    var qs := LinkArray(ps, r, s);
    if ps[y] >= 0 {
      assert y != r && y != s && qs[y] == ps[y];
      LinkClimb(ps, r, s, ps[y], k - 1);
    } else if y == s {
      assert qs[s] == r && qs[r] < 0;
      assert Climb(qs, y, k + 1) == Climb(qs, r, k);
    }
  }

  lemma {:induction false} LinkCounts(ps: seq<int>, r: int, s: int)
    requires 0 <= r < |ps| && 0 <= s < |ps| && r != s
    requires ps[r] < 0 && ps[s] < 0
    ensures NonRoots(LinkArray(ps, r, s), |ps|) == NonRoots(ps, |ps|) + 1
    ensures SizeSum(LinkArray(ps, r, s), |ps|) == SizeSum(ps, |ps|)
  {
    var n := |ps|;
    var v := ps[r] + ps[s];
    var ps1 := ps[r := v];
    CountsUpdate(ps, r, v, n);
    assert NonRootMark(v) == 0 && SizeMark(v) == SizeMark(ps[r]) + SizeMark(ps[s]);
    assert ps1[s] == ps[s];
    CountsUpdate(ps1, s, r, n);
    assert NonRootMark(r) == 1 && SizeMark(r) == 0;
  }

  /** The roots after the link: s's component now has root r. */
  lemma {:induction false} LinkFind(ps: seq<int>, r: int, s: int, y: int)
    requires Acyclic(ps) && 0 <= r < |ps| && 0 <= s < |ps| && r != s
    requires ps[r] < 0 && ps[s] < 0 && 0 <= y < |ps|
    ensures InRange(LinkArray(ps, r, s))
    ensures Find(LinkArray(ps, r, s), y) == if Find(ps, y) == s then r else Find(ps, y)
    ensures LinkArray(ps, r, s)[Climb(LinkArray(ps, r, s), y, NonRoots(LinkArray(ps, r, s), |ps|))] < 0
  {
    var qs := LinkArray(ps, r, s);
    var K := NonRoots(ps, |ps|);
    FindRoot(ps, y);
    LinkCounts(ps, r, s);
    LinkClimb(ps, r, s, y, K);
    if Find(ps, y) == s {
      assert qs[r] < 0;
      ClimbStable(qs, y, K + 1, |qs|);
    } else {
      assert qs[Find(ps, y)] < 0;
      ClimbStable(qs, y, K, K + 1);
      ClimbStable(qs, y, K, |qs|);
    }
  }

  lemma {:induction false} LinkComponents(ps: seq<int>, r: int, s: int)
    requires Acyclic(ps) && 0 <= r < |ps| && 0 <= s < |ps| && r != s
    requires ps[r] < 0 && ps[s] < 0
    requires forall y :: 0 <= y < |ps| ==>
      Find(LinkArray(ps, r, s), y) == if Find(ps, y) == s then r else Find(ps, y)
    requires SizesRight(ps)
    ensures SizesRight(LinkArray(ps, r, s))
  {
    var qs := LinkArray(ps, r, s);
    FindOfRoot(ps, r);
    FindOfRoot(ps, s);
    forall t | 0 <= t < |qs| && qs[t] < 0
      ensures -qs[t] == |Component(qs, t)|
    {
      if t == r {
        var A, B := Component(ps, r), Component(ps, s);
        assert Component(qs, r) == A + B;
        assert A * B == {};
      } else {
        assert t != s && ps[t] < 0;
        assert Component(qs, t) == Component(ps, t);
      }
    }
  }

  /** Hanging root s below root r keeps the forest valid; the vertices of s's
      component now have root r, the others keep theirs. */
  lemma {:induction false} LinkValid(f: Forest, r: int, s: int)
    requires Valid(f) && 0 <= r < f.n && 0 <= s < f.n && r != s
    requires f.parentOrSize[r] < 0 && f.parentOrSize[s] < 0
    ensures Valid(Forest(f.n, LinkArray(f.parentOrSize, r, s)))
    ensures forall y :: 0 <= y < f.n ==>
      Find(LinkArray(f.parentOrSize, r, s), y) ==
        if Find(f.parentOrSize, y) == s then r else Find(f.parentOrSize, y)
  {
    var ps := f.parentOrSize;
    var qs := LinkArray(ps, r, s);
    LinkCounts(ps, r, s);
    forall y | 0 <= y < |ps|
      ensures Find(qs, y) == if Find(ps, y) == s then r else Find(ps, y)
      ensures qs[Climb(qs, y, NonRoots(qs, |qs|))] < 0
    {
      LinkFind(ps, r, s, y);
    }
    assert InRange(qs) by { LinkFind(ps, r, s, r); }
    assert Acyclic(qs);
    LinkComponents(ps, r, s);
  }

  // ---------------------------------------------------------------------
  // Merge, same, size

  /** Every stored size is at least 1 and together they count every vertex. */
  lemma {:induction false} StoredSizes(f: Forest, r: int)
    requires Valid(f) && 0 <= r < f.n && f.parentOrSize[r] < 0
    ensures -f.parentOrSize[r] >= 1
    ensures SizeSum(f.parentOrSize, f.n) == f.n
  {
    FindOfRoot(f.parentOrSize, r);
    assert r in Component(f.parentOrSize, r);
  }

  lemma {:induction false} SamePartitionTrans(f: Forest, g: Forest, h: Forest)
    requires Valid(f) && Valid(g) && Valid(h)
    requires SamePartition(f, g) && SamePartition(g, h)
    ensures SamePartition(f, h)
  {
  }

  /** Two compressions in a row: the roots of a and b before both. */
  function RootPair(f: Forest, a: int, b: int): (res: (int, int, Forest))
    requires Valid(f) && 0 <= a < f.n && 0 <= b < f.n
    ensures Valid(res.2) && SamePartition(f, res.2)
    ensures res.0 == Find(f.parentOrSize, a) && res.1 == Find(f.parentOrSize, b)
    ensures res.2.parentOrSize[res.0] < 0 && res.2.parentOrSize[res.1] < 0
  {
    var (ra, f1) := Root(f, a);
    var (rb, f2) := Root(f1, b);
    SamePartitionTrans(f, f1, f2);
    (ra, rb, f2)
  }

  /** The size of the component of x, as stored at its root. */
  ghost function SizeOf(f: Forest, x: int): int
    requires Valid(f) && 0 <= x < f.n
  {
    FindRoot(f.parentOrSize, x);
    -f.parentOrSize[Find(f.parentOrSize, x)]
  }

  /** g is f with the components of a and b joined: a and b are together,
      two vertices are together exactly when they were, or one was with a
      and the other with b, and the size of the joined component is the sum
      of the two sizes (or the old size when a and b were already
      together). */
  ghost predicate Joined(f: Forest, g: Forest, a: int, b: int)
    requires Valid(f) && Valid(g) && g.n == f.n && 0 <= a < f.n && 0 <= b < f.n
  {
    && Same(g, a, b)
    && (forall x, y :: 0 <= x < f.n && 0 <= y < f.n ==>
          (Same(g, x, y) <==>
            Same(f, x, y) || (Same(f, x, a) && Same(f, y, b)) || (Same(f, x, b) && Same(f, y, a))))
    && SizeOf(g, a) == |Component(g.parentOrSize, Find(g.parentOrSize, a))|
    && SizeOf(g, a) == if Same(f, a, b) then SizeOf(f, a) else SizeOf(f, a) + SizeOf(f, b)
  }

  /** The root of the joined component: the root of the larger of the two
      components, the root of a on a tie. */
  ghost predicate LargerRootKept(f: Forest, g: Forest, a: int, b: int)
    requires Valid(f) && Valid(g) && g.n == f.n && 0 <= a < f.n && 0 <= b < f.n
  {
    Find(g.parentOrSize, a) ==
      if SizeOf(f, a) < SizeOf(f, b) then Find(f.parentOrSize, b) else Find(f.parentOrSize, a)
  }

  /** merge(a, b): joins the components of a and b, hanging the root of the
      smaller below the root of the larger (the root of a on a tie).  Out of
      range it does nothing; on two vertices already together it changes no
      root and no size. */
  function Merge(f: Forest, a: int, b: int): (g: Forest)
    requires Valid(f)
    ensures Valid(g) && g.n == f.n
    ensures !(0 <= a < f.n && 0 <= b < f.n) ==> g == f
    ensures 0 <= a < f.n && 0 <= b < f.n ==> Joined(f, g, a, b)
    ensures 0 <= a < f.n && 0 <= b < f.n && Same(f, a, b) ==> SamePartition(f, g)
    ensures 0 <= a < f.n && 0 <= b < f.n && !Same(f, a, b) ==> LargerRootKept(f, g, a, b)
  {
    if a < 0 || f.n <= a || b < 0 || f.n <= b then f
    else
      var (ra, rb, f2) := RootPair(f, a, b);
      if ra == rb then
        MergeSame(f, f2, a, b);
        f2
      else
        var big := if -f2.parentOrSize[ra] < -f2.parentOrSize[rb] then rb else ra;
        var small := if big == ra then rb else ra;
        LinkValid(f2, big, small);
        var g := Forest(f.n, LinkArray(f2.parentOrSize, big, small));
        MergeLinked(f, f2, g, a, b, ra, rb, big, small);
        g
  }

  lemma {:induction false} MergeSame(f: Forest, g: Forest, a: int, b: int)
    requires Valid(f) && Valid(g) && SamePartition(f, g)
    requires 0 <= a < f.n && 0 <= b < f.n && Same(f, a, b)
    ensures Joined(f, g, a, b)
  {
    FindRoot(f.parentOrSize, a);
  }

  lemma {:induction false} MergeLinked(f: Forest, f2: Forest, g: Forest, a: int, b: int, ra: int, rb: int, big: int, small: int)
    requires Valid(f) && Valid(f2) && SamePartition(f, f2) && Valid(g) && g.n == f.n
    requires 0 <= a < f.n && 0 <= b < f.n
    requires ra == Find(f.parentOrSize, a) && rb == Find(f.parentOrSize, b) && ra != rb
    requires f2.parentOrSize[ra] < 0 && f2.parentOrSize[rb] < 0
    requires big == (if -f2.parentOrSize[ra] < -f2.parentOrSize[rb] then rb else ra)
    requires small == (if big == ra then rb else ra)
    requires g.parentOrSize == LinkArray(f2.parentOrSize, big, small)
    requires forall y :: 0 <= y < f.n ==>
      Find(g.parentOrSize, y) == if Find(f2.parentOrSize, y) == small then big else Find(f2.parentOrSize, y)
    ensures Joined(f, g, a, b) && LargerRootKept(f, g, a, b)
  {
    var ps, qs := f.parentOrSize, g.parentOrSize;
    FindRoot(ps, a);
    FindRoot(ps, b);
    FindRoot(qs, a);
    assert Find(qs, a) == big && Find(qs, b) == big;
    assert SizeOf(g, a) == SizeOf(f, a) + SizeOf(f, b) by {
      assert qs[big] == f2.parentOrSize[big] + f2.parentOrSize[small];
      assert f2.parentOrSize[ra] == ps[ra] && f2.parentOrSize[rb] == ps[rb];
    }
    forall x, y | 0 <= x < f.n && 0 <= y < f.n
      ensures Same(g, x, y) <==>
        Same(f, x, y) || (Same(f, x, a) && Same(f, y, b)) || (Same(f, x, b) && Same(f, y, a))
    {
      assert Find(qs, x) == if Find(ps, x) == small then big else Find(ps, x);
      assert Find(qs, y) == if Find(ps, y) == small then big else Find(ps, y);
    }
  }

  /** same(a, b): whether a and b are in one component; false out of range. */
  function SameQuery(f: Forest, a: int, b: int): (res: (bool, Forest))
    requires Valid(f)
    ensures Valid(res.1) && SamePartition(f, res.1)
    ensures res.0 <==> 0 <= a < f.n && 0 <= b < f.n && Same(f, a, b)
  {
    if a < 0 || f.n <= a || b < 0 || f.n <= b then (false, f)
    else
      var (ra, rb, g) := RootPair(f, a, b);
      (ra == rb, g)
  }

  /** size(a): the number of vertices in a's component; 0 out of range. */
  function Size(f: Forest, a: int): (res: (int, Forest))
    requires Valid(f)
    ensures Valid(res.1) && SamePartition(f, res.1)
    ensures 0 <= a < f.n ==> res.0 == |Component(f.parentOrSize, Find(f.parentOrSize, a))| >= 1
    ensures !(0 <= a < f.n) ==> res.0 == 0
  {
    if a < 0 || f.n <= a then (0, f)
    else
      var (r, g) := Root(f, a);
      assert a in Component(f.parentOrSize, r);
      (-g.parentOrSize[r], g)
  }

  // ---------------------------------------------------------------------
  // Groups

  predicate Increasing(s: seq<int>) {
    forall i, j :: 0 <= i < j < |s| ==> s[i] < s[j]
  }

  /** No element is in two of the lists. */
  predicate PairwiseDisjoint(ss: seq<seq<int>>) {
    forall i, j, x :: 0 <= i < j < |ss| && x in ss[i] ==> x !in ss[j]
  }

  /** The vertices below k whose recorded root is r, in the order the second
      loop of groups() appends them. */
  function Members(roots: seq<int>, r: int, k: int): seq<int>
    requires 0 <= k <= |roots|
  {
    if k == 0 then []
    else Members(roots, r, k - 1) + (if roots[k - 1] == r then [k - 1] else [])
  }

  /** The members of r are exactly the vertices recorded with root r, in
      increasing order. */
  lemma {:induction false} MembersSpec(roots: seq<int>, r: int, k: int)
    requires 0 <= k <= |roots|
    ensures forall x :: x in Members(roots, r, k) <==> 0 <= x < k && roots[x] == r
    ensures Increasing(Members(roots, r, k))
  {
    if k > 0 {
      MembersSpec(roots, r, k - 1);
      var prefix := Members(roots, r, k - 1);
      var s := Members(roots, r, k);
      if roots[k - 1] == r {
        assert s == prefix + [k - 1];
        forall i, j | 0 <= i < j < |s|
          ensures s[i] < s[j]
        {
          assert s[i] == prefix[i] && prefix[i] in prefix;
          if j < |prefix| {
            assert s[j] == prefix[j];
          }
        }
      } else {
        assert s == prefix;
      }
    }
  }

  /** The lists that are not empty, in their order. */
  function NonEmpty(ss: seq<seq<int>>): (r: seq<seq<int>>)
    ensures forall g :: g in r <==> g in ss && |g| > 0
  {
    if |ss| == 0 then []
    else (if |ss[0]| > 0 then [ss[0]] else []) + NonEmpty(ss[1..])
  }

  lemma {:induction false} NonEmptyDisjoint(ss: seq<seq<int>>)
    requires PairwiseDisjoint(ss)
    ensures PairwiseDisjoint(NonEmpty(ss))
  {
    if |ss| > 0 {
      TailDisjoint(ss);
      NonEmptyDisjoint(ss[1..]);
      if |ss[0]| > 0 {
        ConsDisjoint(ss, NonEmpty(ss[1..]));
      }
    }
  }

  lemma {:induction false} TailDisjoint(ss: seq<seq<int>>)
    requires PairwiseDisjoint(ss) && |ss| > 0
    ensures PairwiseDisjoint(ss[1..])
  {
    var tail := ss[1..];
    forall i, j, x | 0 <= i < j < |tail| && x in tail[i]
      ensures x !in tail[j]
    {
      assert tail[i] == ss[i + 1] && tail[j] == ss[j + 1];
    }
  }

  /** Putting the first list in front of lists taken from the rest keeps
      them disjoint. */
  lemma {:induction false} ConsDisjoint(ss: seq<seq<int>>, rest: seq<seq<int>>)
    requires PairwiseDisjoint(ss) && |ss| > 0 && PairwiseDisjoint(rest)
    requires forall g :: g in rest ==> g in ss[1..]
    ensures PairwiseDisjoint([ss[0]] + rest)
  {
    var r := [ss[0]] + rest;
    forall i, j, x | 0 <= i < j < |r| && x in r[i]
      ensures x !in r[j]
    {
      assert r[j] == rest[j - 1];
      if i == 0 {
        assert rest[j - 1] in rest;
        var k :| 0 <= k < |ss| - 1 && ss[1..][k] == rest[j - 1];
        assert ss[k + 1] == r[j];
      } else {
        assert r[i] == rest[i - 1];
      }
    }
  }

  /** x is in one of the lists. */
  predicate Covered(ss: seq<seq<int>>, x: int) {
    exists i :: 0 <= i < |ss| && x in ss[i]
  }

  /** g is exactly one component of f. */
  ghost predicate IsComponent(f: Forest, g: seq<int>)
    requires Valid(f)
  {
    && |g| > 0
    && 0 <= g[0] < f.n
    && forall y :: y in g <==> 0 <= y < f.n && Same(f, g[0], y)
  }

  /** groups(): the components, each as an increasing list of its vertices;
      paths are compressed on the way. */
  method Groups(f: Forest) returns (groups: seq<seq<int>>, g: Forest)
    requires Valid(f)
    ensures Valid(g) && SamePartition(f, g)
    ensures forall i :: 0 <= i < |groups| ==> IsComponent(f, groups[i]) && Increasing(groups[i])
    ensures forall x :: 0 <= x < f.n ==> Covered(groups, x)
    ensures PairwiseDisjoint(groups)
  {
    var roots;
    roots, g := AllRoots(f);
    forall j | 0 <= j < f.n
      ensures 0 <= roots[j] < f.n
    {
      FindRoot(f.parentOrSize, j);
    }
    var lists := Bucket(roots);
    GroupsFacts(f, roots, lists);
    NonEmptyDisjoint(lists);
    groups := NonEmpty(lists);
    forall x | 0 <= x < f.n
      ensures Covered(groups, x)
    {
      assert lists[roots[x]] in groups;
    }
  }

  /** roots lists the roots of the first |roots| vertices. */
  ghost predicate RootsOf(f: Forest, roots: seq<int>)
    requires Valid(f)
  {
    && |roots| <= f.n
    && forall j :: 0 <= j < |roots| ==> roots[j] == Find(f.parentOrSize, j)
  }

  /** The first loop of groups(): the root of every vertex. */
  method AllRoots(f: Forest) returns (roots: seq<int>, g: Forest)
    requires Valid(f)
    ensures Valid(g) && SamePartition(f, g)
    ensures |roots| == f.n
    ensures forall j :: 0 <= j < f.n ==> roots[j] == Find(f.parentOrSize, j)
  {
    roots := [];
    g := f;
    while |roots| < f.n
      invariant Valid(g) && SamePartition(f, g) && RootsOf(f, roots)
      decreases f.n - |roots|
    {
      roots, g := NextRoot(f, g, roots);
    }
  }

  /** One step of the first loop of groups(). */
  method NextRoot(f: Forest, g: Forest, roots: seq<int>) returns (roots': seq<int>, g': Forest)
    requires Valid(f) && Valid(g) && SamePartition(f, g) && RootsOf(f, roots) && |roots| < f.n
    ensures Valid(g') && SamePartition(f, g') && RootsOf(f, roots') && |roots'| == |roots| + 1
  {
    var res := Root(g, |roots|);
    SamePartitionTrans(f, g, res.1);
    roots' := roots + [res.0];
    g' := res.1;
  }

  /** The second loop of groups(): vertex i is appended to the list of its
      root. */
  method Bucket(roots: seq<int>) returns (lists: seq<seq<int>>)
    requires forall j :: 0 <= j < |roots| ==> 0 <= roots[j] < |roots|
    ensures |lists| == |roots|
    ensures forall r :: 0 <= r < |roots| ==> lists[r] == Members(roots, r, |roots|)
  {
    lists := seq(|roots|, _ => []);
    for i := 0 to |roots|
      invariant |lists| == |roots|
      invariant forall r :: 0 <= r < |roots| ==> lists[r] == Members(roots, r, i)
    {
      lists := lists[roots[i] := lists[roots[i]] + [i]];
    }
  }

  lemma {:induction false} GroupsFacts(f: Forest, roots: seq<int>, lists: seq<seq<int>>)
    requires Valid(f) && |roots| == f.n && |lists| == f.n
    requires forall j :: 0 <= j < f.n ==> roots[j] == Find(f.parentOrSize, j)
    requires forall r :: 0 <= r < f.n ==> lists[r] == Members(roots, r, f.n)
    ensures PairwiseDisjoint(lists)
    ensures forall l :: l in lists && |l| > 0 ==> IsComponent(f, l) && Increasing(l)
    ensures forall x :: 0 <= x < f.n ==> 0 <= roots[x] < f.n && x in lists[roots[x]]
  {
    forall r | 0 <= r < f.n
      ensures forall x :: x in lists[r] <==> 0 <= x < f.n && roots[x] == r
      ensures Increasing(lists[r])
    {
      MembersSpec(roots, r, f.n);
    }
    forall l | l in lists && |l| > 0
      ensures IsComponent(f, l)
    {
      var r :| 0 <= r < f.n && lists[r] == l;
      assert l[0] in l;
    }
    forall x | 0 <= x < f.n
      ensures 0 <= roots[x] < f.n
    {
      FindRoot(f.parentOrSize, x);
    }
  }
}
