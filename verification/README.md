# atcoder-template in Dafny

This project models the core of a C++ competitive-programming template library and proves properties of the model. The library's algorithmic components are:

- **Segment tree** (`SegmentTree`, `SegmentTreeSearch`). An array-backed perfect binary tree over a monoid `(op, e)`. It supports `set`, `get`, the half-open range fold `prod`, and the two binary searches `max_right` and `min_left`. The monoid is a datatype holding `op` and `e`, with a predicate `IsMonoid` for associativity and identity. The leaves form the abstract sequence `Leaves(t)`; `RangeFold` is its left-to-right fold.
- **Union-find** (`UnionFind`). The `parent_or_size` encoding, with union by size and path compression. `Find` is the root a vertex climbs to. `Component` is the set of vertices sharing a root, and `SamePartition` says two forests connect the same pairs.
- **Fenwick tree** (`BinaryIndexedTree`). `Represents(t, a)` ties the array to a ghost sequence `a` of accumulated additions: `data[x-1]` is the sum of `a` over `(x - lowbit(x), x]`.
- **Prefix sums** (`Cumsum`), over the shared summation module `Sums`.
- **Sieve of Eratosthenes** (`Sieve`). The smallest-prime-factor table, the prime list, `isPrime` and `factorize`.
- **Integer helpers of math.cpp** (`IntMath`, over `Arith`). `div_floor`, `div_ceil`, `safe_mod`, `Power`, `ModInv`, `Division`, `Combination`. C++'s truncating `/` and `%` are written out as `Arith.TDiv` and `Arith.TMod`. In contracts, Dafny's `%` is the mathematical residue.
- **Residues modulo MOD** (`ModularInt`). `modint<MOD>` becomes a value `ModInt(v)` with a modulus parameter `M` in `[1, 2^31 - 1]`. The unsigned 32-bit, signed 32-bit and unsigned 64-bit intermediates are written out as explicit wrap-arounds (`ToU32`, `ToI32`, `ToU64`).
- **Strongly connected components** (`StronglyConnected`). Kosaraju's algorithm over the adjacency lists `G` and the reversed lists `rG`. One search method `Dfs` serves both `dfs` and `rdfs`.

Mutating member functions become functions or methods that return the new state. A query that compresses paths returns its answer together with the new forest.

Bits (`Pow2`, `Log2`, `LowBit` as `x & -x`) and the monoid definition are supporting modules.

## Model

| member | source | states |
|---|---|---|
| SegmentTree.New | cpp/SegmentTree.cpp:21-25 | the tree is valid; its width is the least power of two that is at least n; every leaf holds e |
| SegmentTree.Set | cpp/SegmentTree.cpp:37-56 | for p in [0, n), leaf p becomes x, every other leaf is unchanged and every inner cell is again op of its children; for any other p the tree is unchanged |
| SegmentTree.Get | cpp/SegmentTree.cpp:66-73 | for p in [0, n) the result is leaf p of the abstract sequence; otherwise it is e |
| SegmentTree.NodeValue | cpp/SegmentTree.cpp:52-55 | in a valid tree every cell holds the ordered fold of the leaves below it |
| SegmentTree.Prod | cpp/SegmentTree.cpp:83-102 | for 0 <= l <= r <= n the result is the left-to-right fold of leaves [l, r), with e for an empty range; any other range gives e; only associativity and identity are used |
| SegmentTree.RangeFoldSplit | cpp/SegmentTree.cpp:95-101 | the fold of [l, r) is op of the folds of [l, mid) and [mid, r), which is why the two accumulators combine as op(vl, vr) |
| SegmentTreeSearch.MaxRight | cpp/SegmentTree.cpp:115-135 | for l == n the result is n whatever f is; otherwise, with f(e) true, the result r is in [l, n], f holds of the fold of [l, r) and fails of the fold of [l, r + 1) unless r == n |
| SegmentTreeSearch.MaxRightMaximal | cpp/SegmentTree.cpp:104-114 | for f monotone from l, such an r is the largest end for which f holds: f holds of [l, r') exactly when r' <= r |
| SegmentTreeSearch.MinLeft | cpp/SegmentTree.cpp:148-169 | r == 0 gives 0 whatever f is; otherwise, with f(e) true and r == -1 standing for n, the result l is in [0, r], f holds of the fold of [l, r) and fails of [l - 1, r) unless l == 0 |
| SegmentTreeSearch.MinLeftMinimal | cpp/SegmentTree.cpp:137-147 | for f monotone towards r, such an l is the smallest start for which f holds: f holds of [l', r) exactly when l <= l' |
| UnionFind.New | cpp/UnionFind.cpp:14 | the forest is valid and every vertex is its own root with a component of size 1 |
| UnionFind.Compress | cpp/UnionFind.cpp:79-82 | path compression returns the root of x; every non-root vertex on the path from x now points at that root, and no vertex off the path changes |
| UnionFind.Root | cpp/UnionFind.cpp:73-83 | for a in range the result is a's root, a vertex with a negative entry, and the new forest connects exactly the same pairs; out of range the result is -1 and nothing changes |
| UnionFind.Merge | cpp/UnionFind.cpp:25-45 | out of range nothing changes; otherwise a and b become connected, and two vertices are connected afterwards iff they were before or one was with a and the other with b; an already joined pair changes no connection; otherwise the root of the larger component (a's root on a tie) becomes the root and its size is the sum of the two |
| UnionFind.SameQuery | cpp/UnionFind.cpp:55-62 | true exactly when both vertices are in range and share a root; the connections are unchanged |
| UnionFind.Size | cpp/UnionFind.cpp:93-100 | for a in range, the number of vertices in a's component, at least 1; otherwise 0 |
| UnionFind.StoredSizes | cpp/UnionFind.cpp:160 | in a valid forest every root stores a size of at least 1 and the stored sizes add up to n |
| UnionFind.Groups | cpp/UnionFind.cpp:110-131 | every list is one whole component in increasing order; the lists are pairwise disjoint and every vertex is in one |
| BinaryIndexedTree.New | cpp/BIT.cpp:17 | the tree represents the all-zero sequence of length n |
| BinaryIndexedTree.Add | cpp/BIT.cpp:30-41 | for p in [0, n) the tree afterwards represents the sequence with w added at p; otherwise it is unchanged |
| BinaryIndexedTree.PrefixSum | cpp/BIT.cpp:85-91 | the sum of the represented sequence over [0, r) |
| BinaryIndexedTree.RangeSum | cpp/BIT.cpp:51-58 | for 0 <= l <= r <= n the sum over [l, r); any other range gives 0 |
| Cumsum.Build | cpp/Cumsum.cpp:13-19 | the table has N + 1 entries, starts at 0, and entry i + 1 is entry i plus array[i]; entry i is the sum of the first i elements |
| Cumsum.RangeSum | cpp/Cumsum.cpp:28-36 | for 0 <= l <= r < N the closed-interval sum array[l] + ... + array[r]; otherwise 0 |
| Cumsum.RangeSumSingle | cpp/Cumsum.cpp:28-36 | sum(i, i) is array[i] |
| Cumsum.RangeSumSplit | cpp/Cumsum.cpp:35 | for l <= m < r, sum(l, m) + sum(m + 1, r) is sum(l, r) |
| Sieve.SpfSpec | cpp/prime.cpp:26-29 | the smallest divisor of x that is at least 2 divides x, and no smaller number from 2 does |
| Sieve.PrimeIffSpf | cpp/prime.cpp:22 | x >= 2 is prime exactly when it is its own smallest divisor |
| Sieve.PrimesBelowSpec | cpp/prime.cpp:21-23 | the primes below k, and only those, in strictly increasing order |
| Sieve.Build | cpp/prime.cpp:13-31 | factor[0] and factor[1] are -1; for 2 <= x <= n, factor[x] is the smallest prime divisor of x, so factor[x] == x exactly when x is prime; primes holds exactly the primes up to n in increasing order |
| Sieve.IsPrimeQuery | cpp/prime.cpp:39-45 | true exactly when 0 <= x <= n and x is prime |
| Sieve.Factorize | cpp/prime.cpp:55-67 | for 2 <= x <= n, non-decreasing primes whose product is x; otherwise the empty list |
| Arith.Reduce | math.cpp:67-70 | the truncating remainder, moved up by m when negative, is the mathematical residue in [0, m) |
| Arith.EuclidLoop | math.cpp:110-118 | the extended Euclid loop ends with the gcd and a coefficient u with u * a congruent to the gcd |
| IntMath.DivFloor | math.cpp:13-25 | 0 for b == 0; otherwise the floor of a / b, stated as the bracketing b * r <= a < b * r + b (reversed for b < 0) |
| IntMath.DivFloorIsEuclidean | math.cpp:13-25 | for b > 0 the result is the floor division a / b |
| IntMath.DivCeil | math.cpp:38-50 | 0 for b == 0; otherwise the ceiling of a / b, stated as b * r - b < a <= b * r (reversed for b < 0) |
| IntMath.DivCeilIsNegatedFloor | math.cpp:27-50 | div_ceil(a, b) is -div_floor(-a, b) for every a and b |
| IntMath.SafeMod | math.cpp:61-72 | 0 for m == 0; for m > 0 a value in [0, m) congruent to x |
| IntMath.SafeModPeriodic | math.cpp:61-72 | adding a multiple of m to x does not change safe_mod |
| IntMath.Power | math.cpp:82-91 | b <= 0 gives 1; b > 0 gives a value congruent to a^b, equal to a^b mod m when a >= 0 |
| IntMath.PowerModOne | math.cpp:82-91 | with m == 1 and b == 0 the result is 1 although a^0 mod 1 is 0 |
| IntMath.PowerReduced | math.cpp:74-91 | with the accumulator started at 1 mod m, the result is a^b mod m for every a >= 0, b >= 0, m >= 1 |
| IntMath.ModInv | math.cpp:105-130 | a value u in [0, m); when gcd(a mod m, m) == 1, a * u is congruent to 1; otherwise u is 0 |
| IntMath.ModInvUnique | math.cpp:93-104 | the inverse in [0, m) is unique, so ModInv is the inverse the comment promises, e.g. 5 for 3 mod 7 |
| IntMath.NoInverse | math.cpp:120-125 | for m >= 2 and gcd(a mod m, m) != 1 no u gives a * u congruent to 1, so 0 is the only answer possible there |
| IntMath.Division | math.cpp:142-145 | when b is invertible mod m, the result times b is congruent to a; otherwise 0; for a >= 0 the result is in [0, m) |
| IntMath.ProdLoop | math.cpp:160-168 | the descending product loop yields the falling product i * (i - 1) * ... * lo, reduced mod m |
| IntMath.Combination | math.cpp:156-172 | for 0 <= r <= n and a prime m above min(r, n - r), C(n, r) mod m |
| IntMath.CombinationCorrect | math.cpp:156-172 | for 0 <= r <= n and a prime m above k = min(r, n - r), after the symmetry step r := min(r, n - r), dividing the two reduced products gives C(n, r) mod m |
| IntMath.CombinationSmallPrime | math.cpp:156-172 | for 0 <= r <= n and a prime m <= min(r, n - r), the reduced k! is 0, ModInv fails, and the result is 0 |
| IntMath.CombinationSixThree | math.cpp:156-172 | Combination(6, 3, 3) differs from C(6, 3) mod 3 = 2 |
| IntMath.BinomMod | math.cpp:149-152 | Pascal's rule with every sum reduced gives C(n, k) mod m for every m >= 1 |
| IntMath.CombinationCorrected | math.cpp:149-152 | C(n, r) mod m for every prime m and 0 <= r <= n |
| ModularInt.Zero | modint.cpp:15 | the default value is a valid residue |
| ModularInt.ZeroIsFromZero | modint.cpp:15 | the default value is the residue of 0 |
| ModularInt.FromInt | modint.cpp:24-28 | any long long v gives the residue v mod MOD in [0, MOD) |
| ModularInt.Equal | modint.cpp:160-162 | two modints compare equal exactly when they are the same modint |
| ModularInt.NotEqual | modint.cpp:169-171 | != holds exactly when == does not |
| ModularInt.FromIntEqual | modint.cpp:155-171 | two converted values compare equal exactly when the integers are congruent mod MOD |
| ModularInt.Inc | modint.cpp:51-55 | prefix ++ gives (v + 1) mod MOD |
| ModularInt.Dec | modint.cpp:78-82 | prefix -- gives (v - 1) mod MOD |
| ModularInt.PostInc | modint.cpp:65-69 | postfix ++ returns the old value and stores (v + 1) mod MOD |
| ModularInt.PostDec | modint.cpp:92-96 | postfix -- returns the old value and stores (v - 1) mod MOD |
| ModularInt.IncDecInverse | modint.cpp:44-96 | ++ and -- undo each other |
| ModularInt.Add | modint.cpp:179-183 | (a + b) mod MOD; the sum fits in 32 unsigned bits |
| ModularInt.Sub | modint.cpp:191-197 | (a - b) mod MOD |
| ModularInt.SubSteps | modint.cpp:191-197 | the difference, and the difference plus MOD when it is negative, fit in a signed 32-bit int |
| ModularInt.ProductFits | modint.cpp:205-207 | the product of two residues fits in 64 unsigned bits |
| ModularInt.Mul | modint.cpp:205-210 | (a * b) mod MOD |
| ModularInt.Neg | modint.cpp:234 | unary minus gives (-v) mod MOD |
| ModularInt.NegCancels | modint.cpp:229-234 | x + (-x) is 0 |
| ModularInt.Inv | modint.cpp:249-271 | when gcd(v, MOD) == 1, v times the result is congruent to 1; otherwise the result is 0 |
| ModularInt.InvIsModInv | modint.cpp:249-271 | inv() agrees with ModInv of math.cpp on every residue |
| ModularInt.Div | modint.cpp:219-221 | when y is invertible, the result times y is x; otherwise 0 |
| ModularInt.SubThenAdd | modint.cpp:179-197 | (x - y) + y is x for all residues |
| ModularInt.DivUndoesMul | modint.cpp:205-221 | (x * y) / y is x whenever y is invertible |
| ModularInt.PowLoop | modint.cpp:289-293 | the square-and-multiply loop keeps r * p^n unchanged mod MOD |
| ModularInt.PowN | modint.cpp:281-295 | for n >= 0, v^n mod MOD; for n < 0, the residue of 1 |
| ModularInt.PowExample | modint.cpp:273-280 | modint<6>(11).pow(1001001002) is 1 |
| ModularInt.ExamplesStep | modint.cpp:20-90 | modint<7>(9) is 2; ++ on 10 mod 11 gives 0; -- on 0 mod 5 gives 4 |
| ModularInt.ExamplesSub | modint.cpp:114-125 | with MOD = 2^31 - 1: 0 - (MOD - 1) is 1 and 0 - 1 is MOD - 1 |
| ModularInt.ExamplesMul | modint.cpp:131-137 | with MOD = 2^31 - 1: (MOD - 1)^2 is 1 and (MOD - 2)(MOD - 3) is 6 |
| ModularInt.ExamplesCompare | modint.cpp:155-167 | modint<11>(5) == modint<11>(-6), and modint<7>(5) != modint<7>(12) is false |
| ModularInt.ExampleNeg | modint.cpp:229-232 | -modint<11>(3) is 8 |
| ModularInt.ExampleNoInverse | modint.cpp:236-246 | modint<13>(10) / 13 is 0 |
| StronglyConnected.New | cpp/SCC.cpp:12-16 | a well-formed graph on N vertices without edges |
| StronglyConnected.AddEdge | cpp/SCC.cpp:24-32 | out of range nothing changes; otherwise to is appended to G[from] and from to rG[to], the graph gains exactly the edge from -> to, and rG stays the exact reverse of G |
| StronglyConnected.ReverseEdges | cpp/SCC.cpp:30-31 | in a well-formed graph, v is in G[u] exactly when u is in rG[v] |
| StronglyConnected.ReverseReach | cpp/SCC.cpp:30-31 | reaching w from u in rG means reaching u from w in G |
| StronglyConnected.Dfs | cpp/SCC.cpp:46-52 | the search appends, once each, exactly the vertices it newly marks, all reachable from v, with v last |
| StronglyConnected.FinishOrder | cpp/SCC.cpp:44-56 | vs is a permutation of 0..n-1 |
| StronglyConnected.Scc | cpp/SCC.cpp:58-74 | the lists are non-empty and their concatenation holds every vertex exactly once; every vertex of a list is reachable in rG from the list's start vertex, its last element |
| StronglyConnected.ListsReachStart | cpp/SCC.cpp:58-74 | read in G, every vertex of a list reaches the list's start vertex |

`scc()` takes the graph by value, so `G` and `rG` are unchanged by construction. The same holds for `get`, `prod`, `max_right`, `min_left`, `sum` and `isPrime`. The binary operators `+ - * /` of modint apply the compound ones to a copy, so `Add`, `Sub`, `Mul` and `Div` model both forms.

## Left out

- Console output: every `printf`, `cout` and `cerr` message is dropped. Only the fallback value and the absence of change are modelled. The debug dumps `displaySegTree`, `displayBIT` and `UnionFind::debug` are not modelled.
- The runtime type check at the start of `set` is left out, because Dafny's types make it impossible to pass a value of the wrong type.
- Template and `std::function` plumbing: the monoid is a datatype with a predicate for its laws, and `f` is a Dafny function.
- Complexity claims, `reserve` in `groups`, and the `_size` doubling bound beyond what `New` states.
- SegmentTreeSearch.MaxRight: an `l` outside [0, n] is excluded by a precondition. `l` is the left end of a search range over A, and ac-library's `max_right` limits it to [0, n]. Outside that range the source has no check: it reads padding cells or leaves `data`, and its result need not lie in [l, n].
- SegmentTreeSearch.MinLeft: an `r` outside [-1, n] is excluded by a precondition. `r` is the right end of a search range over A, limited to [0, n] in the same way, with -1 standing for n.
- SegmentTreeSearch.MinLeft: for r == -1 on an empty tree the source still runs its loop. It returns 0 when f(e) holds but 1 when it does not, so f(e) is required there as for every r other than 0.
- BinaryIndexedTree and Cumsum: the element type `T` and `long long` are unbounded integers, so overflow is not modelled.
- Sieve.Build: requires n >= 1, because the source writes `factor[1]` unconditionally.
- IntMath: `long long` overflow is not modelled. This covers negating the most negative value, `a * b` in `Power` and `Division`, and the `int` loop counter in `Combination`.
- IntMath.Power, IntMath.ModInv, IntMath.Division and IntMath.Combination require m >= 1. Each promises a residue modulo m, which has no meaning for m <= 0. For m == 0, ModInv, Division and Combination also divide by zero. Power with b <= 0 returns 1 without dividing.
- IntMath.Power: for a negative base and b > 0 it states only congruence with a^b, not the sign of the C++ remainder.
- IntMath.Division: for a negative dividend it does not state the sign of the C++ remainder.
- IntMath.Combination: C(n, r) mod m is stated only for a prime m above min(r, n - r). For a smaller prime the source returns 0, which is recorded under "## Findings". For a composite modulus the model only follows the code.
- ModularInt: `val()` and `mod()` are the field `v` and the parameter `M`. Unary `+` is the identity.
- ModularInt.Inv: the bounds of the `long long` Euclid coefficients are not stated; the model uses unbounded integers for them.
- UnionFind.Groups: the order of the lists, by their roots, is not stated.
- StronglyConnected.New: `N` is a `nat`, because a negative size makes `resize` fail in the source.
- StronglyConnected.Scc: it does not prove that two vertices share a list exactly when they are mutually reachable in G. That needs Kosaraju's finishing-time argument about the whole first pass, which is beyond this model. Proved instead: the lists partition the vertices, and every vertex of a list is tied by a path to the list's start.
- Recursion depth: the recursive `dfs` and `root` are modelled as recursion without a stack limit.

## Findings

| source | as written | input that shows it | evidently intended | confidence | as-written member | corrected member |
|---|---|---|---|---|---|---|
| math.cpp:84 | `ans` starts at 1 and is only reduced when a bit of b is set, so for b == 0 the unreduced 1 is returned | `Power(5, 0, 1)` returns 1, but 5^0 mod 1 is 0 | the comment promises `(a ^ b) % m`, so the accumulator should start at `1 % m` | not executed | IntMath.PowerModOne | IntMath.PowerReduced |
| math.cpp:165-170 | the denominator r! is reduced modulo m before it is inverted, so for a prime m <= min(r, n - r) it is 0, `ModInv(0, m)` takes its error path, and 0 is returned | `Combination(6, 3, 3)` returns 0, but C(6, 3) = 20 leaves 2 modulo 3 | the comment promises nCr % m for a prime m, so a prime no larger than min(r, n - r) needs another method, such as Pascal's rule or Lucas's theorem | not executed | IntMath.CombinationSixThree | IntMath.CombinationCorrected |

modint's `pow` does not have this problem: its accumulator is `modint(1)`, which is already reduced.
