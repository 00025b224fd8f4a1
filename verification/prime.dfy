/** The smallest-prime-factor sieve of cpp/prime.cpp.

    `factor[x]` ends as the smallest prime divisor of x for 2 <= x <= n (so
    `factor[x] == x` exactly for the primes), with -1 at 0 and 1; `primes`
    lists the primes up to n in increasing order.  The constructor's loops
    are proved against `Spf`, a reference definition of the smallest
    divisor by trial division.
 */
module Sieve {
  import opened Arith

  /** The least divisor of x that is at least d. */
  function LeastDivisorFrom(x: int, d: int): (r: int)
    requires 2 <= d <= x
    ensures d <= r <= x
    decreases x - d
  {
    if x % d == 0 then d else LeastDivisorFrom(x, d + 1)
  }

  /** The smallest divisor of x above 1: its smallest prime factor. */
  function Spf(x: int): (p: int)
    requires x >= 2
    ensures 2 <= p <= x
  {
    LeastDivisorFrom(x, 2)
  }

  lemma {:induction false} LeastDivisorFromSpec(x: int, d: int)
    requires 2 <= d <= x
    requires forall e :: 2 <= e < d ==> x % e != 0
    ensures d <= LeastDivisorFrom(x, d) <= x && x % LeastDivisorFrom(x, d) == 0
    ensures forall e :: 2 <= e < LeastDivisorFrom(x, d) ==> x % e != 0
    decreases x - d
  {
    if x % d != 0 {
      LeastDivisorFromSpec(x, d + 1);
    }
  }

  /** Spf(x) divides x and no smaller number above 1 does. */
  lemma {:induction false} SpfSpec(x: int)
    requires x >= 2
    ensures 2 <= Spf(x) <= x && x % Spf(x) == 0
    ensures forall e :: 2 <= e < Spf(x) ==> x % e != 0
  {
    LeastDivisorFromSpec(x, 2);
  }

  /** Every divisor of x above 1 is at least Spf(x). */
  lemma {:induction false} SpfLeast(x: int, d: int)
    requires x >= 2 && 2 <= d && x % d == 0
    ensures Spf(x) <= d
  {
    SpfSpec(x);
  }

  lemma {:induction false} SpfIsPrime(x: int)
    requires x >= 2
    ensures IsPrime(Spf(x))
  {
    SpfSpec(x);
    var p := Spf(x);
    forall e | 2 <= e < p
      ensures p % e != 0
    {
      if p % e == 0 {
        DividesTrans(x, p, e);
      }
    }
  }

  /** x is prime exactly when it is its own smallest divisor. */
  lemma {:induction false} PrimeIffSpf(x: int)
    requires x >= 2
    ensures IsPrime(x) <==> Spf(x) == x
  {
    SpfSpec(x);
    SpfIsPrime(x);
  }

  /** A composite number is at least the square of its smallest factor. */
  lemma {:induction false} CompositeSpf(x: int)
    requires x >= 2 && !IsPrime(x)
    ensures Spf(x) < x && Spf(x) * Spf(x) <= x
  {
    PrimeIffSpf(x);
    SpfSpec(x);
    var p := Spf(x);
    CofactorDivides(x, p);
    var q := x / p;
    SpfSpec(q);
    DividesTrans(x, q, Spf(q));
    SpfLeast(x, Spf(q));
    MulLe(p, p, q);
  }

  /** What the cell of x holds after the primes below i have been sieved:
      its smallest factor p if p < i and p * p <= x (the inner loop of p
      starts at p * p), otherwise still 0. */
  function Marked(x: int, i: int): int
    requires x >= 2
  {
    var p := Spf(x);
    if p < i && p * p <= x then p else 0
  }

  /** The primes below k, in increasing order. */
  function PrimesBelow(k: int): seq<int>
    decreases k
  {
    if k <= 2 then [] else PrimesBelow(k - 1) + (if IsPrime(k - 1) then [k - 1] else [])
  }

  predicate Increasing(s: seq<int>) {
    forall i, j :: 0 <= i < j < |s| ==> s[i] < s[j]
  }

  lemma {:induction false} PrimesBelowSpec(k: int)
    ensures forall x :: x in PrimesBelow(k) <==> 2 <= x < k && IsPrime(x)
    ensures Increasing(PrimesBelow(k))
    decreases k
  {
    if k > 2 {
      PrimesBelowSpec(k - 1);
      var prefix := PrimesBelow(k - 1);
      var s := PrimesBelow(k);
      if IsPrime(k - 1) {
        assert s == prefix + [k - 1];
        forall i, j | 0 <= i < j < |s|
          ensures s[i] < s[j]
        {
          assert s[i] == prefix[i] && prefix[i] in prefix;
          if j < |prefix| {
            assert s[j] == prefix[j];
          }
        }
      } else {
        assert s == prefix;
      }
    }
  }

  // ---------------------------------------------------------------------
  // The constructor

  datatype Sieve = Sieve(n: int, factor: seq<int>, primes: seq<int>)

  /** The cells before sieving i: the cells below i are final, the others
      hold what the primes below i have marked. */
  ghost predicate OuterState(factor: seq<int>, n: int, i: int) {
    && |factor| == n + 1 && n >= 1
    && factor[0] == -1 && factor[1] == -1
    && forall x :: 2 <= x <= n ==> factor[x] == (if x < i then Spf(x) else Marked(x, i))
  }

  /** The cells while the prime i marks its multiples, the next one being j. */
  ghost predicate InnerState(factor: seq<int>, n: int, i: int, j: int)
    requires i >= 2
  {
    && |factor| == n + 1 && n >= 1
    && factor[0] == -1 && factor[1] == -1
    && forall x :: 2 <= x <= n ==>
         factor[x] == (if x <= i then Spf(x)
                       else if x < j && x % i == 0 then Marked(x, i + 1)
                       else Marked(x, i))
  }

  /** A cell of i still 0 when i is reached means i is prime. */
  lemma {:induction false} UnmarkedIsPrime(factor: seq<int>, n: int, i: int)
    requires OuterState(factor, n, i) && 2 <= i <= n && factor[i] == 0
    ensures IsPrime(i)
  {
    if !IsPrime(i) {
      CompositeSpf(i);
    }
  }

  /** Skipping a marked i: i is composite and nothing changes. */
  lemma {:induction false} SkipComposite(factor: seq<int>, n: int, i: int)
    requires OuterState(factor, n, i) && 2 <= i <= n && factor[i] != 0
    ensures !IsPrime(i) && OuterState(factor, n, i + 1)
  {
    PrimeIffSpf(i);
    forall x | i < x <= n
      ensures Marked(x, i + 1) == Marked(x, i)
    {
      SpfIsPrime(x);
    }
  }

  /** A multiple of the prime i below i * i has a smaller factor. */
  lemma {:induction false} SmallMultiple(x: int, i: int)
    requires 2 <= i < x < i * i && x % i == 0
    ensures Spf(x) < i
  {
    CofactorDivides(x, i);
    var q := x / i;
    if q >= i {
      MulLe(i, i, q);
    }
    SpfSpec(q);
    DividesTrans(x, q, Spf(q));
    SpfLeast(x, Spf(q));
  }

  /** The multiples of a prime i below i * i already have a smaller factor. */
  lemma {:induction false} InnerStart(factor: seq<int>, n: int, i: int)
    requires OuterState(factor, n, i) && 2 <= i <= n && IsPrime(i)
    ensures InnerState(factor[i := i], n, i, i * i)
  {
    var f := factor[i := i];
    PrimeIffSpf(i);
    forall x | 2 <= x <= n
      ensures f[x] == (if x <= i then Spf(x)
                       else if x < i * i && x % i == 0 then Marked(x, i + 1)
                       else Marked(x, i))
    {
      if i < x < i * i && x % i == 0 {
        SmallMultiple(x, i);
      }
    }
  }

  /** The multiple j >= i * i of the prime i is marked with i unless a
      smaller prime marked it first. */
  lemma {:induction false} MarkAtJ(j: int, i: int)
    requires IsPrime(i) && i * i <= j && j % i == 0
    ensures Marked(j, i + 1) == (if Marked(j, i) == 0 then i else Marked(j, i))
  {
    assert i * i >= 2 * i by { MulLe(i, 2, i); }
    SpfLeast(j, i);
    if Spf(j) < i {
      if IsPrime(j) {
        PrimeIffSpf(j);
      }
      CompositeSpf(j);
    }
  }

  lemma {:induction false} NoMultipleBetween(x: int, j: int, i: int)
    requires i >= 1 && j % i == 0 && j < x < j + i
    ensures x % i != 0
  {
    DivMul(j, i);
    var k := j / i;
    if x % i == 0 {
      DivMul(x, i);
      var m := x / i;
      if m <= k {
        MulLe(i, m, k);
      } else {
        MulLe(i, k + 1, m);
      }
    }
  }

  lemma {:induction false} NextMultiple(j: int, i: int)
    requires i >= 1 && j % i == 0
    ensures (j + i) % i == 0
  {
    DivMul(j, i);
    assert j + i == i * (j / i + 1);
    MulMod(i, j / i + 1);
  }

  /** One step of the inner loop: j gets i unless a smaller prime marked it. */
  lemma {:induction false} InnerStep(factor: seq<int>, n: int, i: int, j: int, factor': seq<int>)
    requires 2 <= i && IsPrime(i) && InnerState(factor, n, i, j)
    requires i * i <= j <= n && j % i == 0
    requires factor' == if factor[j] == 0 then factor[j := i] else factor
    ensures InnerState(factor', n, i, j + i)
  {
    MarkAtJ(j, i);
    assert i < j by { MulLe(i, 2, i); }
    forall x | 2 <= x <= n
      ensures factor'[x] == (if x <= i then Spf(x)
                             else if x < j + i && x % i == 0 then Marked(x, i + 1)
                             else Marked(x, i))
    {
      if j < x < j + i {
        NoMultipleBetween(x, j, i);
      }
    }
  }

  /** After the inner loop the cells are ready for i + 1. */
  lemma {:induction false} InnerEnd(factor: seq<int>, n: int, i: int, j: int)
    requires 2 <= i <= n && IsPrime(i) && InnerState(factor, n, i, j) && j > n
    ensures OuterState(factor, n, i + 1)
  {
    forall x | i < x <= n && x % i != 0
      ensures Marked(x, i + 1) == Marked(x, i)
    {
      SpfSpec(x);
    }
  }

  /** The inner loop: marks the multiples i*i, i*i + i, ... <= n of the prime
      i that no smaller prime marked. */
  method MarkMultiples(factor: seq<int>, n: int, i: int) returns (factor': seq<int>)
    requires 2 <= i <= n && IsPrime(i) && InnerState(factor, n, i, i * i)
    ensures OuterState(factor', n, i + 1)
  {
    factor' := factor;
    var j := i * i;
    MulMod(i, i);
    while j <= n
      invariant j >= i * i && j % i == 0
      invariant InnerState(factor', n, i, j)
      decreases n - j
    {
      ghost var next := if factor'[j] == 0 then factor'[j := i] else factor';
      InnerStep(factor', n, i, j, next);
      NextMultiple(j, i);
      if factor'[j] == 0 {
        factor' := factor'[j := i];
      }
      j := j + i;
    }
    InnerEnd(factor', n, i, j);
  }

  /** One round of the outer loop: a marked i is skipped; an unmarked i is
      prime, recorded, and marks its multiples. */
  method SieveRound(factor: seq<int>, primes: seq<int>, n: int, i: int)
    returns (factor': seq<int>, primes': seq<int>)
    requires 2 <= i <= n && OuterState(factor, n, i) && primes == PrimesBelow(i)
    ensures OuterState(factor', n, i + 1) && primes' == PrimesBelow(i + 1)
  {
    if factor[i] != 0 {
      SkipComposite(factor, n, i);
      factor', primes' := factor, primes;
    } else {
      UnmarkedIsPrime(factor, n, i);
      InnerStart(factor, n, i);
      primes' := primes + [i];
      factor' := MarkMultiples(factor[i := i], n, i);
    }
  }

  /** Everything a finished sieve knows. */
  ghost predicate Valid(s: Sieve) {
    && s.n >= 1 && |s.factor| == s.n + 1
    && s.factor[0] == -1 && s.factor[1] == -1
    && (forall x :: 2 <= x <= s.n ==> s.factor[x] == Spf(x))
    && s.primes == PrimesBelow(s.n + 1)
  }

  /** The constructor SieveOfEratosthenes(n); n >= 1 because it writes
      factor[1]. */
  method Build(n: int) returns (s: Sieve)
    requires n >= 1
    ensures Valid(s) && s.n == n
    ensures s.factor[0] == -1 && s.factor[1] == -1
    ensures forall x :: 2 <= x <= n ==> (s.factor[x] == x <==> IsPrime(x))
    ensures forall x :: x in s.primes <==> 2 <= x <= n && IsPrime(x)
    ensures Increasing(s.primes)
  {
    var factor := seq(n + 1, _ => 0);
    factor := factor[0 := -1][1 := -1];
    var primes := [];
    var i := 2;
    forall x | 2 <= x <= n
      ensures Marked(x, 2) == 0
    {
      SpfSpec(x);
    }
    while i <= n
      invariant 2 <= i <= n + 1
      invariant OuterState(factor, n, i)
      invariant primes == PrimesBelow(i)
      decreases n + 1 - i
    {
      factor, primes := SieveRound(factor, primes, n, i);
      i := i + 1;
    }
    s := Sieve(n, factor, primes);
    forall x | 2 <= x <= n
      ensures factor[x] == x <==> IsPrime(x)
    {
      PrimeIffSpf(x);
    }
    PrimesBelowSpec(n + 1);
  }

  /** isPrime(x): false outside [0, n]. */
  function IsPrimeQuery(s: Sieve, x: int): (b: bool)
    requires Valid(s)
    ensures b <==> 0 <= x <= s.n && IsPrime(x)
  {
    if x < 0 || s.n < x then false
    else
      PrimeCell(s, x);
      s.factor[x] == x
  }

  /** In a finished sieve the cell of x holds x exactly when x is prime. */
  lemma {:induction false} PrimeCell(s: Sieve, x: int)
    requires Valid(s) && 0 <= x <= s.n
    ensures s.factor[x] == x <==> IsPrime(x)
  {
    if x >= 2 {
      PrimeIffSpf(x);
    }
  }

  function Product(s: seq<int>): int {
    if |s| == 0 then 1 else Product(s[..|s| - 1]) * s[|s| - 1]
  }

  predicate NonDecreasing(s: seq<int>) {
    forall i, j :: 0 <= i < j < |s| ==> s[i] <= s[j]
  }

  /** The factors of x / Spf(x) are no smaller than Spf(x). */
  lemma {:induction false} QuotientSpf(x: int)
    requires x >= 2 && x / Spf(x) >= 2
    ensures Spf(x / Spf(x)) >= Spf(x)
  {
    SpfSpec(x);
    CofactorDivides(x, Spf(x));
    var q := x / Spf(x);
    SpfSpec(q);
    DividesTrans(x, q, Spf(q));
    SpfLeast(x, Spf(q));
  }

  /** factorize(x): the prime factors of x in non-decreasing order, by
      repeated division by factor[x]; empty unless 2 <= x <= n. */
  method Factorize(s: Sieve, x: int) returns (ps: seq<int>)
    requires Valid(s)
    ensures 2 <= x <= s.n ==> Product(ps) == x && NonDecreasing(ps) && |ps| >= 1
    ensures forall i :: 0 <= i < |ps| ==> IsPrime(ps[i])
    ensures !(2 <= x <= s.n) ==> ps == []
  {
    ps := [];
    if x < 2 || s.n < x {
      return;
    }
    var y := x;
    while y != 1
      invariant 1 <= y <= s.n
      invariant Product(ps) * y == x
      invariant forall i :: 0 <= i < |ps| ==> IsPrime(ps[i])
      invariant NonDecreasing(ps)
      invariant y > 1 && |ps| > 0 ==> ps[|ps| - 1] <= Spf(y)
      invariant y == 1 ==> |ps| > 0
      decreases y
    {
      ps, y := FactorStep(s, x, ps, y);
    }
  }

  /** One division of factorize(x). */
  method FactorStep(s: Sieve, x: int, ps: seq<int>, y: int) returns (ps': seq<int>, y': int)
    requires Valid(s) && 2 <= y <= s.n
    requires Product(ps) * y == x
    requires forall i :: 0 <= i < |ps| ==> IsPrime(ps[i])
    requires NonDecreasing(ps)
    requires |ps| > 0 ==> ps[|ps| - 1] <= Spf(y)
    ensures 1 <= y' < y && |ps'| == |ps| + 1
    ensures Product(ps') * y' == x
    ensures forall i :: 0 <= i < |ps'| ==> IsPrime(ps'[i])
    ensures NonDecreasing(ps')
    ensures y' > 1 ==> ps'[|ps'| - 1] <= Spf(y')
  {
    var p := s.factor[y];
    SpfSpec(y);
    SpfIsPrime(y);
    CofactorDivides(y, p);
    ps' := ps + [p];
    y' := y / p;
    if y' >= y {
      MulLe(y', 2, p);
    }
    assert ps'[..|ps'| - 1] == ps;
    assert Product(ps') == Product(ps) * p;
    MulAssoc(Product(ps), p, y');
    if y' > 1 {
      QuotientSpf(y);
    }
  }
}
