/** Integer facts shared by the sieve, math.cpp and modint.cpp: primality,
    C++ truncating division, powers, congruences, the greatest common
    divisor, factorials and binomial coefficients.

    Dafny's `/` and `%` are Euclidean (for a positive divisor: floor
    division and a remainder in [0, m)); C++'s round toward zero and give
    the remainder the sign of the dividend.  `TDiv`/`TMod` model the C++
    operators; `%` in contracts is the mathematical residue.
 */
module Arith {

  predicate IsPrime(x: int) {
    x >= 2 && forall d :: 2 <= d < x ==> x % d != 0
  }

  function Abs(x: int): nat {
    if x < 0 then -x else x
  }

  /** C++ `a / b`: the quotient rounded toward zero. */
  function TDiv(a: int, b: int): int
    requires b != 0
  {
    var q := Abs(a) / Abs(b);
    if (a < 0) == (b < 0) then q else -q
  }

  /** C++ `a % b`: the remainder with the sign of a. */
  function TMod(a: int, b: int): int
    requires b != 0
  {
    a - b * TDiv(a, b)
  }

  /** The C++ idiom `x %= m; if (x < 0) x += m;`: for m >= 1, the
      residue of x. */
  function Reduce(x: int, m: int): (r: int)
    requires m != 0
    ensures m >= 1 ==> r == x % m && 0 <= r < m
  {
    ReduceSpec(x, m);
    var t := TMod(x, m);
    if t < 0 then t + m else t
  }

  // ---------------------------------------------------------------------
  // Multiplication and division

  /** A multiple of d leaves remainder 0 and quotient k. */
  lemma {:induction false} MulMod(d: int, k: int)
    requires d >= 1
    ensures (d * k) % d == 0 && (d * k) / d == k
  {
    var x := d * k;
    var m := k - x / d;
    assert d * m == x % d;
  }

  lemma {:induction false} DivMul(x: int, d: int)
    requires d >= 1 && x % d == 0
    ensures x == d * (x / d)
  {
  }

  lemma {:induction false} MulLe(a: int, b: int, c: int)
    requires a >= 0 && b <= c
    ensures a * b <= a * c
  {
    assert a * c - a * b == a * (c - b);
  }

  lemma {:induction false} MulNonNeg(x: int, y: int)
    ensures x >= 0 && y >= 0 ==> x * y >= 0
  {
    if x >= 0 && y >= 0 {
      MulLe(x, 0, y);
    }
  }

  lemma {:induction false} MulAssoc(a: int, b: int, c: int)
    ensures (a * b) * c == a * (b * c)
  {
  }

  lemma {:induction false} DividesTrans(a: int, b: int, c: int)
    requires a >= 1 && b >= 1 && c >= 1 && a % b == 0 && b % c == 0
    ensures a % c == 0
  {
    var k, m := a / b, b / c;
    DivMul(a, b);
    DivMul(b, c);
    assert a == c * (m * k);
    MulMod(c, m * k);
  }

  /** x / d divides x, with cofactor d. */
  lemma {:induction false} CofactorDivides(x: int, d: int)
    requires x >= 1 && d >= 1 && x % d == 0
    ensures x / d >= 1 && x % (x / d) == 0 && x == d * (x / d)
  {
    DivMul(x, d);
    var q := x / d;
    if q <= 0 {
      MulLe(d, q, 0);
    }
    assert x == q * d;
    MulMod(q, d);
  }

  /** Quotient and remainder are unique. */
  lemma {:induction false} DivModUnique(x: int, m: int, q: int, r: int)
    requires m >= 1 && 0 <= r < m && x == m * q + r
    ensures x / m == q && x % m == r
  {
    var q', r' := x / m, x % m;
    assert m * (q - q') == r' - r;
    if q > q' {
      MulLe(m, 1, q - q');
    } else if q < q' {
      assert m * (q' - q) == r - r';
      MulLe(m, 1, q' - q);
    }
  }

  /** A positive multiple of d is at least d. */
  lemma {:induction false} DivisorLe(x: int, d: int)
    requires x >= 1 && d >= 1 && x % d == 0
    ensures d <= x
  {
    CofactorDivides(x, d);
    MulLe(d, 1, x / d);
  }

  // ---------------------------------------------------------------------
  // Congruences

  lemma {:induction false} ModMod(x: int, m: int)
    requires m >= 1
    ensures (x % m) % m == x % m
  {
    DivModUnique(x % m, m, 0, x % m);
  }

  /** A value in [0, m) is its own residue. */
  lemma {:induction false} SmallResidue(r: int, m: int)
    requires m >= 1
    ensures 0 <= r < m ==> r % m == r
  {
    if 0 <= r < m {
      DivModUnique(r, m, 0, r);
    }
  }

  /** Adding a multiple of m does not change the residue. */
  lemma {:induction false} ModAddMultiple(m: int, k: int, z: int)
    requires m >= 1
    ensures (m * k + z) % m == z % m
  {
    var q, r := z / m, z % m;
    assert m * k + z == m * (k + q) + r;
    DivModUnique(m * k + z, m, k + q, r);
  }

  /** Reducing a factor first does not change the residue of a product. */
  lemma {:induction false} ModMulLeft(x: int, y: int, m: int)
    requires m >= 1
    ensures ((x % m) * y) % m == (x * y) % m
  {
    var q, r := x / m, x % m;
    assert x * y == m * (q * y) + r * y by {
      assert x == m * q + r;
    }
    ModAddMultiple(m, q * y, r * y);
  }

  /** Products of congruent factors are congruent. */
  lemma {:induction false} CongMul(x: int, x': int, y: int, y': int, m: int)
    requires m >= 1 && x % m == x' % m && y % m == y' % m
    ensures (x * y) % m == (x' * y') % m
  {
    ModMulLeft(x, y, m);
    ModMulLeft(x', y, m);
    ModMulLeft(y, x', m);
    ModMulLeft(y', x', m);
  }

  /** Reducing a term first does not change the residue of a sum. */
  lemma {:induction false} ModAddLeft(x: int, y: int, m: int)
    requires m >= 1
    ensures ((x % m) + y) % m == (x + y) % m
  {
    assert x + y == m * (x / m) + ((x % m) + y);
    ModAddMultiple(m, x / m, (x % m) + y);
  }

  /** Sums of congruent terms are congruent. */
  lemma {:induction false} CongAdd(x: int, x': int, y: int, y': int, m: int)
    requires m >= 1 && x % m == x' % m && y % m == y' % m
    ensures (x + y) % m == (x' + y') % m
  {
    ModAddLeft(x, y, m);
    ModAddLeft(y, x % m, m);
    ModAddLeft(x', y', m);
    ModAddLeft(y', x' % m, m);
  }

  /** x - t * y is a multiple of m when x and y are. */
  lemma {:induction false} MultipleComb(x: int, y: int, t: int, m: int)
    requires m >= 1 && x % m == 0 && y % m == 0
    ensures (x - t * y) % m == 0
  {
    var k1, k2 := x / m, y / m;
    DivMul(x, m);
    DivMul(y, m);
    assert x - t * y == m * (k1 - t * k2);
    MulMod(m, k1 - t * k2);
  }

  /** The C++ remainder is congruent to the dividend, and for a
      non-negative dividend it is the residue. */
  lemma {:induction false} TModCong(x: int, m: int)
    requires m >= 1
    ensures TMod(x, m) % m == x % m
    ensures x >= 0 ==> TMod(x, m) == x % m && TDiv(x, m) == x / m
    ensures -m < TMod(x, m) < m
    ensures x < 0 ==> TMod(x, m) <= 0
  {
    var t := TDiv(x, m);
    assert TMod(x, m) == m * (-t) + x;
    ModAddMultiple(m, -t, x);
    var c := Abs(x);
    assert c == m * (c / m) + c % m;
    if x < 0 {
      assert t == -(c / m);
      assert TMod(x, m) == -(c % m);
    }
  }

  lemma {:induction false} ReduceSpec(x: int, m: int)
    requires m != 0
    ensures m >= 1 ==> var t := TMod(x, m); (if t < 0 then t + m else t) == x % m
  {
    if m >= 1 {
      TModCong(x, m);
      var t := TMod(x, m);
      if t < 0 {
        ModAddMultiple(m, 1, t);
        DivModUnique(t + m, m, 0, t + m);
      } else {
        DivModUnique(t, m, 0, t);
      }
    }
  }

  // ---------------------------------------------------------------------
  // Powers

  function Pow(b: int, e: nat): int {
    if e == 0 then 1 else b * Pow(b, e - 1)
  }

  /** b^(2e) == (b * b)^e. */
  lemma {:induction false} PowSquare(b: int, e: nat)
    ensures Pow(b * b, e) == Pow(b, 2 * e)
  {
    if e > 0 {
      PowSquare(b, e - 1);
      calc {
        Pow(b, 2 * e);
        b * Pow(b, 2 * e - 1);
        b * (b * Pow(b, 2 * (e - 1)));
        { MulAssoc(b, b, Pow(b, 2 * (e - 1))); }
        (b * b) * Pow(b * b, e - 1);
      }
    }
  }


  /** Congruent bases give congruent powers. */
  lemma {:induction false} PowCong(x: int, y: int, e: nat, m: int)
    requires m >= 1 && x % m == y % m
    ensures Pow(x, e) % m == Pow(y, e) % m
  {
    if e > 0 {
      PowCong(x, y, e - 1, m);
      CongMul(x, y, Pow(x, e - 1), Pow(y, e - 1), m);
    }
  }

  // ---------------------------------------------------------------------
  // Greatest common divisor

  /** Euclid's algorithm on non-negative integers. */
  function Gcd(a: nat, b: nat): nat
    decreases b
  {
    if b == 0 then a else Gcd(b, a % b)
  }

  /** If g divides b and a % b, it divides a. */
  lemma {:induction false} DividesEuclid(a: int, b: int, g: int)
    requires b >= 1 && g >= 1 && b % g == 0 && (a % b) % g == 0
    ensures a % g == 0
  {
    var k := a / b;
    DivMul(b, g);
    DivMul(a % b, g);
    assert a == g * ((b / g) * k + (a % b) / g) by {
      assert a == b * k + a % b;
    }
    MulMod(g, (b / g) * k + (a % b) / g);
  }

  /** Gcd(a, b) is a positive common divisor (unless both are 0). */
  lemma {:induction false} GcdDivides(a: nat, b: nat)
    requires a + b > 0
    ensures Gcd(a, b) >= 1 && a % Gcd(a, b) == 0 && b % Gcd(a, b) == 0
    decreases b
  {
    if b == 0 {
      MulMod(a, 1);
    } else {
      GcdDivides(b, a % b);
      DividesEuclid(a, b, Gcd(a, b));
    }
  }

  /** Below a prime p, every positive x is coprime with p. */
  lemma {:induction false} PrimeCoprime(x: nat, p: nat)
    requires IsPrime(p) && 0 < x < p
    ensures Gcd(x, p) == 1
  {
    GcdDivides(x, p);
    DivisorLe(x, Gcd(x, p));
  }

  /** The extended Euclidean loop of ModInv and modint::inv: each round
      replaces (gcd, b) by (b, gcd - t * b) and (u, v) by (v, u - t * v)
      with t = gcd / b, until b == 0.  The ghost a and m carry the
      invariant: u * a is congruent to gcd, and v * a to b, modulo m.
      Returns the final (gcd, u). */
  function EuclidLoop(g: int, b: int, u: int, v: int, ghost a: int, ghost m: int): (r: (int, int))
    requires g >= 0 && b >= 0 && m >= 1
    requires (u * a - g) % m == 0 && (v * a - b) % m == 0
    ensures r.0 == Gcd(g, b)
    ensures (r.1 * a - r.0) % m == 0
    decreases b
  {
    if b == 0 then (g, u)
    else
      var t := TDiv(g, b);
      TModCong(g, b);
      MultipleComb(u * a - g, v * a - b, t, m);
      assert (u - t * v) * a - (g - t * b) == (u * a - g) - t * (v * a - b);
      EuclidLoop(b, g - t * b, v, u - t * v, a, m)
  }

  /** A residue coprime with m has an inverse modulo m. */
  lemma {:induction false} Inverse(c: int, m: int) returns (u: int)
    requires m >= 1 && Gcd(c % m, m) == 1
    ensures (c * u) % m == 1 % m
  {
    var c0 := c % m;
    assert 1 * c0 - c0 == 0;
    MulMod(m, -1);
    assert 0 * c0 - m == m * -1;
    var r := EuclidLoop(c0, m, 1, 0, c0, m);
    u := r.1;
    assert (u * c0 - 1) % m == 0;
    CongAdd(u * c0 - 1, 0, 1, 1, m);
    assert (u * c0) % m == 1 % m;
    ModMod(c, m);
    CongMul(c, c0, u, u, m);
    assert c0 * u == u * c0;
  }

  /** Multiplying by a unit modulo m can be undone. */
  lemma {:induction false} CancelUnit(x: int, y: int, c: int, m: int)
    requires m >= 1 && Gcd(c % m, m) == 1 && (x * c) % m == (y * c) % m
    ensures x % m == y % m
  {
    var u := Inverse(c, m);
    CongMul(x, x, c * u, 1, m);
    CongMul(y, y, c * u, 1, m);
    MulAssoc(x, c, u);
    MulAssoc(y, c, u);
    CongMul(x * c, y * c, u, u, m);
  }

  /** A residue that is not 0 modulo a prime is a unit. */
  lemma {:induction false} PrimeUnit(c: int, p: int)
    requires IsPrime(p) && c % p != 0
    ensures Gcd(c % p, p) == 1
  {
    PrimeCoprime(c % p, p);
  }

  /** Euclid's lemma: a prime dividing a product divides a factor. */
  lemma {:induction false} EuclidPrime(x: int, y: int, p: int)
    requires IsPrime(p) && x % p != 0 && y % p != 0
    ensures (x * y) % p != 0
  {
    if (x * y) % p == 0 {
      PrimeUnit(x, p);
      assert y * x == x * y;
      assert 0 * x == 0;
      CancelUnit(y, 0, x, p);
    }
  }

  // ---------------------------------------------------------------------
  // Factorials and binomial coefficients

  /** The falling factorial x * (x - 1) * ... * (x - k + 1). */
  function Falling(x: int, k: nat): int
    decreases k
  {
    if k == 0 then 1 else x * Falling(x - 1, k - 1)
  }

  function Fact(k: nat): int {
    Falling(k, k)
  }

  /** The binomial coefficient by Pascal's rule; 0 outside 0 <= k <= n. */
  function Binom(n: int, k: int): nat
    decreases n
  {
    if k < 0 || k > n then 0
    else if k == 0 || k == n then 1
    else Binom(n - 1, k - 1) + Binom(n - 1, k)
  }

  /** The last factor of a falling factorial. */
  lemma {:induction false} FallingLast(x: int, k: nat)
    ensures Falling(x, k + 1) == Falling(x, k) * (x - k)
    decreases k
  {
    if k > 0 {
      FallingLast(x - 1, k - 1);
      MulAssoc(x, Falling(x - 1, k - 1), x - k);
    }
  }

  /** C(n, k) = C(n, n - k). */
  lemma {:induction false} BinomSymmetric(n: int, k: int)
    ensures Binom(n, k) == Binom(n, n - k)
    decreases n
  {
    if 0 < k < n {
      BinomSymmetric(n - 1, k - 1);
      BinomSymmetric(n - 1, k);
    }
  }

  /** The arithmetic of one Pascal step: with b1 * F == f and
      b2 * (k * F) == f * (n - k), (b1 + b2) * (k * F) == n * f. */
  lemma {:induction false} PascalStep(b1: int, b2: int, k: int, F: int, f: int, n: int)
    requires b1 * F == f && b2 * (k * F) == f * (n - k)
    ensures (b1 + b2) * (k * F) == n * f
  {
    assert b1 * (k * F) == k * (b1 * F);
  }

  /** C(n, k) * k! == n * (n - 1) * ... * (n - k + 1). */
  lemma {:induction false} BinomFalling(n: int, k: int)
    requires 0 <= k <= n
    ensures Binom(n, k) * Fact(k) == Falling(n, k)
    decreases n
  {
    if 0 < k < n {
      var b1, b2 := Binom(n - 1, k - 1), Binom(n - 1, k);
      var f, F := Falling(n - 1, k - 1), Fact(k - 1);
      BinomFalling(n - 1, k - 1);
      BinomFalling(n - 1, k);
      FallingLast(n - 1, k - 1);
      assert Fact(k) == k * F;
      PascalStep(b1, b2, k, F, f, n);
    }
  }

  /** No factor of k! reaches the prime p when k < p. */
  lemma {:induction false} FactNotMultiple(k: nat, p: int)
    requires IsPrime(p) && k < p
    ensures Fact(k) % p != 0
  {
    if k > 0 {
      FactNotMultiple(k - 1, p);
      assert Fact(k) == k * Fact(k - 1);
      EuclidPrime(k, Fact(k - 1), p);
    }
  }
}
