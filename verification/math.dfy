/** The integer helpers of math.cpp: floor and ceiling division, the
    non-negative remainder, modular power, the modular inverse by the
    extended Euclidean algorithm, modular division and nCr modulo a prime.

    The C++ works on `long long` (and one `int` loop counter); the model
    uses unbounded integers, and models C++'s truncating `/` and `%` with
    `TDiv` and `TMod`.  The error messages written to the console on the
    error paths are not modelled; the returned values are.
 */
module IntMath {
  import opened Arith

  // ---------------------------------------------------------------------
  // div_floor and div_ceil

  lemma {:induction false} NegMul(b: int, q: int)
    ensures (-b) * q == -(b * q)
  {
  }

  /** With a positive divisor, truncation plus the correction for a
      negative remainder is the floor. */
  lemma {:induction false} FloorOfTruncation(a: int, b: int)
    requires b >= 1
    ensures var q := TDiv(a, b) - (if TMod(a, b) < 0 then 1 else 0);
            b * q <= a < b * q + b
  {
    TModCong(a, b);
    var t := TDiv(a, b);
    assert a == b * t + TMod(a, b);
    if TMod(a, b) < 0 {
      assert b * (t - 1) == b * t - b;
    }
  }

  /** With a positive divisor, the C++ ceiling expression. */
  lemma {:induction false} CeilOfTruncation(a: int, b: int)
    requires b >= 1
    ensures var q := if a >= 0 then TDiv(a + b - 1, b) else TDiv(a, b);
            b * q - b < a <= b * q
  {
    if a >= 0 {
      TModCong(a + b - 1, b);
      var t := TDiv(a + b - 1, b);
      assert a + b - 1 == b * t + (a + b - 1) % b;
    } else {
      TModCong(a, b);
      var t := TDiv(a, b);
      assert a == b * t + TMod(a, b);
    }
  }

  /** div_floor(a, b): the floor of a / b; 0 when b == 0. */
  function DivFloor(a: int, b: int): (r: int)
    ensures b == 0 ==> r == 0
    ensures b > 0 ==> b * r <= a < b * r + b
    ensures b < 0 ==> b * r >= a > b * r + b
  {
    if b == 0 then 0
    else
      var a', b' := if b < 0 then -a else a, if b < 0 then -b else b;
      var q := TDiv(a', b') - (if TMod(a', b') < 0 then 1 else 0);
      FloorOfTruncation(a', b');
      NegMul(b, q);
      q
  }

  /** div_ceil(a, b): the ceiling of a / b; 0 when b == 0. */
  function DivCeil(a: int, b: int): (r: int)
    ensures b == 0 ==> r == 0
    ensures b > 0 ==> b * r - b < a <= b * r
    ensures b < 0 ==> b * r - b > a >= b * r
  {
    if b == 0 then 0
    else
      var a', b' := if b < 0 then -a else a, if b < 0 then -b else b;
      var q := if a' >= 0 then TDiv(a' + b' - 1, b') else TDiv(a', b');
      CeilOfTruncation(a', b');
      NegMul(b, q);
      q
  }

  /** The floor is the only integer between a / b - 1 and a / b: for a
      positive divisor it is Euclidean division. */
  lemma {:induction false} DivFloorIsEuclidean(a: int, b: int)
    requires b > 0
    ensures DivFloor(a, b) == a / b
  {
    var q := DivFloor(a, b);
    DivModUnique(a, b, q, a - b * q);
  }

  /** At most one integer q has b * q - b < a <= b * q. */
  lemma {:induction false} CeilUnique(a: int, b: int, q1: int, q2: int)
    requires b >= 1
    requires b * q1 - b < a <= b * q1 && b * q2 - b < a <= b * q2
    ensures q1 == q2
  {
    if q1 < q2 {
      MulLe(b, q1 + 1, q2);
    } else if q1 > q2 {
      MulLe(b, q2 + 1, q1);
    }
  }

  /** For b > 0: the ceiling c of a / b and the floor f of -a / b. */
  lemma {:induction false} CeilFloorPositive(a: int, b: int, c: int, f: int)
    requires b > 0 && b * c - b < a <= b * c && b * f <= -a < b * f + b
    ensures c == -f
  {
    NegMul(f, b);
    assert b * (-f) - b < a <= b * (-f);
    CeilUnique(a, b, c, -f);
  }

  /** For b < 0: the ceiling c of a / b and the floor f of -a / b. */
  lemma {:induction false} CeilFloorNegative(a: int, b: int, c: int, f: int)
    requires b < 0 && b * c - b > a >= b * c && b * f >= -a > b * f + b
    ensures c == -f
  {
    NegMul(b, c);
    NegMul(-b, f);
    NegMul(f, -b);
    assert (-b) * c - (-b) < -a <= (-b) * c;
    assert (-b) * (-f) - (-b) < -a <= (-b) * (-f);
    CeilUnique(-a, -b, c, -f);
  }

  /** The ceiling is the negated floor of the negated dividend. */
  lemma {:induction false} DivCeilIsNegatedFloor(a: int, b: int)
    ensures DivCeil(a, b) == -DivFloor(-a, b)
  {
    var c, f := DivCeil(a, b), DivFloor(-a, b);
    if b > 0 {
      CeilFloorPositive(a, b, c, f);
    } else if b < 0 {
      CeilFloorNegative(a, b, c, f);
    }
  }

  // ---------------------------------------------------------------------
  // safe_mod

  /** safe_mod(x, m): for m > 0 the remainder of x in [0, m); 0 when
      m == 0.  For m < 0 it is the C++ expression as written. */
  function SafeMod(x: int, m: int): (r: int)
    ensures m == 0 ==> r == 0
    ensures m > 0 ==> 0 <= r < m && r == x % m
  {
    if m == 0 then 0 else Reduce(x, m)
  }

  /** safe_mod(x, m) does not see multiples of m. */
  lemma {:induction false} SafeModPeriodic(x: int, k: int, m: int)
    requires m > 0
    ensures SafeMod(x + m * k, m) == SafeMod(x, m)
  {
    ModAddMultiple(m, k, x);
  }

  // ---------------------------------------------------------------------
  // Power

  /** One round of Power's loop keeps ans * p^b unchanged modulo m. */
  lemma {:induction false} PowerStep(ans: int, p: int, b: int, m: int)
    requires m >= 1 && b >= 1
    ensures var ans' := if b % 2 == 1 then TMod(ans * p, m) else ans;
            (ans' * Pow(TMod(p * p, m), b / 2)) % m == (ans * Pow(p, b)) % m
  {
    var h, q := b / 2, TMod(p * p, m);
    TModCong(p * p, m);
    PowCong(q, p * p, h, m);
    PowSquare(p, h);
    if b % 2 == 1 {
      assert Pow(p, b) == p * Pow(p, 2 * h);
      TModCong(ans * p, m);
      CongMul(TMod(ans * p, m), ans * p, Pow(q, h), Pow(p, 2 * h), m);
      MulAssoc(ans, p, Pow(p, 2 * h));
    } else {
      assert b == 2 * h;
      CongMul(ans, ans, Pow(q, h), Pow(p, 2 * h), m);
    }
  }

  /** The loop of Power from the state (p, ans, b): while b > 0, an odd
      b multiplies ans by p, b is halved and p squared, each product
      reduced with the C++ `%`. */
  function PowerLoop(p: int, ans: int, b: int, m: int): (r: int)
    requires m >= 1
    ensures b <= 0 ==> r == ans
    ensures b > 0 ==> r % m == (ans * Pow(p, b)) % m
    ensures b > 0 && ans >= 0 && p >= 0 ==> 0 <= r < m
    decreases b
  {
    if b <= 0 then ans
    else
      var ans' := if b % 2 == 1 then TMod(ans * p, m) else ans;
      var p' := TMod(p * p, m);
      PowerStep(ans, p, b, m);
      TModCong(ans * p, m);
      TModCong(p * p, m);
      MulNonNeg(ans, p);
      MulNonNeg(p, p);
      PowerLoop(p', ans', b / 2, m)
  }

  /** Power(a, b, m) as written: a^b modulo m by repeated squaring.  It
      starts from ans = 1 without reducing it, so for m == 1 and b <= 0
      it returns 1 rather than 0. */
  function Power(a: int, b: int, m: int): (r: int)
    requires m >= 1
    ensures b <= 0 ==> r == 1
    ensures b > 0 ==> r % m == Pow(a, b) % m
    ensures b > 0 && a >= 0 ==> r == Pow(a, b) % m
    ensures m > 1 && a >= 0 && b >= 0 ==> r == Pow(a, b) % m
  {
    var r := PowerLoop(a, 1, b, m);
    SmallResidue(r, m);
    r
  }

  /** The case the as-written Power gets wrong: a^0 modulo 1 is 0. */
  lemma PowerModOne()
    ensures Power(5, 0, 1) == 1 && Pow(5, 0) % 1 == 0
  {
  }

  /** Power with the accumulator started at 1 % m: the residue of a^b
      for every modulus m >= 1 and every a >= 0, b >= 0. */
  function PowerReduced(a: int, b: int, m: int): (r: int)
    requires m >= 1
    ensures a >= 0 && b >= 0 ==> r == Pow(a, b) % m
  {
    var r := PowerLoop(a, TMod(1, m), b, m);
    TModCong(1, m);
    PowerReducedCong(a, b, m);
    SmallResidue(r, m);
    r
  }

  lemma {:induction false} PowerReducedCong(a: int, b: int, m: int)
    requires m >= 1
    ensures b > 0 ==> (TMod(1, m) * Pow(a, b)) % m == Pow(a, b) % m
  {
    if b > 0 {
      TModCong(1, m);
      CongMul(TMod(1, m), 1, Pow(a, b), Pow(a, b), m);
    }
  }

  // ---------------------------------------------------------------------
  // ModInv and Division

  /** ModInv(a, m): reduces a into [0, m), runs the extended Euclidean
      loop from (gcd, b, u, v) = (a, m, 1, 0), and returns u reduced into
      [0, m) when the gcd is 1, otherwise 0. */
  function ModInv(a: int, m: int): (r: int)
    requires m >= 1
    ensures 0 <= r < m
    ensures Gcd(a % m, m) == 1 ==> (a * r) % m == 1 % m
    ensures Gcd(a % m, m) != 1 ==> r == 0
  {
    var a0 := Reduce(a, m);
    assert 1 * a0 - a0 == 0;
    MulMod(m, -1);
    assert 0 * a0 - m == m * -1;
    var e := EuclidLoop(a0, m, 1, 0, a0, m);
    if e.0 != 1 then 0
    else
      InverseFromLoop(a, a0, e.1, m);
      Reduce(e.1, m)
  }

  /** The inverse in [0, m) is unique: ModInv finds the only one. */
  lemma {:induction false} ModInvUnique(a: int, m: int, u: int)
    requires m >= 1 && Gcd(a % m, m) == 1 && 0 <= u < m && (a * u) % m == 1 % m
    ensures u == ModInv(a, m)
  {
    var r := ModInv(a, m);
    assert u * a == a * u && r * a == a * r;
    CancelUnit(u, r, a, m);
    SmallResidue(u, m);
    SmallResidue(r, m);
  }

  lemma {:induction false} InverseFromLoop(a: int, a0: int, u: int, m: int)
    requires m >= 1 && a0 == a % m && (u * a0 - 1) % m == 0
    ensures (a * (u % m)) % m == 1 % m
  {
    CongAdd(u * a0 - 1, 0, 1, 1, m);
    ModMod(a, m);
    ModMod(u, m);
    CongMul(a, a0, u % m, u, m);
    assert a0 * u == u * a0;
  }

  /** A common divisor of x and m divides x % m. */
  lemma {:induction false} DividesResidue(x: int, m: int, g: int)
    requires m >= 1 && g >= 1 && x % g == 0 && m % g == 0
    ensures (x % m) % g == 0
  {
    MultipleComb(x, m, x / m, g);
    assert x - (x / m) * m == x % m;
  }

  /** When gcd(a mod m, m) != 1 no u makes a * u congruent to 1: the
      other direction of ModInv's contract. */
  lemma {:induction false} NoInverse(a: int, m: int, u: int)
    requires m >= 2 && Gcd(a % m, m) != 1
    ensures (a * u) % m != 1
  {
    var c := a % m;
    GcdDivides(c, m);
    var g := Gcd(c, m);
    if (a * u) % m == 1 {
      ModMulLeft(a, u, m);
      DivMul(c, g);
      MulAssoc(g, c / g, u);
      MulMod(g, (c / g) * u);
      DividesResidue(c * u, m, g);
      SmallResidue(1, g);
    }
  }

  lemma {:induction false} DivisionCongUnit(a: int, b: int, i: int, m: int)
    requires m >= 1 && (b * i) % m == 1 % m
    ensures (TMod(a * i, m) * b) % m == a % m
  {
    TModCong(a * i, m);
    CongMul(TMod(a * i, m), a * i, b, b, m);
    MulAssoc(a, i, b);
    assert i * b == b * i;
    CongMul(a, a, b * i, 1, m);
  }

  lemma {:induction false} DivisionRange(a: int, i: int, m: int)
    requires m >= 1 && 0 <= i < m
    ensures a >= 0 ==> 0 <= TMod(a * i, m) < m
    ensures i == 0 ==> TMod(a * i, m) == 0
  {
    TModCong(a * i, m);
    MulNonNeg(a, i);
    assert i == 0 ==> a * i == 0;
  }

  lemma {:induction false} DivisionCong(a: int, b: int, i: int, m: int)
    requires m >= 1
    requires Gcd(b % m, m) == 1 ==> (b * i) % m == 1 % m
    ensures Gcd(b % m, m) == 1 ==> (TMod(a * i, m) * b) % m == a % m
  {
    if Gcd(b % m, m) == 1 {
      DivisionCongUnit(a, b, i, m);
    }
  }

  /** Division(a, b, m): a times the inverse of b, reduced with the C++
      `%`.  It undoes multiplication by b when b is invertible modulo m. */
  function Division(a: int, b: int, m: int): (r: int)
    requires m >= 1
    ensures Gcd(b % m, m) == 1 ==> (r * b) % m == a % m
    ensures Gcd(b % m, m) != 1 ==> r == 0
    ensures a >= 0 ==> 0 <= r < m
  {
    var i := ModInv(b, m);
    DivisionRange(a, i, m);
    DivisionCong(a, b, i, m);
    TMod(a * i, m)
  }

  // ---------------------------------------------------------------------
  // Combination

  /** The loop `for (i = hi; i >= lo; i--) acc = (acc * i) % m`. */
  function ProdLoop(i: int, lo: int, acc: int, m: int): (r: int)
    requires m >= 1
    ensures i < lo ==> r == acc
    ensures 1 <= lo <= i && acc >= 0 ==> r == (acc * Falling(i, i - lo + 1)) % m
    decreases if i < lo then 0 else i - lo + 1
  {
    if i < lo then acc
    else
      ProdStep(i, lo, acc, m);
      ProdLoop(i - 1, lo, TMod(acc * i, m), m)
  }

  /** One round of the loop, for positive factors and accumulator: the
      C++ `%` is the residue, and the rest of the product is unchanged. */
  lemma {:induction false} ProdStep(i: int, lo: int, acc: int, m: int)
    requires m >= 1
    ensures 1 <= lo <= i && acc >= 0 ==> TMod(acc * i, m) == (acc * i) % m
    ensures 1 <= lo <= i && acc >= 0 && i == lo ==> (acc * i) % m == (acc * Falling(i, 1)) % m
    ensures 1 <= lo <= i && acc >= 0 && i > lo ==>
      (((acc * i) % m) * Falling(i - 1, i - lo)) % m == (acc * Falling(i, i - lo + 1)) % m
  {
    if 1 <= lo <= i && acc >= 0 {
      MulLe(acc, 0, i);
      TModCong(acc * i, m);
      if i > lo {
        var f := Falling(i - 1, i - lo);
        ModMulLeft(acc * i, f, m);
        MulAssoc(acc, i, f);
      }
    }
  }

  /** Combination(n, r, m) as written: with k = min(r, n - r), the
      product n * (n - 1) * ... * (n - k + 1) divided by k!, each reduced
      modulo m, the division done by Division.  This is C(n, r) mod m for
      a prime m above k; for a prime m <= k, k! is a multiple of m and the
      division has no inverse to work with. */
  function Combination(n: int, r: int, m: int): (c: int)
    requires m >= 1
    ensures IsPrime(m) && 0 <= r <= n && (if r > n - r then n - r else r) < m ==> c == Binom(n, r) % m
  {
    var k := if r > n - r then n - r else r;
    var num := ProdLoop(n, n - k + 1, 1, m);
    var den := ProdLoop(k, 1, 1, m);
    CombinationCorrect(n, r, m, k, num, den);
    Division(num, den, m)
  }

  /** For a prime modulus above k = min(r, n - r), k! is invertible, so
      dividing the two reduced products gives C(n, r) mod m. */
  lemma {:induction false} CombinationCorrect(n: int, r: int, m: int, k: int, num: int, den: int)
    requires m >= 1
    requires k == (if r > n - r then n - r else r)
    requires num == ProdLoop(n, n - k + 1, 1, m) && den == ProdLoop(k, 1, 1, m)
    ensures IsPrime(m) && 0 <= r <= n && k < m ==> Division(num, den, m) == Binom(n, r) % m
  {
    if IsPrime(m) && 0 <= r <= n && k < m {
      BinomSymmetric(n, r);
      assert Binom(n, r) == Binom(n, k);
      assert num == Falling(n, k) % m;
      assert den == Fact(k) % m;
      FactNotMultiple(k, m);
      ModMod(Fact(k), m);
      PrimeUnit(Fact(k), m);
      PrimeUnit(den, m);
      var ans := Division(num, den, m);
      BinomFalling(n, k);
      ModMod(Falling(n, k), m);
      ModMod(Fact(k), m);
      CongMul(ans, ans, Fact(k), den, m);
      CancelUnit(ans, Binom(n, k), Fact(k), m);
      DivModUnique(ans, m, 0, ans);
    }
  }

  /** The as-written Combination for a prime m <= k = min(r, n - r): k! is
      a multiple of m, ModInv(0, m) takes its error path, and the result
      is 0 whatever C(n, r) mod m is. */
  lemma {:induction false} CombinationSmallPrime(n: int, r: int, m: int)
    requires IsPrime(m) && 0 <= r <= n && m <= (if r > n - r then n - r else r)
    ensures Combination(n, r, m) == 0
  {
    var k := if r > n - r then n - r else r;
    var den := ProdLoop(k, 1, 1, m);
    FactMultiple(k, m);
    assert den == 0;
    assert Gcd(den % m, m) == m;
  }

  /** k! is a multiple of every m in [1, k]. */
  lemma {:induction false} FactMultiple(k: nat, m: int)
    requires 1 <= m <= k
    ensures Fact(k) % m == 0
  {
    var f := Fact(k - 1);
    assert Fact(k) == k * f;
    if m == k {
      ModAddMultiple(m, f, 0);
    } else {
      FactMultiple(k - 1, m);
      MultipleScaled(f, k, m);
    }
  }

  /** A multiple of m times anything is a multiple of m. */
  lemma {:induction false} MultipleScaled(f: int, k: int, m: int)
    requires m >= 1 && f % m == 0
    ensures (k * f) % m == 0
  {
    var q := f / m;
    DivMul(f, m);
    assert k * f == m * (k * q) by {
      MulAssoc(k, m, q);
    }
    ModAddMultiple(m, k * q, 0);
  }

  /** The smallest discrepancy: for the prime 3, C(6, 3) = 20 leaves 2,
      but Combination(6, 3, 3) is 0. */
  lemma CombinationSixThree()
    ensures IsPrime(3) && Combination(6, 3, 3) != Binom(6, 3) % 3
  {
    CombinationSmallPrime(6, 3, 3);
    BinomSixThree();
  }

  /** C(6, 3) = 120 / 3! = 20. */
  lemma BinomSixThree()
    ensures Binom(6, 3) == 20
  {
    assert Falling(3, 3) == 6 by {
      assert Falling(1, 1) == 1;
      assert Falling(2, 2) == 2 * Falling(1, 1);
    }
    assert Falling(6, 3) == 120 by {
      assert Falling(4, 1) == 4;
      assert Falling(5, 2) == 5 * Falling(4, 1);
    }
    BinomFalling(6, 3);
  }

  /** C(n, k) modulo m by Pascal's rule, each sum reduced. */
  function BinomMod(n: int, k: int, m: int): (c: int)
    requires m >= 1
    ensures c == Binom(n, k) % m
    decreases n
  {
    if k < 0 || k > n then 0
    else if k == 0 || k == n then 1 % m
    else
      var a, b := BinomMod(n - 1, k - 1, m), BinomMod(n - 1, k, m);
      ModMod(Binom(n - 1, k - 1), m);
      ModMod(Binom(n - 1, k), m);
      CongAdd(a, Binom(n - 1, k - 1), b, Binom(n - 1, k), m);
      (a + b) % m
  }

  /** Combination corrected for every prime modulus: the product formula
      of the source while k = min(r, n - r) is below m, Pascal's rule
      modulo m otherwise. */
  function CombinationCorrected(n: int, r: int, m: int): (c: int)
    requires m >= 1
    ensures IsPrime(m) && 0 <= r <= n ==> c == Binom(n, r) % m
  {
    var k := if r > n - r then n - r else r;
    if k < m then Combination(n, r, m)
    else
      BinomSymmetric(n, r);
      BinomMod(n, k, m)
  }
}
