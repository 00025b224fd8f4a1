/** The residue type `modint<MOD>` of modint.cpp: a value `_v` in [0, MOD)
    with arithmetic modulo MOD.

    The template argument becomes the parameter `M` of every operation, of
    type `Modulus` (the template admits 1 <= MOD <= INT32_MAX).  The C++
    keeps `_v` in an `unsigned int` and computes through `unsigned int`,
    `int`, `unsigned long long` and `long long` intermediates; the model
    writes each conversion out (`ToU32`, `ToI32`, `ToU64`) as the
    wrap-around it is, and the contracts show that for a valid residue none
    of them wraps.  The binary operators `+ - * /` apply the compound
    assignments to a copy of the left operand, so they are the same
    functions.
 */
module ModularInt {
  import opened Arith
  import IntMath

  const INT32_MAX: int := 0x7FFF_FFFF
  const U32: int := 0x1_0000_0000
  const U64: int := 0x1_0000_0000_0000_0000

  type Modulus = m: int | 1 <= m <= 0x7FFF_FFFF witness 1

  /** A modint; `v` is the field `_v`. */
  datatype ModInt = ModInt(v: int)

  /** The class invariant 0 <= _v < MOD. */
  predicate Valid(x: ModInt, M: Modulus) {
    0 <= x.v < M
  }

  /** Conversion to `unsigned int`: reduction modulo 2^32. */
  function ToU32(x: int): int {
    x % U32
  }

  /** Conversion to `unsigned long long`: reduction modulo 2^64. */
  function ToU64(x: int): int {
    x % U64
  }

  /** Conversion to `int`: two's complement wrap-around. */
  function ToI32(x: int): int {
    var w := x % U32;
    if w > INT32_MAX then w - U32 else w
  }

  /** A value within `int` survives the round trip through 32 bits. */
  lemma {:induction false} ToI32Fits(x: int)
    requires -INT32_MAX - 1 <= x <= INT32_MAX
    ensures ToI32(x) == x
  {
    if x < 0 {
      DivModUnique(x, U32, -1, x + U32);
    } else {
      SmallResidue(x, U32);
    }
  }

  /** (if s >= M then s - M else s) reduces a value below 2 * M. */
  lemma {:induction false} SubtractOnce(s: int, M: int)
    requires M >= 1 && 0 <= s < 2 * M
    ensures (if s >= M then s - M else s) == s % M
  {
    if s >= M {
      DivModUnique(s, M, 1, s - M);
    } else {
      SmallResidue(s, M);
    }
  }

  // ---------------------------------------------------------------------
  // Construction

  /** modint(): the residue 0. */
  function Zero(M: Modulus): (r: ModInt)
    ensures Valid(r, M)
  {
    ModInt(0)
  }

  /** modint(long long v): `p = v % umod(); if (p < 0) p += umod();`,
      stored as `unsigned int`.  The residue of v. */
  function FromInt(v: int, M: Modulus): (r: ModInt)
    requires -0x8000_0000_0000_0000 <= v < 0x8000_0000_0000_0000
    ensures Valid(r, M) && r.v == v % M
  {
    var p := Reduce(v, M);
    SmallResidue(p, U32);
    ModInt(ToU32(p))
  }

  /** The default constructor agrees with the converting one at 0. */
  lemma {:induction false} ZeroIsFromZero(M: Modulus)
    ensures Zero(M) == FromInt(0, M)
  {
    SmallResidue(0, M);
  }

  /** Two conversions give the same modint exactly when the integers are
      congruent modulo MOD: `modint<11>(5) == modint<11>(-6)`. */
  lemma {:induction false} FromIntEqual(a: int, b: int, M: Modulus)
    requires -0x8000_0000_0000_0000 <= a < 0x8000_0000_0000_0000
    requires -0x8000_0000_0000_0000 <= b < 0x8000_0000_0000_0000
    ensures Equal(FromInt(a, M), FromInt(b, M)) <==> a % M == b % M
  {
  }

  // ---------------------------------------------------------------------
  // Increment and decrement

  /** Prefix ++: `_v++`, then `_v = 0` when it reached MOD. */
  function Inc(x: ModInt, M: Modulus): (r: ModInt)
    requires Valid(x, M)
    ensures Valid(r, M) && r.v == (x.v + 1) % M
  {
    var w := ToU32(x.v + 1);
    SmallResidue(x.v + 1, U32);
    SubtractOnce(x.v + 1, M);
    if w == M then ModInt(0) else ModInt(w)
  }

  /** Prefix --: `_v = umod()` when it was 0, then `_v--`. */
  function Dec(x: ModInt, M: Modulus): (r: ModInt)
    requires Valid(x, M)
    ensures Valid(r, M) && r.v == (x.v - 1) % M
  {
    var w := if x.v == 0 then M else x.v;
    SmallResidue(w - 1, U32);
    if x.v == 0 then
      DivModUnique(x.v - 1, M, -1, M - 1);
      ModInt(ToU32(w - 1))
    else
      SmallResidue(x.v - 1, M);
      ModInt(ToU32(w - 1))
  }

  /** Postfix ++: returns the old value; the object becomes Inc(x). */
  function PostInc(x: ModInt, M: Modulus): (r: (ModInt, ModInt))
    requires Valid(x, M)
    ensures r.0 == x && Valid(r.1, M) && r.1.v == (x.v + 1) % M
  {
    (x, Inc(x, M))
  }

  /** Postfix --: returns the old value; the object becomes Dec(x). */
  function PostDec(x: ModInt, M: Modulus): (r: (ModInt, ModInt))
    requires Valid(x, M)
    ensures r.0 == x && Valid(r.1, M) && r.1.v == (x.v - 1) % M
  {
    (x, Dec(x, M))
  }

  /** ++ and -- undo each other. */
  lemma {:induction false} IncDecInverse(x: ModInt, M: Modulus)
    requires Valid(x, M)
    ensures Dec(Inc(x, M), M) == x && Inc(Dec(x, M), M) == x
  {
    SubtractOnce(x.v + 1, M);
    if x.v == 0 {
      DivModUnique(x.v - 1, M, -1, M - 1);
      SubtractOnce(M, M);
    } else {
      SmallResidue(x.v - 1, M);
      SmallResidue(x.v, M);
    }
    var i := Inc(x, M);
    if i.v == 0 {
      DivModUnique(i.v - 1, M, -1, M - 1);
    } else {
      SmallResidue(i.v - 1, M);
    }
  }

  // ---------------------------------------------------------------------
  // Arithmetic

  /** +=: `_v += rhs._v` in `unsigned int`, then subtract MOD once if
      needed.  The sum of two residues stays below 2^32. */
  function Add(x: ModInt, y: ModInt, M: Modulus): (r: ModInt)
    requires Valid(x, M) && Valid(y, M)
    ensures Valid(r, M) && r.v == (x.v + y.v) % M
  {
    var z := ToU32(x.v + y.v);
    SmallResidue(x.v + y.v, U32);
    SubtractOnce(x.v + y.v, M);
    SmallResidue(z - M, U32);
    if z >= M then ModInt(ToU32(z - M)) else ModInt(z)
  }

  /** -=: `int z = _v; z -= rhs._v; if (z < 0) z += umod();` then
      `_v = z % mod()`.  Every intermediate stays within `int`. */
  function Sub(x: ModInt, y: ModInt, M: Modulus): (r: ModInt)
    requires Valid(x, M) && Valid(y, M)
    ensures Valid(r, M) && r.v == (x.v - y.v) % M
  {
    var z := ToI32(x.v);
    var z' := ToI32(z - y.v);
    var z'' := if z' < 0 then ToI32(z' + M) else z';
    SubSteps(x.v, y.v, M);
    ModInt(ToU32(TMod(z'', M)))
  }

  /** The intermediates of -= never leave `int`, and the last `%` finds
      the residue. */
  lemma {:induction false} SubSteps(a: int, b: int, M: Modulus)
    requires 0 <= a < M && 0 <= b < M
    ensures ToI32(a) == a && ToI32(a - b) == a - b
    ensures a - b < 0 ==> ToI32(a - b + M) == a - b + M
    ensures var z := if a - b < 0 then a - b + M else a - b;
            0 <= TMod(z, M) < M && TMod(z, M) == (a - b) % M && ToU32(TMod(z, M)) == TMod(z, M)
  {
    ToI32Fits(a);
    ToI32Fits(a - b);
    if a - b < 0 {
      ToI32Fits(a - b + M);
      DivModUnique(a - b, M, -1, a - b + M);
    } else {
      SmallResidue(a - b, M);
    }
    var z := if a - b < 0 then a - b + M else a - b;
    TModCong(z, M);
    SmallResidue(z, M);
    SmallResidue(z, U32);
  }

  /** The product of two residues stays below 2^64. */
  lemma {:induction false} ProductFits(a: int, b: int)
    requires 0 <= a <= INT32_MAX && 0 <= b <= INT32_MAX
    ensures 0 <= a * b < U64
  {
    MulLe(a, b, INT32_MAX);
    MulLe(INT32_MAX, a, INT32_MAX);
  }

  /** *=: the product in `unsigned long long`, reduced modulo MOD. */
  function Mul(x: ModInt, y: ModInt, M: Modulus): (r: ModInt)
    requires Valid(x, M) && Valid(y, M)
    ensures Valid(r, M) && r.v == (x.v * y.v) % M
  {
    var z := ToU64(x.v);
    SmallResidue(x.v, U64);
    ProductFits(x.v, y.v);
    SmallResidue(x.v * y.v, U64);
    var z' := ToU64(z * y.v);
    SmallResidue(z' % M, U32);
    ModInt(ToU32(z' % M))
  }

  /** Unary minus: `modint() - *this`. */
  function Neg(x: ModInt, M: Modulus): (r: ModInt)
    requires Valid(x, M)
    ensures Valid(r, M) && r.v == (-x.v) % M
  {
    Sub(Zero(M), x, M)
  }

  /** x + (-x) == 0. */
  lemma {:induction false} NegCancels(x: ModInt, M: Modulus)
    requires Valid(x, M)
    ensures Add(x, Neg(x, M), M).v == 0
  {
    var n := Neg(x, M);
    AddNegated(x.v, n.v, M);
  }

  lemma {:induction false} AddNegated(a: int, n: int, M: int)
    requires M >= 1 && n == (-a) % M
    ensures (a + n) % M == 0
  {
    ModMod(-a, M);
    CongAdd(a, a, n, -a, M);
    assert a + -a == 0;
  }

  // ---------------------------------------------------------------------
  // Inverse and division

  /** inv(): the extended Euclidean loop from (gcd, b, u, v) =
      (_v, MOD, 1, 0); 0 when the gcd is not 1, otherwise u reduced into
      [0, MOD) and passed through the converting constructor. */
  function Inv(x: ModInt, M: Modulus): (r: ModInt)
    requires Valid(x, M)
    ensures Valid(r, M)
    ensures Gcd(x.v, M) == 1 ==> (x.v * r.v) % M == 1 % M
    ensures Gcd(x.v, M) != 1 ==> r.v == 0
  {
    assert 1 * x.v - x.v == 0;
    MulMod(M, -1);
    assert 0 * x.v - M == M * -1;
    var e := EuclidLoop(x.v, M, 1, 0, x.v, M);
    if e.0 != 1 then
      SmallResidue(0, M);
      FromInt(0, M)
    else
      var u := Reduce(e.1, M);
      SmallResidue(u, U32);
      SmallResidue(u, M);
      SmallResidue(x.v, M);
      IntMath.InverseFromLoop(x.v, x.v, e.1, M);
      FromInt(ToU32(u), M)
  }

  /** inv() is ModInv of math.cpp on the stored residue. */
  lemma {:induction false} InvIsModInv(x: ModInt, M: Modulus)
    requires Valid(x, M)
    ensures Inv(x, M).v == IntMath.ModInv(x.v, M)
  {
    SmallResidue(x.v, M);
    var r := Inv(x, M);
    if Gcd(x.v, M) == 1 {
      IntMath.ModInvUnique(x.v, M, r.v);
    }
  }

  lemma {:induction false} DivCong(a: int, b: int, i: int, M: int)
    requires M >= 1 && 0 <= a < M && (b * i) % M == 1 % M
    ensures (((a * i) % M) * b) % M == a
  {
    ModMulLeft(a * i, b, M);
    MulAssoc(a, i, b);
    assert i * b == b * i;
    CongMul(a, a, i * b, 1, M);
    SmallResidue(a, M);
  }

  /** /=: multiplication by inv().  It undoes multiplication by y when y
      is invertible, and gives 0 otherwise. */
  function Div(x: ModInt, y: ModInt, M: Modulus): (r: ModInt)
    requires Valid(x, M) && Valid(y, M)
    ensures Valid(r, M)
    ensures Gcd(y.v, M) == 1 ==> (r.v * y.v) % M == x.v
    ensures Gcd(y.v, M) != 1 ==> r.v == 0
  {
    var i := Inv(y, M);
    DivByInverse(x, y, i, M);
    Mul(x, i, M)
  }

  lemma {:induction false} DivByInverse(x: ModInt, y: ModInt, i: ModInt, M: Modulus)
    requires Valid(x, M) && Valid(y, M) && Valid(i, M)
    requires Gcd(y.v, M) == 1 ==> (y.v * i.v) % M == 1 % M
    requires Gcd(y.v, M) != 1 ==> i.v == 0
    ensures Gcd(y.v, M) == 1 ==> (((x.v * i.v) % M) * y.v) % M == x.v
    ensures Gcd(y.v, M) != 1 ==> (x.v * i.v) % M == 0
  {
    if Gcd(y.v, M) == 1 {
      DivCong(x.v, y.v, i.v, M);
    } else {
      assert x.v * i.v == 0;
    }
  }

  /** Adding y back after subtracting it restores x. */
  lemma {:induction false} SubThenAdd(x: ModInt, y: ModInt, M: Modulus)
    requires Valid(x, M) && Valid(y, M)
    ensures Add(Sub(x, y, M), y, M) == x
  {
    ModAddLeft(x.v - y.v, y.v, M);
    SmallResidue(x.v, M);
  }

  /** Dividing by an invertible y undoes multiplying by it. */
  lemma {:induction false} DivUndoesMul(x: ModInt, y: ModInt, M: Modulus)
    requires Valid(x, M) && Valid(y, M) && Gcd(y.v, M) == 1
    ensures Div(Mul(x, y, M), y, M) == x
  {
    var r := Div(Mul(x, y, M), y, M);
    SmallResidue(y.v, M);
    CancelUnit(r.v, x.v, y.v, M);
    SmallResidue(r.v, M);
    SmallResidue(x.v, M);
  }

  // ---------------------------------------------------------------------
  // Comparison

  /** ==: compares the residues, which is equality of the modints. */
  function Equal(x: ModInt, y: ModInt): (b: bool)
    ensures b <==> x == y
  {
    x.v == y.v
  }

  /** !=: written separately in the source, it is the negation of ==. */
  function NotEqual(x: ModInt, y: ModInt): (b: bool)
    ensures b <==> !Equal(x, y)
    ensures b <==> x != y
  {
    x.v != y.v
  }

  // ---------------------------------------------------------------------
  // Power

  /** One round of pow's loop keeps r * p^n unchanged modulo MOD. */
  lemma {:induction false} PowStep(p: ModInt, r: ModInt, n: int, M: Modulus)
    requires Valid(p, M) && Valid(r, M) && n >= 1
    ensures var r' := if n % 2 == 1 then Mul(r, p, M) else r;
            (r'.v * Pow(Mul(p, p, M).v, n / 2)) % M == (r.v * Pow(p.v, n)) % M
  {
    MulNonNeg(r.v, p.v);
    MulNonNeg(p.v, p.v);
    TModCong(r.v * p.v, M);
    TModCong(p.v * p.v, M);
    IntMath.PowerStep(r.v, p.v, n, M);
  }

  /** The loop of pow() from the state (p, r, n): while n > 0, an odd n
      multiplies r by p, then p is squared and n halved. */
  function PowLoop(p: ModInt, r: ModInt, n: int, M: Modulus): (res: ModInt)
    requires Valid(p, M) && Valid(r, M)
    ensures Valid(res, M)
    ensures n <= 0 ==> res == r
    ensures n > 0 ==> res.v == (r.v * Pow(p.v, n)) % M
    decreases n
  {
    if n <= 0 then r
    else
      var r' := if n % 2 == 1 then Mul(r, p, M) else r;
      PowStep(p, r, n, M);
      SmallResidue(r'.v, M);
      PowLoop(Mul(p, p, M), r', n / 2, M)
  }

  /** pow(n): v^n modulo MOD for n >= 0; modint(1) for n < 0. */
  function PowN(x: ModInt, n: int, M: Modulus): (r: ModInt)
    requires Valid(x, M)
    ensures Valid(r, M)
    ensures n < 0 ==> r == FromInt(1, M)
    ensures n >= 0 ==> r.v == Pow(x.v, n) % M
  {
    var one := FromInt(1, M);
    if n < 0 then one
    else
      PowFromOne(x.v, n, M);
      PowLoop(x, one, n, M)
  }

  lemma {:induction false} PowFromOne(a: int, n: int, M: Modulus)
    requires n >= 0
    ensures n == 0 ==> 1 % M == Pow(a, n) % M
    ensures n > 0 ==> ((1 % M) * Pow(a, n)) % M == Pow(a, n) % M
  {
    if n > 0 {
      ModMulLeft(1, Pow(a, n), M);
    }
  }

  /** The worked example `modint<6>(11).pow(1001001002) == 1`: 11 is 5
      modulo 6, and 5 * 5 == 25 is 1 modulo 6. */
  lemma PowExample()
    ensures PowN(FromInt(11, 6), 1001001002, 6).v == 1
  {
    var k := 500500501;
    PowSquare(5, k);
    PowCong(25, 1, k, 6);
    PowOfOne(k);
  }

  /** The step 1^k == 1 of the example, by Dafny's own induction. */
  lemma PowOfOne(k: nat)
    ensures Pow(1, k) == 1
  {
  }

  /** The worked examples of the constructor, ++ and --. */
  lemma ExamplesStep()
    ensures FromInt(9, 7).v == 2
    ensures Inc(FromInt(10, 11), 11).v == 0 && Dec(FromInt(0, 5), 5).v == 4
  {
  }

  /** The worked examples of - with the largest modulus. */
  lemma ExamplesSub()
    ensures Sub(FromInt(0, INT32_MAX), FromInt(INT32_MAX - 1, INT32_MAX), INT32_MAX).v == 1
    ensures Sub(FromInt(0, INT32_MAX), FromInt(1, INT32_MAX), INT32_MAX).v == INT32_MAX - 1
  {
    var M := INT32_MAX;
    var zero, one, top := FromInt(0, M), FromInt(1, M), FromInt(M - 1, M);
    SmallResidue(0, M);
    SmallResidue(1, M);
    SmallResidue(M - 1, M);
    DivModUnique(0 - (M - 1), M, -1, 1);
    DivModUnique(0 - 1, M, -1, M - 1);
  }

  /** The worked examples of * with the largest modulus. */
  lemma ExamplesMul()
    ensures Mul(FromInt(INT32_MAX - 1, INT32_MAX), FromInt(INT32_MAX - 1, INT32_MAX), INT32_MAX).v == 1
    ensures Mul(FromInt(INT32_MAX - 2, INT32_MAX), FromInt(INT32_MAX - 3, INT32_MAX), INT32_MAX).v == 6
  {
    var M := INT32_MAX;
    SmallResidue(M - 1, M);
    SmallResidue(M - 2, M);
    SmallResidue(M - 3, M);
    DivModUnique((M - 1) * (M - 1), M, M - 2, 1);
    DivModUnique((M - 2) * (M - 3), M, M - 5, 6);
  }

  /** The worked examples of == and !=. */
  lemma ExamplesCompare()
    ensures Equal(FromInt(5, 11), FromInt(-6, 11)) && !NotEqual(FromInt(5, 7), FromInt(12, 7))
  {
  }

  /** The worked example of unary minus. */
  lemma ExampleNeg()
    ensures Neg(FromInt(3, 11), 11).v == 8
  {
    var x := FromInt(3, 11);
    assert x.v == 3;
  }

  /** modint<13>(10) / 13: 13 is 0 modulo 13, which has no inverse. */
  lemma ExampleNoInverse()
    ensures Div(FromInt(10, 13), FromInt(13, 13), 13).v == 0
  {
  }
}
