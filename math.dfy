// Exponentiation by squaring modulo 2^64, as `Wrapping<u64>` multiplication
// computes it.

module Math {
  import opened Bytes

  /** `b` to the power `e`, over the unbounded integers. */
  function Pow(b: nat, e: nat): nat
    decreases e
  {
    if e == 0 then 1 else b * Pow(b, e - 1)
  }

  /** Multiplying by the same factor keeps an order. */
  lemma MulLeft(a: nat, b: nat, c: nat)
    requires b <= c
    ensures a * b <= a * c
  {
  }

  /** Multiplying both sides by the same factor keeps an order. */
  lemma MulRight(a: nat, b: nat, c: nat)
    requires a <= b
    ensures a * c <= b * c
  {
  }

  /** `(h * b + d) * p` spread out. */
  lemma Distribute(h: nat, b: nat, d: nat, p: nat)
    ensures h * (b * p) + d * p == (h * b + d) * p
  {
  }

  /**
   * Appending digit `d` to a numeral `h` in base `b`, both shifted by `p`:
   * the two shares add up to the new numeral shifted, and neither exceeds it.
   */
  lemma ShiftDigit(h: nat, b: nat, d: nat, p: nat, q: nat, hn: nat)
    requires hn == h * b + d && q == b * p
    ensures h * q + d * p == hn * p
    ensures h * q <= hn * p && d * p <= hn * p
  {
    Distribute(h, b, d, p);
  }

  /** One more factor of the base. */
  lemma PowSucc(b: nat, e: nat)
    ensures Pow(b, e + 1) == b * Pow(b, e)
  {
  }

  /** A quotient is zero exactly when the dividend is below the divisor. */
  lemma DivZero(v: nat, d: nat)
    requires d >= 1
    ensures v / d == 0 <==> v < d
    ensures v < d ==> v % d == v
    ensures v / d <= v && (v >= d && d >= 2 ==> v / d < v)
  {
  }

  /** Euclidean division by a positive divisor. */
  lemma DivBounds(v: nat, d: nat)
    requires d >= 1
    ensures v == d * (v / d) + v % d && v % d < d
    ensures d * (v / d) <= v
    ensures v >= d ==> v / d >= 1
    ensures d >= 2 && v >= 1 ==> v / d < v
  {
  }

  /** The product of two `u64`s as `Wrapping` multiplies them: modulo 2^64. */
  function WrappingMul(a: u64, b: u64): (r: u64)
  {
    (a * b) % U64_MODULUS
  }

  lemma {:induction false} PowAdd(b: nat, m: nat, n: nat)
    ensures Pow(b, m + n) == Pow(b, m) * Pow(b, n)
    decreases m
  {
    if m > 0 {
      PowAdd(b, m - 1, n);
      PowSucc(b, m - 1 + n);
      PowSucc(b, m - 1);
      MulAssoc(b, Pow(b, m - 1), Pow(b, n));
    }
  }

  lemma MulAssoc(a: nat, b: nat, c: nat)
    ensures a * (b * c) == (a * b) * c
  {
  }

  /** Squaring the base halves the exponent. */
  lemma {:induction false} PowSquare(b: nat, n: nat)
    ensures Pow(b * b, n) == Pow(b, 2 * n)
    decreases n
  {
    if n > 0 {
      PowSquare(b, n - 1);
      PowAdd(b, 2, 2 * (n - 1));
      assert Pow(b, 2) == b * b;
      assert 2 * n == 2 + 2 * (n - 1);
    }
  }

  /** Reducing the base first does not change a power's residue modulo 2^64. */
  lemma {:induction false} PowMod(b: nat, n: nat)
    ensures Pow(b % U64_MODULUS, n) % U64_MODULUS == Pow(b, n) % U64_MODULUS
    decreases n
  {
    if n > 0 {
      var M := U64_MODULUS;
      var c := b % M;
      var x, y := Pow(c, n - 1), Pow(b, n - 1);
      PowMod(b, n - 1);
      assert x % M == y % M;
      assert c % M == c;
      assert Pow(c, n) == c * x;
      assert Pow(b, n) == b * y;
      MulMod(c, x);
      MulMod(b, y);
    }
  }

  /** A product's residue modulo 2^64 depends only on the factors' residues. */
  lemma MulMod(x: nat, y: nat)
    ensures (x * y) % U64_MODULUS == ((x % U64_MODULUS) * (y % U64_MODULUS)) % U64_MODULUS
  {
    var M := U64_MODULUS;
    var qx, rx := x / M, x % M;
    var qy, ry := y / M, y % M;
    MulExpand(x, y, qx, rx, qy, ry, M);
    ModMultiple(qx * qy * M + qx * ry + rx * qy, rx * ry);
  }

  /** Multiplying out two numbers written as quotient and remainder. */
  lemma MulExpand(x: nat, y: nat, qx: nat, rx: nat, qy: nat, ry: nat, m: nat)
    requires x == qx * m + rx && y == qy * m + ry
    ensures x * y == (qx * qy * m + qx * ry + rx * qy) * m + rx * ry
  {
  }

  /** Reducing the left summand first does not change a sum's residue. */
  lemma AddMod(a: nat, c: nat)
    ensures (a % U64_MODULUS + c) % U64_MODULUS == (a + c) % U64_MODULUS
  {
    ModMultiple(a / U64_MODULUS, a % U64_MODULUS + c);
  }

  /** Adding a multiple of 2^64 does not change a residue. */
  lemma ModMultiple(k: nat, r: nat)
    ensures (k * U64_MODULUS + r) % U64_MODULUS == r % U64_MODULUS
  {
  }

  /**
   * `base` to the power `exp` modulo 2^64, by repeated squaring: first the
   * factors of two are stripped from `exp`, then the remaining bits are
   * folded into an accumulator.
   */
  method WrappingPow(base: u64, exp: nat) returns (r: u64)
    ensures r == Pow(base, exp) % U64_MODULUS
  {
    if exp == 0 {
      return 1;
    }
    var b, e := StripEven(base, exp);
    if e == 1 {
      assert Pow(b, 1) == b * 1;
      return b;
    }
    r := FoldBits(b, e);
  }

  /** The first loop of `wrapping_pow`: square the base while the exponent is even. */
  method StripEven(base: u64, exp: nat) returns (b: u64, e: nat)
    requires exp > 0
    ensures e % 2 == 1 && Pow(b, e) % U64_MODULUS == Pow(base, exp) % U64_MODULUS
  {
    b, e := base, exp;
    while e % 2 == 0
      invariant e > 0
      invariant Pow(b, e) % U64_MODULUS == Pow(base, exp) % U64_MODULUS
      decreases e
    {
      SquareStep(b, e);
      b := WrappingMul(b, b);
      e := e / 2;
    }
  }

  /**
   * The second loop of `wrapping_pow`: halve the odd exponent, square the
   * base and multiply it into the accumulator whenever the new exponent is odd.
   */
  method FoldBits(base: u64, exp: nat) returns (acc: u64)
    requires exp > 1 && exp % 2 == 1
    ensures acc == Pow(base, exp) % U64_MODULUS
  {
    ghost var target := Pow(base, exp) % U64_MODULUS;
    var b, e := base, exp;
    acc := b;
    assert (acc * Pow(b, e - e % 2)) % U64_MODULUS == target by {
      assert e - e % 2 == e - 1;
      PowSucc(b, e - 1);
    }
    while e > 1
      invariant e >= 1
      invariant (acc * Pow(b, e - e % 2)) % U64_MODULUS == target
      decreases e
    {
      AccumulateStep(acc, b, e);
      e := e / 2;
      b := WrappingMul(b, b);
      if e % 2 == 1 {
        acc := WrappingMul(acc, b);
      }
    }
    assert acc * Pow(b, e - e % 2) == acc * 1;
  }

  /** The first loop's step: square the base, halve the even exponent. */
  lemma SquareStep(b: u64, e: nat)
    requires e > 0 && e % 2 == 0
    ensures Pow(WrappingMul(b, b), e / 2) % U64_MODULUS == Pow(b, e) % U64_MODULUS
  {
    PowMod(b * b, e / 2);
    PowSquare(b, e / 2);
  }

  /** The second loop's step keeps `acc * b^(e - e % 2)` fixed modulo 2^64. */
  lemma AccumulateStep(acc: u64, b: u64, e: nat)
    requires e > 1
    ensures var e' := e / 2;
            var b' := WrappingMul(b, b);
            var acc' := if e' % 2 == 1 then WrappingMul(acc, b') else acc;
            (acc' * Pow(b', e' - e' % 2)) % U64_MODULUS == (acc * Pow(b, e - e % 2)) % U64_MODULUS
  {
    var e' := e / 2;
    var b' := WrappingMul(b, b);
    // b^(e - e % 2) is (b*b)^e', whose residue only depends on b' = b*b mod 2^64.
    assert e - e % 2 == 2 * e';
    PowSquare(b, e');
    PowMod(b * b, e');
    ModCongruent(acc, Pow(b', e'), Pow(b * b, e'));
    if e' % 2 == 1 {
      PowSucc(b', e' - 1);
      MulAssoc(acc, b', Pow(b', e' - 1));
      ModFactor(acc * b', Pow(b', e' - 1));
    }
  }

  /** Factors with the same residue give products with the same residue. */
  lemma ModCongruent(a: nat, x: nat, y: nat)
    requires x % U64_MODULUS == y % U64_MODULUS
    ensures (a * x) % U64_MODULUS == (a * y) % U64_MODULUS
  {
    MulMod(a, x);
    MulMod(a, y);
  }

  /** Reducing the left factor first does not change a product's residue. */
  lemma ModFactor(x: nat, y: nat)
    ensures (x * y) % U64_MODULUS == ((x % U64_MODULUS) * y) % U64_MODULUS
  {
    var M := U64_MODULUS;
    var r := x % M;
    MulMod(x, y);
    MulMod(r, y);
    assert r % M == r;
  }
}
