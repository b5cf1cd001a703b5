/**
 * C++ integer semantics on Dafny's unbounded integers.
 *
 * Dafny's `/` and `%` are Euclidean; C++ `/` truncates toward zero and `%`
 * takes the sign of the dividend.  `Quot` and `Rem` are the C++ operators.
 * Narrowing casts (`static_cast<int32_t>` and friends) keep the low bits of
 * the two's-complement representation; `WrapSigned`/`WrapUnsigned` say that.
 */
module CInt {

  function Abs(x: int): (r: int)
    ensures r >= 0 && (r == x || r == -x)
    ensures r == 0 <==> x == 0
  {
    if x < 0 then -x else x
  }

  function Pow(b: int, e: nat): (r: int)
    ensures b > 0 ==> r > 0
  {
    if e == 0 then 1 else b * Pow(b, e - 1)
  }

  lemma {:induction false} PowAdd(b: int, e1: nat, e2: nat)
    ensures Pow(b, e1 + e2) == Pow(b, e1) * Pow(b, e2)
  {
    if e1 > 0 {
      PowAdd(b, e1 - 1, e2);
      var p, r := Pow(b, e1 - 1), Pow(b, e2);
      assert Pow(b, e1 + e2) == b * (p * r);
      MulAssociates(b, p, r);
    }
  }

  lemma MulAssociates(a: int, b: int, c: int)
    ensures a * (b * c) == (a * b) * c
  {
  }

  lemma MulRearrange(a: int, b: int, c: int, d: int)
    ensures (a * b) * (c * d) == (a * c) * (b * d)
  {
  }

  // ---------------------------------------------------------------------
  // Euclidean facts used below
  // ---------------------------------------------------------------------

  lemma MulAtLeast(a: int, b: int)
    requires a > 0 && b > 0
    ensures a * b >= b
  {
  }

  lemma MulMonotone(a: int, b: int, c: int)
    requires a <= b && c >= 0
    ensures a * c <= b * c
  {
  }

  lemma MulAbs(a: int, b: int)
    ensures Abs(a * b) == Abs(a) * Abs(b)
    ensures a * b >= 0 <==> (a == 0 || b == 0 || (a > 0) == (b > 0))
  {
  }

  /** The quotient and remainder of a Euclidean division are unique. */
  lemma DivModUnique(a: int, b: int, q: int, r: int)
    requires b > 0 && a == q * b + r && 0 <= r < b
    ensures a / b == q && a % b == r
  {
    var q', r' := a / b, a % b;
    assert a == q' * b + r';
    assert (q - q') * b == r' - r;
    if q > q' {
      MulAtLeast(q - q', b);
    } else if q < q' {
      MulAtLeast(q' - q, b);
    }
  }

  /** Dafny's `/` and `%` are Euclidean. */
  lemma Euclid(x: int, d: int)
    requires d > 0
    ensures x == (x / d) * d + x % d && 0 <= x % d < d
  {
  }

  lemma DivMulCancel(a: nat, b: int, k: int)
    requires b > 0 && k > 0
    ensures (k * a) / (k * b) == a / b
  {
    var q, r := a / b, a % b;
    assert a == q * b + r;
    assert k * a == q * (k * b) + k * r;
    assert k * r < k * b;
    DivModUnique(k * a, k * b, q, k * r);
  }

  /** Dividing by `a` and then by `b` is dividing by `a * b` (floor division). */
  lemma DivDiv(x: int, a: int, b: int)
    requires a > 0 && b > 0
    ensures (x / a) / b == x / (a * b)
    ensures x % (a * b) == a * ((x / a) % b) + x % a
  {
    var q, r := x / a, x % a;
    var k, s := q / b, q % b;
    Euclid(x, a);
    Euclid(q, b);
    DivDivShape(a, b, q, k, s);
    DivModUnique(x, a * b, k, s * a + r);
  }

  lemma DivDivShape(a: int, b: int, q: int, k: int, s: int)
    requires a > 0 && 0 <= s < b && q == k * b + s
    ensures q * a == k * (a * b) + s * a
    ensures 0 <= s * a && s * a + a <= a * b
  {
    MulMonotone(s, b - 1, a);
  }

  // ---------------------------------------------------------------------
  // C++ division
  // ---------------------------------------------------------------------

  /** C++ `x / d`: the quotient truncated toward zero. */
  function Quot(x: int, d: int): int
    requires d != 0
  {
    if (x >= 0) == (d > 0) then Abs(x) / Abs(d) else -(Abs(x) / Abs(d))
  }

  /** C++ `x % d`: what is left after `Quot`. */
  function Rem(x: int, d: int): int
    requires d != 0
  {
    x - Quot(x, d) * d
  }

  /**
   * `Quot` truncates toward zero: the quotient's magnitude is the largest
   * whose multiple of `|d|` does not exceed `|x|` ...
   */
  lemma QuotBounds(x: int, d: int)
    requires d != 0
    ensures Abs(Quot(x, d)) * Abs(d) <= Abs(x) < Abs(Quot(x, d)) * Abs(d) + Abs(d)
  {
    var a, b := Abs(x), Abs(d);
    var q, m := a / b, a % b;
    assert a == q * b + m && 0 <= m < b;
    assert Abs(Quot(x, d)) == q;
  }

  /** ... and its sign is the sign of the exact quotient. */
  lemma QuotSign(x: int, d: int)
    requires d != 0
    ensures Quot(x, d) == 0 || ((Quot(x, d) > 0) <==> ((x > 0) == (d > 0)))
  {
    var a, b := Abs(x), Abs(d);
    var q: int := a / b;
    assert q >= 0;
    if x == 0 {
      assert q == 0;
    }
  }

  /** `Rem` is smaller than the divisor in magnitude and takes the sign of the dividend. */
  lemma RemBounds(x: int, d: int)
    requires d != 0
    ensures Abs(Rem(x, d)) < Abs(d)
    ensures Rem(x, d) == 0 || ((Rem(x, d) > 0) <==> (x > 0))
  {
    var a, b := Abs(x), Abs(d);
    var q: int, m: int := a / b, a % b;
    Euclid(a, b);
    RemMagnitude(x, d, Quot(x, d), q);
  }

  lemma RemMagnitude(x: int, d: int, r: int, q: int)
    requires d != 0 && q >= 0
    requires r == if (x >= 0) == (d > 0) then q else -q
    ensures x - r * d == if x >= 0 then Abs(x) - q * Abs(d) else -(Abs(x) - q * Abs(d))
  {
    var b := Abs(d);
    if d > 0 {
      assert d == b;
    } else {
      assert d == -b;
      MulNegate(r, b);
    }
    MulNegate(q, b);
  }

  lemma MulNegate(a: int, b: int)
    ensures (-a) * b == -(a * b) && a * (-b) == -(a * b)
  {
  }

  lemma QuotNonNeg(x: nat, d: int)
    requires d > 0
    ensures Quot(x, d) == x / d && Rem(x, d) == x % d
  {
  }

  lemma QuotNeg(x: int, d: int)
    requires d != 0
    ensures Quot(-x, d) == -Quot(x, d) && Rem(-x, d) == -Rem(x, d)
    ensures Quot(x, -d) == -Quot(x, d)
  {
    var q := Quot(x, d);
    QuotNegDividend(x, d);
    MulNegate(q, d);
    assert Abs(-d) == Abs(d);
  }

  lemma QuotNegDividend(x: int, d: int)
    requires d != 0
    ensures Quot(-x, d) == -Quot(x, d)
  {
    var a, b := Abs(x), Abs(d);
    assert Abs(-x) == a;
    if x == 0 {
      DivModUnique(0, b, 0, 0);
    }
  }

  /** Scaling dividend and divisor together leaves a C++ quotient unchanged. */
  lemma QuotScale(x: int, d: int, k: int)
    requires d != 0 && k > 0
    ensures Quot(k * x, k * d) == Quot(x, d)
  {
    MulAbs(k, x);
    MulAbs(k, d);
    DivMulCancel(Abs(x), Abs(d), k);
  }

  /** An exact multiple divides back exactly. */
  lemma QuotExact(x: int, d: int)
    requires d != 0
    ensures Quot(x * d, d) == x
  {
    MulAbs(x, d);
    DivModUnique(Abs(x * d), Abs(d), Abs(x), 0);
  }

  // ---------------------------------------------------------------------
  // Two's-complement narrowing
  // ---------------------------------------------------------------------

  /**
   * The value of `x` cast to a signed integer type whose values are
   * `-half .. half - 1` (so `half` is 2 to the power of the width minus one).
   */
  function WrapSigned(half: int, x: int): (r: int)
    requires half > 0
    ensures -half <= r < half
    ensures (x - r) % (2 * half) == 0
  {
    var m := 2 * half;
    var q, s := (x + half) / m, (x + half) % m;
    assert x + half == q * m + s;
    assert x - (s - half) == q * m;
    DivModUnique(x - (s - half), m, q, 0);
    s - half
  }

  /** The value of `x` cast to an unsigned integer type with `m` values. */
  function WrapUnsigned(m: int, x: int): (r: int)
    requires m > 0
    ensures 0 <= r < m
    ensures (x - r) % m == 0
  {
    var q, s := x / m, x % m;
    assert x == q * m + s;
    DivModUnique(x - s, m, q, 0);
    s
  }

  /** A value already in range is left alone by the cast. */
  lemma WrapSignedId(half: int, x: int)
    requires half > 0 && -half <= x < half
    ensures WrapSigned(half, x) == x
  {
    DivModUnique(x + half, 2 * half, 0, x + half);
  }

  lemma WrapUnsignedId(m: int, x: int)
    requires 0 <= x < m
    ensures WrapUnsigned(m, x) == x
  {
    DivModUnique(x, m, 0, x);
  }

  /** Two values that agree modulo the type's size cast to the same value. */
  lemma WrapSignedCongruent(half: int, x: int, y: int)
    requires half > 0 && (x - y) % (2 * half) == 0
    ensures WrapSigned(half, x) == WrapSigned(half, y)
  {
    var m := 2 * half;
    var k := (x - y) / m;
    assert x - y == k * m;
    var q, s := (y + half) / m, (y + half) % m;
    assert y + half == q * m + s;
    assert x + half == (q + k) * m + s;
    DivModUnique(x + half, m, q + k, s);
  }

  lemma WrapUnsignedCongruent(m: int, x: int, y: int)
    requires m > 0 && (x - y) % m == 0
    ensures WrapUnsigned(m, x) == WrapUnsigned(m, y)
  {
    var k := (x - y) / m;
    assert x - y == k * m;
    var q, s := y / m, y % m;
    assert y == q * m + s;
    assert x == (q + k) * m + s;
    DivModUnique(x, m, q + k, s);
  }

  /** Casting a factor first does not change the cast of the product. */
  lemma WrapSignedMul(half: int, x: int, y: int)
    requires half > 0
    ensures WrapSigned(half, WrapSigned(half, x) * y) == WrapSigned(half, x * y)
  {
    var m := 2 * half;
    var w := WrapSigned(half, x);
    var k := (x - w) / m;
    assert x - w == k * m;
    assert x * y - w * y == (k * y) * m;
    DivModUnique(x * y - w * y, m, k * y, 0);
    WrapSignedCongruent(half, x * y, w * y);
  }

  /** Casting a summand first does not change the cast of the sum. */
  lemma WrapSignedAdd(half: int, x: int, y: int)
    requires half > 0
    ensures WrapSigned(half, WrapSigned(half, x) + y) == WrapSigned(half, x + y)
  {
    var m := 2 * half;
    var w := WrapSigned(half, x);
    WrapSignedCongruent(half, x + y, w + y);
  }

  lemma WrapUnsignedAdd(m: int, x: int, y: int)
    requires m > 0
    ensures WrapUnsigned(m, WrapUnsigned(m, x) + y) == WrapUnsigned(m, x + y)
  {
    var w := WrapUnsigned(m, x);
    var k := (x - w) / m;
    assert x - w == k * m;
    DivModUnique((x + y) - (w + y), m, k, 0);
    WrapUnsignedCongruent(m, x + y, w + y);
  }

  // ---------------------------------------------------------------------
  // Rounding by one extra bit
  // ---------------------------------------------------------------------

  /**
   * The source's "one more bit of information" step: `v` carries one extra
   * low bit; halving it and adding that bit back rounds it away.
   */
  function RoundHalf(v: int): int
  {
    Quot(v, 2) + Rem(v, 2)
  }

  /**
   * Reference definition: `x / d` rounded to the nearest integer, ties away
   * from zero.
   */
  function RoundDiv(x: int, d: int): int
    requires d != 0
  {
    var q := (2 * Abs(x) + Abs(d)) / (2 * Abs(d));
    if (x >= 0) == (d > 0) then q else -q
  }

  /** `RoundDiv` is a nearest integer to `x / d`. */
  lemma RoundDivNearest(x: int, d: int)
    requires d != 0
    ensures -Abs(d) <= 2 * (x - RoundDiv(x, d) * d) <= Abs(d)
  {
    var a, b := Abs(x), Abs(d);
    var n, z := 2 * a + b, 2 * b;
    var q, s := n / z, n % z;
    Euclid(n, z);
    HalfBound(a, b, z, q, s);
    RemMagnitude(x, d, RoundDiv(x, d), q);
  }

  lemma HalfBound(a: int, b: int, z: int, q: int, s: int)
    requires z == 2 * b && 2 * a + b == q * z + s && 0 <= s < z
    ensures -b <= 2 * (a - q * b) <= b
  {
    assert q * z == 2 * (q * b);
  }

  /** `RoundDiv` is never on the other side of zero from `x / d`. */
  lemma RoundDivSign(x: int, d: int)
    requires d != 0
    ensures RoundDiv(x, d) == 0 || ((RoundDiv(x, d) > 0) <==> ((x > 0) == (d > 0)))
  {
    var b := Abs(d);
    if x == 0 {
      DivModUnique(b, 2 * b, 0, b);
    }
  }

  lemma RoundHalfNonNeg(v: nat)
    ensures RoundHalf(v) == (v + 1) / 2
  {
    DivModUnique(v + 1, 2, v / 2 + v % 2, (v + 1) % 2);
  }

  /** The same rounding stated on magnitudes. */
  lemma RoundedQuotientNonNeg(a: nat, b: int)
    requires b > 0
    ensures ((2 * a) / b + 1) / 2 == (2 * a + b) / (2 * b)
  {
    var v, m := (2 * a) / b, (2 * a) % b;
    assert 2 * a == v * b + m;
    var k, c := (v + 1) / 2, (v + 1) % 2;
    assert v + 1 == 2 * k + c;
    assert 2 * a + b == (v + 1) * b + m;
    assert (v + 1) * b == k * (2 * b) + c * b;
    assert c * b + m < 2 * b;
    DivModUnique(2 * a + b, 2 * b, k, c * b + m);
  }

  /**
   * Doubling the dividend, dividing with truncation and then rounding the
   * extra bit away is rounding to nearest, ties away from zero.
   */
  lemma RoundedQuotient(x: int, d: int)
    requires d != 0
    ensures RoundHalf(Quot(2 * x, d)) == RoundDiv(x, d)
  {
    var a, b := Abs(x), Abs(d);
    QuotDouble(x, d);
    RoundedQuotientNonNeg(a, b);
    RoundHalfSigned(Quot(2 * x, d), RoundDiv(x, d), (2 * a) / b, (2 * a + b) / (2 * b), (x >= 0) == (d > 0));
  }

  lemma RoundHalfSigned(h: int, r: int, v: int, q: int, positive: bool)
    requires v >= 0 && (v + 1) / 2 == q
    requires h == (if positive then v else -v) && r == (if positive then q else -q)
    ensures RoundHalf(h) == r
  {
    RoundHalfNonNeg(v);
    if !positive {
      RoundHalfNeg(v);
    }
  }

  lemma QuotDouble(x: int, d: int)
    requires d != 0
    ensures Quot(2 * x, d) == if (x >= 0) == (d > 0) then (2 * Abs(x)) / Abs(d) else -((2 * Abs(x)) / Abs(d))
  {
    assert Abs(2 * x) == 2 * Abs(x) && (2 * x >= 0) == (x >= 0);
  }

  lemma RoundHalfNeg(v: int)
    ensures RoundHalf(-v) == -RoundHalf(v)
  {
    QuotNeg(v, 2);
  }

  /** The power-of-two form: divide by `h` keeping one extra bit, then round. */
  lemma RoundedShift(x: int, h: int)
    requires h > 0
    ensures RoundHalf(Quot(x, h)) == RoundDiv(x, 2 * h)
  {
    QuotScale(x, h, 2);
    RoundedQuotient(x, 2 * h);
  }

  /** Truncating by `h` and then by 2 is truncating by `2h`. */
  lemma QuotQuot2(x: int, h: int)
    requires h > 0
    ensures Quot(Quot(x, h), 2) == Quot(x, 2 * h)
  {
    var q: int := Abs(x) / h;
    QuotPositiveDivisor(x, h);
    QuotPositiveDivisor(x, 2 * h);
    DivDiv(Abs(x), h, 2);
    QuotNonNeg(q, 2);
    if x < 0 {
      QuotNegDividend(q, 2);
    }
  }

  lemma QuotPositiveDivisor(x: int, d: int)
    requires d > 0
    ensures Quot(x, d) == if x >= 0 then Abs(x) / d else -(Abs(x) / d)
  {
  }
}
