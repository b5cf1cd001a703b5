/**
 * The `fixed` number type in its `Fixed16_16` instance: a 32-bit signed raw
 * value with 16 fraction bits; multiplication and division go through a
 * 64-bit intermediate.  Every operator is integer arithmetic on the raw
 * value.  C++ `static_cast` to the 32-bit base type keeps the low 32 bits
 * (`Wrap32`); overflowing 32-bit `int` arithmetic is modelled the same way.
 */
module FixedPoint {
  import opened CInt

  type Int16 = x: int | -0x8000 <= x < 0x8000
  type Int32 = x: int | -0x8000_0000 <= x < 0x8000_0000

  const FractionBits: nat := 16
  /** `FRACTION_MULT`, 2 to the power `FractionBits`. */
  const FractionMult: int := 0x1_0000
  /** Half of `FRACTION_MULT`: the divisor that keeps one extra bit. */
  const HalfMult: int := 0x8000

  /** `static_cast<int32_t>`. */
  function Wrap32(x: int): Int32
  {
    WrapSigned(0x8000_0000, x)
  }

  lemma Wrap32Id(x: int)
    requires -0x8000_0000 <= x < 0x8000_0000
    ensures Wrap32(x) == x
  {
    WrapSignedId(0x8000_0000, x);
  }

  datatype Fixed = Fixed(raw: Int32)

  /** The rational number a fixed value stands for. */
  function Value(f: Fixed): real
  {
    f.raw as real / 65536.0
  }

  // ---------------------------------------------------------------------
  // Construction and conversion
  // ---------------------------------------------------------------------

  /** `from_raw_value`; `raw_value()` is the field `raw`. */
  function FromRawValue(v: Int32): (f: Fixed)
    ensures f.raw == v
  {
    Fixed(v)
  }

  /** Construction from an integer: the value times `FRACTION_MULT`, cast to the base type. */
  function FromInt(n: int): (f: Fixed)
    ensures -0x8000 <= n < 0x8000 ==> f.raw == n * FractionMult && Value(f) == n as real
  {
    if -0x8000 <= n < 0x8000 then Wrap32Id(n * FractionMult); Fixed(Wrap32(n * FractionMult))
    else Fixed(Wrap32(n * FractionMult))
  }

  /** Conversion to an integer: the raw value divided by `FRACTION_MULT`, truncated toward zero. */
  function ToInt(f: Fixed): (n: int)
    ensures Abs(n) * FractionMult <= Abs(f.raw) < Abs(n) * FractionMult + FractionMult
    ensures n == 0 || ((n > 0) <==> (f.raw > 0))
  {
    QuotBounds(f.raw, FractionMult);
    QuotSign(f.raw, FractionMult);
    Quot(f.raw, FractionMult)
  }

  /**
   * Converting an integer to fixed and back gives the integer cast to the
   * 16 integer bits; so every `n` in `-32768 .. 32767` comes back unchanged.
   */
  lemma IntRoundTrip(n: int)
    ensures ToInt(FromInt(n)) == WrapSigned(0x8000, n)
    ensures -0x8000 <= n < 0x8000 ==> ToInt(FromInt(n)) == n
  {
    var w := WrapSigned(0x8000, n);
    var k := (n - w) / 0x1_0000;
    assert n - w == k * 0x1_0000;
    assert n * FractionMult - w * FractionMult == k * 0x1_0000_0000;
    DivModUnique(n * FractionMult - w * FractionMult, 0x1_0000_0000, k, 0);
    WrapSignedCongruent(0x8000_0000, n * FractionMult, w * FractionMult);
    Wrap32Id(w * FractionMult);
    assert FromInt(n).raw == w * FractionMult;
    QuotExact(w, FractionMult);
    if -0x8000 <= n < 0x8000 {
      WrapSignedId(0x8000, n);
    }
  }

  /** The truncated quotient has the 16 integer bits. */
  lemma ToIntRange(f: Fixed)
    ensures -0x8000 <= ToInt(f) < 0x8000
  {
  }

  /** A `T` of 16 bits or more holds every 16-bit value. */
  lemma WideBits(bits: nat)
    requires bits >= 16
    ensures Pow(2, bits) == 2 * Pow(2, bits - 1) && Pow(2, bits - 1) >= 0x8000
  {
    Pow2To16();
    PowMonotoneExp(2, 16, bits);
  }

  /**
   * `explicit operator T()` for an integral `T` of `bits` bits, signed or
   * not: the truncated quotient, then `static_cast<T>`, which keeps it
   * modulo `2^bits`.  Every signed `T` of 16 bits or more keeps the
   * quotient itself, and so does every unsigned one when it is not negative.
   */
  function ToIntegral(f: Fixed, signed: bool, bits: nat): (n: int)
    requires bits == 8 || bits == 16 || bits == 32 || bits == 64
    ensures (ToInt(f) - n) % Pow(2, bits) == 0
    ensures signed ==> -Pow(2, bits - 1) <= n < Pow(2, bits - 1)
    ensures !signed ==> 0 <= n < Pow(2, bits)
    ensures bits >= 16 && (signed || ToInt(f) >= 0) ==> n == ToInt(f)
  {
    ToIntegralKeeps(f, bits);
    if signed then WrapSigned(Pow(2, bits - 1), ToInt(f)) else WrapUnsigned(Pow(2, bits), ToInt(f))
  }

  lemma ToIntegralKeeps(f: Fixed, bits: nat)
    requires bits > 0
    ensures Pow(2, bits) == 2 * Pow(2, bits - 1)
    ensures bits >= 16 ==> WrapSigned(Pow(2, bits - 1), ToInt(f)) == ToInt(f)
    ensures bits >= 16 && ToInt(f) >= 0 ==> WrapUnsigned(Pow(2, bits), ToInt(f)) == ToInt(f)
  {
    ToIntRange(f);
    PowSucc2(bits);
    if bits >= 16 {
      WideBits(bits);
      WrapSignedId(Pow(2, bits - 1), ToInt(f));
      if ToInt(f) >= 0 {
        WrapUnsignedId(Pow(2, bits), ToInt(f));
      }
    }
  }

  /**
   * The member `FromFixed(integerPart)`: the integer part shifted left by
   * `FractionBits`, which is the integer constructor.
   */
  function FromIntegerPart(integerPart: Int32): (f: Fixed)
    ensures f == FromInt(integerPart)
  {
    Pow2To16();
    FromRawValue(Wrap32(integerPart * Pow(2, FractionBits)))
  }

  lemma Pow2To16()
    ensures Pow(2, FractionBits) == FractionMult
  {
    assert Pow(2, 2) == 4;
    PowAdd(2, 2, 2);
    PowAdd(2, 4, 4);
    PowAdd(2, 8, 8);
  }

  /**
   * `from_fixed_point<n>(value)`: reinterpret `value`, which has `n`
   * fraction bits, with `FractionBits` fraction bits.  With more fraction
   * bits the value is shifted right (rounding when asked: the first dropped
   * bit is added back); with fewer it is shifted left.
   */
  function FromFixedPoint(n: nat, value: int, rounding: bool): Fixed
    requires n < 64
  {
    if n > FractionBits then
      var shift := Pow(2, n - FractionBits);
      var half := Pow(2, n - FractionBits - 1);
      if rounding then Fixed(Wrap32(Quot(value, shift) + Rem(Quot(value, half), 2)))
      else Fixed(Wrap32(Quot(value, shift)))
    else
      Fixed(Wrap32(value * Pow(2, FractionBits - n)))
  }

  lemma PowSucc2(k: nat)
    requires k > 0
    ensures Pow(2, k) == 2 * Pow(2, k - 1)
  {
  }

  /**
   * Narrowing the fraction rounds to nearest (ties away from zero) when
   * rounding is on, and truncates toward zero when it is off; the result is
   * exact when it fits in 32 bits.
   */
  lemma FromFixedPointNarrowing(n: nat, value: int, rounding: bool)
    requires FractionBits < n < 64
    ensures var r := if rounding then RoundDiv(value, Pow(2, n - FractionBits))
                     else Quot(value, Pow(2, n - FractionBits));
            FromFixedPoint(n, value, rounding).raw == Wrap32(r)
  {
    var half := Pow(2, n - FractionBits - 1);
    PowSucc2(n - FractionBits);
    if rounding {
      QuotQuot2(value, half);
      RoundedShift(value, half);
    }
  }

  /** Widening the fraction multiplies exactly by the power of two. */
  lemma FromFixedPointWidening(n: nat, value: int, rounding: bool)
    requires n <= FractionBits
    requires -0x8000_0000 <= value * Pow(2, FractionBits - n) < 0x8000_0000
    ensures FromFixedPoint(n, value, rounding).raw == value * Pow(2, FractionBits - n)
  {
    Wrap32Id(value * Pow(2, FractionBits - n));
  }

  /**
   * Constructing from a fixed value with more fraction bits, when that value
   * is one of ours written with more fraction bits, gives ours back.
   */
  lemma FromFixedPointRoundTrip(f: Fixed, n: nat, rounding: bool)
    requires FractionBits < n < 64
    ensures FromFixedPoint(n, f.raw * Pow(2, n - FractionBits), rounding) == f
  {
    var p := Pow(2, n - FractionBits);
    FromFixedPointNarrowing(n, f.raw * p, rounding);
    if rounding {
      RoundDivExact(f.raw, p);
    } else {
      QuotExact(f.raw, p);
    }
    Wrap32Id(f.raw);
  }

  lemma RoundDivExact(x: int, d: int)
    requires d > 0
    ensures RoundDiv(x * d, d) == x
  {
    var a := Abs(x);
    MulAbs(x, d);
    assert 2 * Abs(x * d) + d == a * (2 * d) + d;
    DivModUnique(2 * Abs(x * d) + d, 2 * d, a, d);
  }

  // ---------------------------------------------------------------------
  // Addition, subtraction, negation
  // ---------------------------------------------------------------------

  /** Unary minus. */
  function Neg(x: Fixed): (r: Fixed)
    ensures x.raw != -0x8000_0000 ==> r.raw == -x.raw
  {
    if x.raw != -0x8000_0000 then Wrap32Id(-(x.raw as int)); Fixed(Wrap32(-(x.raw as int)))
    else Fixed(Wrap32(-(x.raw as int)))
  }

  /** `x + y` and `x += y`. */
  function Add(x: Fixed, y: Fixed): (r: Fixed)
    ensures -0x8000_0000 <= x.raw + y.raw < 0x8000_0000 ==> r.raw == x.raw + y.raw
  {
    if -0x8000_0000 <= x.raw + y.raw < 0x8000_0000 then
      Wrap32Id(x.raw + y.raw); Fixed(Wrap32(x.raw + y.raw))
    else Fixed(Wrap32(x.raw + y.raw))
  }

  /** `x - y` and `x -= y`. */
  function Sub(x: Fixed, y: Fixed): (r: Fixed)
    ensures -0x8000_0000 <= x.raw - y.raw < 0x8000_0000 ==> r.raw == x.raw - y.raw
  {
    if -0x8000_0000 <= x.raw - y.raw < 0x8000_0000 then
      Wrap32Id(x.raw - y.raw); Fixed(Wrap32(x.raw - y.raw))
    else Fixed(Wrap32(x.raw - y.raw))
  }

  /** `x + n` and `x += n` for an integer `n`: adds `n * FRACTION_MULT` to the raw value. */
  function AddInt(x: Fixed, n: int): Fixed
  {
    Fixed(Wrap32(x.raw + n * FractionMult))
  }

  /** `x - n` and `x -= n` for an integer `n`. */
  function SubInt(x: Fixed, n: int): Fixed
  {
    Fixed(Wrap32(x.raw - n * FractionMult))
  }

  /** Prefix `++`: one whole unit is added to the raw value. */
  function Increment(x: Fixed): Fixed
  {
    Fixed(Wrap32(x.raw + FractionMult))
  }

  /** Prefix `--`. */
  function Decrement(x: Fixed): Fixed
  {
    Fixed(Wrap32(x.raw - FractionMult))
  }

  /** Postfix `x++`: the value before, and the new value of `x`. */
  function PostIncrement(x: Fixed): (r: (Fixed, Fixed))
    ensures r.0 == x && r.1 == Increment(x)
  {
    (x, Increment(x))
  }

  /** Postfix `x--`: the value before, and the new value of `x`. */
  function PostDecrement(x: Fixed): (r: (Fixed, Fixed))
    ensures r.0 == x && r.1 == Decrement(x)
  {
    (x, Decrement(x))
  }

  /** Subtraction undoes addition, overflow included. */
  lemma AddSubInverse(x: Fixed, y: Fixed)
    ensures Sub(Add(x, y), y) == x
    ensures Add(Sub(x, y), y) == x
  {
    AddRaw(x, y);
    SubRaw(Add(x, y), y);
    Wrap32AddBack(x.raw, y.raw);
    SubRaw(x, y);
    AddRaw(Sub(x, y), y);
  }

  /** Adding `b` and then subtracting it again, with a cast after each step, gives a 32-bit value back. */
  lemma Wrap32AddBack(a: Int32, b: int)
    ensures Wrap32(Wrap32(a + b) - b) == a
    ensures Wrap32(Wrap32(a - b) + b) == a
  {
    WrapSignedAdd(0x8000_0000, a + b, -b);
    WrapSignedAdd(0x8000_0000, a - b, b);
    Wrap32Id(a);
  }

  lemma AddRaw(x: Fixed, y: Fixed)
    ensures Add(x, y).raw == Wrap32(x.raw + y.raw)
  {
  }

  lemma SubRaw(x: Fixed, y: Fixed)
    ensures Sub(x, y).raw == Wrap32(x.raw - y.raw)
  {
  }

  /** Negation is its own inverse, the most negative value included. */
  lemma NegInvolutive(x: Fixed)
    ensures Neg(Neg(x)) == x
  {
    WrapSignedCongruent(0x8000_0000, -(Wrap32(-(x.raw as int)) as int), x.raw);
    Wrap32Id(x.raw);
  }

  /** `x - y` is `x + (-y)`. */
  lemma SubIsAddNeg(x: Fixed, y: Fixed)
    ensures Sub(x, y) == Add(x, Neg(y))
  {
    var ny := -(y.raw as int);
    WrapSignedAdd(0x8000_0000, ny, x.raw);
    assert Neg(y).raw == Wrap32(ny);
    assert Add(x, Neg(y)).raw == Wrap32(Wrap32(ny) + x.raw);
    assert Sub(x, y).raw == Wrap32(ny + x.raw);
  }

  /** The integer overloads agree with converting the integer first. */
  lemma IntegerOperandsConvert(x: Fixed, n: int)
    ensures AddInt(x, n) == Add(x, FromInt(n))
    ensures SubInt(x, n) == Sub(x, FromInt(n))
  {
    var m := n * FractionMult;
    var w := Wrap32(m);
    assert FromInt(n).raw == w;
    AddRaw(x, FromInt(n));
    SubRaw(x, FromInt(n));
    WrapSignedAdd(0x8000_0000, m, x.raw);
    WrapSignedCongruent(0x8000_0000, x.raw - w, x.raw - m);
  }

  /** `++` and `--` change the value by exactly one and undo each other. */
  lemma IncrementDecrement(x: Fixed)
    ensures Increment(x) == AddInt(x, 1) && Decrement(x) == SubInt(x, 1)
    ensures Decrement(Increment(x)) == x && Increment(Decrement(x)) == x
    ensures x.raw < 0x8000_0000 - FractionMult ==> Value(Increment(x)) == Value(x) + 1.0
  {
    WrapSignedAdd(0x8000_0000, x.raw + FractionMult, -FractionMult);
    WrapSignedAdd(0x8000_0000, x.raw - FractionMult, FractionMult);
    Wrap32Id(x.raw);
    if x.raw < 0x8000_0000 - FractionMult {
      Wrap32Id(x.raw + FractionMult);
    }
  }

  // ---------------------------------------------------------------------
  // Multiplication and division
  // ---------------------------------------------------------------------

  /**
   * `x * y` and `x *= y`.  The 64-bit product of the raw values is divided
   * by `FRACTION_MULT`; with rounding it is divided by half of that and the
   * extra bit is rounded away.
   */
  function Mul(x: Fixed, y: Fixed, rounding: bool): Fixed
  {
    if rounding then Fixed(Wrap32(RoundHalf(Quot(x.raw * y.raw, HalfMult))))
    else Fixed(Wrap32(Quot(x.raw * y.raw, FractionMult)))
  }

  /**
   * Rounded multiplication is the exact product of the raw values scaled
   * down by `FRACTION_MULT` and rounded to nearest, ties away from zero;
   * unrounded multiplication truncates it toward zero.
   */
  lemma MulRounds(x: Fixed, y: Fixed)
    ensures Mul(x, y, true).raw == Wrap32(RoundDiv(x.raw * y.raw, FractionMult))
    ensures Mul(x, y, false).raw == Wrap32(Quot(x.raw * y.raw, FractionMult))
  {
    RoundedShift(x.raw * y.raw, HalfMult);
  }

  /**
   * For non-negative operands whose product fits, the rounded product is
   * the real product to the nearest 1/65536, ties upward.
   */
  lemma MulNearest(x: Fixed, y: Fixed)
    requires x.raw >= 0 && y.raw >= 0
    requires RoundDiv(x.raw * y.raw, FractionMult) < 0x8000_0000
    ensures var p := x.raw * y.raw;
            var r := Mul(x, y, true).raw;
            r == (p + FractionMult / 2) / FractionMult &&
            -FractionMult <= 2 * (p - r * FractionMult) <= FractionMult
  {
    var p := x.raw * y.raw;
    MulMonotone(0, x.raw, y.raw);
    MulRounds(x, y);
    RoundUnitNonNeg(p);
    Wrap32Id(RoundDiv(p, FractionMult));
  }

  /** A non-negative raw product rounded to the unit: ties go upward. */
  lemma RoundUnitNonNeg(p: int)
    requires p >= 0
    ensures RoundDiv(p, FractionMult) == (p + FractionMult / 2) / FractionMult
    ensures -FractionMult <= 2 * (p - RoundDiv(p, FractionMult) * FractionMult) <= FractionMult
  {
    RoundDivNearest(p, FractionMult);
    DivMulCancel(p + FractionMult / 2, FractionMult, 2);
  }

  /** Multiplying by an integer: the raw value times the integer. */
  function MulInt(x: Fixed, n: int): Fixed
  {
    Fixed(Wrap32(x.raw * n))
  }

  /**
   * For integers in the 16 integer bits, multiplying by the integer is
   * multiplying by its fixed value, with or without rounding.
   */
  lemma MulIntConverts(x: Fixed, n: int, rounding: bool)
    requires -0x8000 <= n < 0x8000
    ensures MulInt(x, n) == Mul(x, FromInt(n), rounding)
  {
    var p := x.raw * n;
    assert FromInt(n).raw == n * FractionMult;
    assert x.raw * (n * FractionMult) == (2 * p) * HalfMult;
    QuotExact(2 * p, HalfMult);
    assert x.raw * (n * FractionMult) == p * FractionMult;
    QuotExact(p, FractionMult);
    DivModUnique(2 * p, 2, p, 0);
  }

  /**
   * `x / y` and `x /= y`: the raw dividend scaled up by `FRACTION_MULT` in
   * 64 bits, divided by the raw divisor; with rounding it is scaled up by
   * one more bit, which is rounded away.  The divisor must not be zero.
   */
  function Div(x: Fixed, y: Fixed, rounding: bool): Fixed
    requires y.raw != 0
  {
    if rounding then Fixed(Wrap32(RoundHalf(Quot(x.raw * FractionMult * 2, y.raw))))
    else Fixed(Wrap32(Quot(x.raw * FractionMult, y.raw)))
  }

  /**
   * Rounded division is the exact quotient rounded to nearest, ties away
   * from zero; unrounded division truncates it toward zero.
   */
  lemma DivRounds(x: Fixed, y: Fixed)
    requires y.raw != 0
    ensures Div(x, y, true).raw == Wrap32(RoundDiv(x.raw * FractionMult, y.raw))
    ensures -0x8000_0000 <= RoundDiv(x.raw * FractionMult, y.raw) < 0x8000_0000 ==>
              var r := Div(x, y, true).raw;
              -Abs(y.raw) <= 2 * (x.raw * FractionMult - r * y.raw) <= Abs(y.raw)
  {
    assert x.raw * FractionMult * 2 == 2 * (x.raw * FractionMult);
    RoundedQuotient(x.raw * FractionMult, y.raw);
    RoundDivNearest(x.raw * FractionMult, y.raw);
    if -0x8000_0000 <= RoundDiv(x.raw * FractionMult, y.raw) < 0x8000_0000 {
      Wrap32Id(RoundDiv(x.raw * FractionMult, y.raw));
    }
  }

  /**
   * Rounded multiplication and division are inverse to within one unit
   * when the divisor is at least one in magnitude and nothing is cast away:
   * each step is off by at most half a unit of its own divisor, and
   * `|y| >= 1.0` keeps the product's error within half a unit after division.
   */
  lemma MulDivInverse(x: Fixed, y: Fixed)
    requires Abs(y.raw) >= FractionMult
    requires -0x8000_0000 <= RoundDiv(x.raw * y.raw, FractionMult) < 0x8000_0000
    requires -0x8000_0000 < x.raw < 0x7FFF_FFFF
    ensures -1 <= Div(Mul(x, y, true), y, true).raw - x.raw <= 1
  {
    var m := RoundDiv(x.raw * y.raw, FractionMult);
    MulRounds(x, y);
    Wrap32Id(m);
    var z := Mul(x, y, true);
    assert z.raw == m;
    RoundDivNearest(x.raw * y.raw, FractionMult);
    var d := RoundDiv(m * FractionMult, y.raw);
    RoundDivNearest(m * FractionMult, y.raw);
    InverseBound(x.raw, y.raw, m, FractionMult, d);
    DivRounds(z, y);
    Wrap32Id(d);
  }

  /** Two half-unit errors against a divisor `|y| >= M` leave the quotient within one of `x`. */
  lemma InverseBound(x: int, y: int, m: int, M: int, d: int)
    requires M > 0 && Abs(y) >= M
    requires -M <= 2 * (x * y - m * M) <= M
    requires -Abs(y) <= 2 * (m * M - d * y) <= Abs(y)
    ensures -1 <= d - x <= 1
  {
    var k := d - x;
    assert k * y == d * y - x * y;
    assert -Abs(y) <= k * y <= Abs(y);
    MulAbs(k, y);
    if Abs(k) >= 2 {
      MulMonotone(2, Abs(k), Abs(y));
    }
  }

  /**
   * Below one unit the inverse fails: `3 * 2^-16` times `2^-16` rounds to
   * zero, and zero divided back by `2^-16` is zero, three units off.
   */
  lemma MulDivLosesSmallDivisor()
    ensures Div(Mul(Fixed(3), Fixed(1), true), Fixed(1), true).raw == 0
  {
    Wrap32Id(0);
  }

  /** Dividing by an integer: the raw value divided by the integer, truncated. */
  function DivInt(x: Fixed, n: int): Fixed
    requires n != 0
  {
    Fixed(Wrap32(Quot(x.raw, n)))
  }

  /**
   * Dividing by an unsigned integer as wide as `int` or wider, whose
   * values run below `m`: the usual arithmetic conversions turn the raw
   * value into that unsigned type first, the quotient is truncated, and
   * the assignment casts it back to the 32-bit base type.
   */
  function DivIntUnsigned(x: Fixed, n: int, m: int): Fixed
    requires m == 0x1_0000_0000 || m == 0x1_0000_0000_0000_0000
    requires 0 < n < m
  {
    Fixed(Wrap32(Quot(WrapUnsigned(m, x.raw), n)))
  }

  /**
   * An unsigned divisor agrees with a signed one on non-negative values;
   * a negative value is first read as `m` plus itself, so with a 32-bit
   * divisor of 2 or more the quotient is that large number divided.
   */
  lemma DivIntUnsignedMeaning(x: Fixed, n: int, m: int)
    requires m == 0x1_0000_0000 || m == 0x1_0000_0000_0000_0000
    requires 0 < n < m
    ensures x.raw >= 0 ==> DivIntUnsigned(x, n, m) == DivInt(x, n)
    ensures x.raw < 0 ==> WrapUnsigned(m, x.raw) == m + x.raw
    ensures x.raw < 0 && m == 0x1_0000_0000 && n >= 2 ==> DivIntUnsigned(x, n, m).raw == (m + x.raw) / n
  {
    if x.raw >= 0 {
      WrapUnsignedId(m, x.raw);
    } else {
      UnsignedOfNegative(m, x.raw);
      if m == 0x1_0000_0000 && n >= 2 {
        QuotPositiveDivisor(m + x.raw, n);
        HalvedFits(m + x.raw, n);
        Wrap32Id((m + x.raw) / n);
      }
    }
  }

  /** Converting a negative value above `-m` to unsigned adds `m`. */
  lemma UnsignedOfNegative(m: int, x: int)
    requires m > 0 && -m <= x < 0
    ensures WrapUnsigned(m, x) == m + x
  {
    assert x - (m + x) == -1 * m;
    WrapUnsignedCongruent(m, x, m + x);
    WrapUnsignedId(m, m + x);
  }

  /** A 32-bit unsigned value divided by 2 or more fits a signed 32-bit value. */
  lemma HalvedFits(v: int, n: int)
    requires 0 <= v < 0x1_0000_0000 && n >= 2
    ensures 0 <= v / n < 0x8000_0000
  {
    Euclid(v, n);
    var q := v / n;
    if q >= 0x8000_0000 {
      MulMonotone(2, n, q);
      assert false;
    }
  }

  /** `fixed(-1) /= 2u` gives about 32767.5, where the signed division gives -0.5. */
  lemma DivIntUnsignedNegative()
    ensures DivIntUnsigned(Fixed(-0x1_0000), 2, 0x1_0000_0000).raw == 0x7FFF_8000
    ensures DivInt(Fixed(-0x1_0000), 2).raw == -0x8000
  {
    DivIntUnsignedMeaning(Fixed(-0x1_0000), 2, 0x1_0000_0000);
    Wrap32Id(-0x8000);
  }

  /** For integers in the 16 integer bits, dividing by the integer is unrounded division by its fixed value. */
  lemma DivIntConverts(x: Fixed, n: int)
    requires -0x8000 <= n < 0x8000 && n != 0
    ensures FromInt(n).raw != 0 && DivInt(x, n) == Div(x, FromInt(n), false)
  {
    assert FromInt(n).raw == FractionMult * n;
    QuotScale(x.raw, n, FractionMult);
  }

  // ---------------------------------------------------------------------
  // Comparisons
  // ---------------------------------------------------------------------

  predicate Eq(x: Fixed, y: Fixed) { x.raw == y.raw }
  predicate Ne(x: Fixed, y: Fixed) { x.raw != y.raw }
  predicate Lt(x: Fixed, y: Fixed) { x.raw < y.raw }
  predicate Gt(x: Fixed, y: Fixed) { x.raw > y.raw }
  predicate Le(x: Fixed, y: Fixed) { x.raw <= y.raw }
  predicate Ge(x: Fixed, y: Fixed) { x.raw >= y.raw }

  /** Comparing raw values is comparing the numbers they stand for. */
  lemma ComparisonsOrderValues(x: Fixed, y: Fixed)
    ensures Eq(x, y) <==> Value(x) == Value(y)
    ensures Ne(x, y) <==> Value(x) != Value(y)
    ensures Lt(x, y) <==> Value(x) < Value(y)
    ensures Gt(x, y) <==> Value(x) > Value(y)
    ensures Le(x, y) <==> Value(x) <= Value(y)
    ensures Ge(x, y) <==> Value(x) >= Value(y)
    ensures Eq(x, y) <==> x == y
  {
  }

  /** Comparisons against an integer, as written: `n * FRACTION_MULT` is cast to 32 bits first. */
  predicate EqIntAsWritten(x: Fixed, n: int) { x.raw == Wrap32(n * FractionMult) }
  predicate NeIntAsWritten(x: Fixed, n: int) { x.raw != Wrap32(n * FractionMult) }
  predicate LtIntAsWritten(x: Fixed, n: int) { x.raw < Wrap32(n * FractionMult) }
  predicate GtIntAsWritten(x: Fixed, n: int) { x.raw > Wrap32(n * FractionMult) }
  predicate LeIntAsWritten(x: Fixed, n: int) { x.raw <= Wrap32(n * FractionMult) }
  predicate GeIntAsWritten(x: Fixed, n: int) { x.raw >= Wrap32(n * FractionMult) }

  /** Comparisons against an integer made in the 64-bit intermediate type. */
  predicate EqInt(x: Fixed, n: int) { x.raw == n * FractionMult }
  predicate NeInt(x: Fixed, n: int) { x.raw != n * FractionMult }
  predicate LtInt(x: Fixed, n: int) { x.raw < n * FractionMult }
  predicate GtInt(x: Fixed, n: int) { x.raw > n * FractionMult }
  predicate LeInt(x: Fixed, n: int) { x.raw <= n * FractionMult }
  predicate GeInt(x: Fixed, n: int) { x.raw >= n * FractionMult }

  /** Compared in 64 bits, a fixed value compares with an integer as the numbers do. */
  lemma IntComparisonsOrderValues(x: Fixed, n: int)
    ensures EqInt(x, n) <==> Value(x) == n as real
    ensures NeInt(x, n) <==> Value(x) != n as real
    ensures LtInt(x, n) <==> Value(x) < n as real
    ensures GtInt(x, n) <==> Value(x) > n as real
    ensures LeInt(x, n) <==> Value(x) <= n as real
    ensures GeInt(x, n) <==> Value(x) >= n as real
  {
  }

  /** As written, the comparison agrees with the 64-bit one for integers in the 16 integer bits. */
  lemma IntComparisonsAsWrittenSmall(x: Fixed, n: int)
    requires -0x8000 <= n < 0x8000
    ensures EqIntAsWritten(x, n) <==> EqInt(x, n)
    ensures NeIntAsWritten(x, n) <==> NeInt(x, n)
    ensures LtIntAsWritten(x, n) <==> LtInt(x, n)
    ensures GtIntAsWritten(x, n) <==> GtInt(x, n)
    ensures LeIntAsWritten(x, n) <==> LeInt(x, n)
    ensures GeIntAsWritten(x, n) <==> GeInt(x, n)
  {
    Wrap32Id(n * FractionMult);
  }

  /**
   * As written, zero equals the integer 65536 (and is not unequal to it),
   * and one is not below 32768, is above it and is at least it.
   */
  lemma IntComparisonsAsWrittenWrap()
    ensures EqIntAsWritten(FromInt(0), 65536) && !EqInt(FromInt(0), 65536)
    ensures !NeIntAsWritten(FromInt(0), 65536) && NeInt(FromInt(0), 65536)
    ensures !LtIntAsWritten(FromInt(1), 32768) && LtInt(FromInt(1), 32768)
    ensures GtIntAsWritten(FromInt(1), 32768) && !GtInt(FromInt(1), 32768)
    ensures !LeIntAsWritten(FromInt(1), 32768) && LeInt(FromInt(1), 32768)
    ensures GeIntAsWritten(FromInt(1), 32768) && !GeInt(FromInt(1), 32768)
  {
    WrapSignedShift0();
    Wrap32Id(-0x8000_0000);
    WrapSignedCongruent(0x8000_0000, 32768 * FractionMult, -0x8000_0000);
  }

  lemma WrapSignedShift0()
    ensures Wrap32(65536 * FractionMult) == 0
  {
    WrapSignedCongruent(0x8000_0000, 65536 * FractionMult, 0);
    Wrap32Id(0);
  }

  // ---------------------------------------------------------------------
  // Loop helpers and construction from decimal digits
  // ---------------------------------------------------------------------

  lemma {:induction false} PowMul(a: int, b: int, k: nat)
    ensures Pow(a * b, k) == Pow(a, k) * Pow(b, k)
  {
    if k > 0 {
      PowMul(a, b, k - 1);
      var pa, pb := Pow(a, k - 1), Pow(b, k - 1);
      assert Pow(a * b, k) == (a * b) * (pa * pb);
      MulRearrange(a, b, pa, pb);
    }
  }

  /** Cast products depend only on the cast factors. */
  lemma Wrap32Mul(a: int, b: int)
    ensures Wrap32(Wrap32(a) * Wrap32(b)) == Wrap32(a * b)
  {
    WrapSignedMul(0x8000_0000, a, Wrap32(b));
    assert a * Wrap32(b) == Wrap32(b) * a;
    WrapSignedMul(0x8000_0000, b, a);
    assert b * a == a * b;
  }

  lemma {:induction false} Wrap32Pow(x: int, k: nat)
    ensures Wrap32(Pow(Wrap32(x), k)) == Wrap32(Pow(x, k))
  {
    if k > 0 {
      Wrap32Pow(x, k - 1);
      var w := Wrap32(x);
      Wrap32Id(w);
      calc {
        Wrap32(Pow(w, k));
        Wrap32(w * Pow(w, k - 1));
        { Wrap32Mul(w, Pow(w, k - 1)); }
        Wrap32(Wrap32(w) * Wrap32(Pow(w, k - 1)));
        Wrap32(Wrap32(x) * Wrap32(Pow(x, k - 1)));
        { Wrap32Mul(x, Pow(x, k - 1)); }
        Wrap32(x * Pow(x, k - 1));
      }
    }
  }

  /**
   * `IntPow`: `x` to the power `p` by repeated squaring in 32-bit
   * arithmetic, so the 32-bit cast of the power; 1 when `p` is not positive.
   */
  method IntPow(x: Int32, p: Int32) returns (result: Int32)
    ensures p >= 0 ==> result == Wrap32(Pow(x, p))
    ensures p < 0 ==> result == 1
  {
    result := 1;
    var b, e := x, p;
    Wrap32Id(1);
    while e > 0
      invariant p < 0 ==> e == p && result == 1
      invariant p >= 0 ==> e >= 0 && Wrap32(result * Pow(b, e)) == Wrap32(Pow(x, p))
    {
      ghost var result0, b0, e0 := result, b, e;
      if e % 2 == 1 {
        result := Wrap32((result as int) * b);
      }
      b := Wrap32((b as int) * b);
      e := e / 2;
      IntPowStep(result0, b0, e0, result, b, e);
    }
  }

  lemma PowSquare(b: int, k: nat)
    ensures Pow(b * b, k) == Pow(b, 2 * k)
  {
    PowMul(b, b, k);
    PowAdd(b, k, k);
  }

  /** Multiplying by values that agree after the cast gives results that agree after the cast. */
  lemma Wrap32MulRight(r: int, p: int, q: int)
    requires Wrap32(p) == Wrap32(q)
    ensures Wrap32(r * p) == Wrap32(r * q)
  {
    Wrap32Mul(r, p);
    Wrap32Mul(r, q);
  }

  lemma IntPowStep(r0: int, b0: int, e0: nat, r1: int, b1: int, e1: nat)
    requires e0 > 0 && e1 == e0 / 2
    requires r1 == if e0 % 2 == 1 then Wrap32(r0 * b0) else r0
    requires b1 == Wrap32(b0 * b0)
    ensures Wrap32(r1 * Pow(b1, e1)) == Wrap32(r0 * Pow(b0, e0))
  {
    var s := Pow(b0, 2 * e1);
    PowSquare(b0, e1);
    Wrap32Pow(b0 * b0, e1);
    Wrap32MulRight(r1, Pow(b1, e1), s);
    if e0 % 2 == 1 {
      assert Pow(b0, e0) == b0 * s;
      WrapSignedMul(0x8000_0000, r0 * b0, s);
      MulAssociates(r0, b0, s);
    } else {
      assert e0 == 2 * e1;
    }
  }

  /** The number of decimal digits of `n`; zero has one digit. */
  function NumDigits(n: nat): (d: nat)
    ensures d >= 1
  {
    if n < 10 then 1 else 1 + NumDigits(n / 10)
  }

  /** `n` has `NumDigits(n)` digits: it lies below that power of ten, and not below the previous one. */
  lemma {:induction false} NumDigitsBounds(n: nat)
    ensures n < Pow(10, NumDigits(n))
    ensures n > 0 ==> Pow(10, NumDigits(n) - 1) <= n
  {
    if n >= 10 {
      NumDigitsBounds(n / 10);
      var d := NumDigits(n / 10);
      assert Pow(10, d + 1) == 10 * Pow(10, d);
      if d > 1 {
        assert Pow(10, d) == 10 * Pow(10, d - 1);
      }
    }
  }

  /** A number below `10^k` has at most `k` digits. */
  lemma {:induction false} NumDigitsBelow(n: nat, k: nat)
    requires k >= 1 && n < Pow(10, k)
    ensures NumDigits(n) <= k
  {
    if n >= 10 {
      assert Pow(10, k) == 10 * Pow(10, k - 1);
      NumDigitsBelow(n / 10, k - 1);
    }
  }

  lemma Pow10Values()
    ensures Pow(10, 1) == 10 && Pow(10, 2) == 100 && Pow(10, 3) == 1000
    ensures Pow(10, 4) == 10000 && Pow(10, 5) == 100000
    ensures Pow(10, 9) == 1000000000 && Pow(10, 10) == 10000000000
  {
    PowAdd(10, 2, 2);
    PowAdd(10, 4, 1);
    PowAdd(10, 4, 5);
    PowAdd(10, 5, 5);
  }

  /**
   * `GetDigits`: counts how often the number can be divided by ten before
   * reaching zero; zero counts as one digit.
   */
  method GetDigits(num: Int32) returns (digits: Int32)
    ensures digits == NumDigits(Abs(num))
    ensures Abs(num) < Pow(10, digits)
    ensures num != 0 ==> Pow(10, digits - 1) <= Abs(num)
  {
    NumDigitsBounds(Abs(num));
    Pow10Values();
    NumDigitsBelow(Abs(num), 10);
    if num == 0 {
      return 1;
    }
    var n: int := num;
    digits := 0;
    while n != 0
      invariant Abs(n) <= Abs(num)
      invariant n != 0 ==> NumDigits(Abs(num)) == digits + NumDigits(Abs(n))
      invariant n == 0 ==> NumDigits(Abs(num)) == digits
      decreases Abs(n)
    {
      QuotBounds(n, 10);
      n := Quot(n, 10);
      digits := digits + 1;
    }
  }

  /** The cast power of ten a fraction of up to ten digits is scaled by is positive. */
  lemma DecimalScalePositive(d: nat)
    requires 1 <= d <= 10
    ensures Wrap32(Pow(10, d)) > 0
  {
    if d == 10 {
      TenDigitScale();
    } else {
      Pow10Values();
      PowMonotoneExp(10, d, 9);
      Wrap32Id(Pow(10, d));
    }
  }

  /** `10^10` does not fit: cast to 32 bits it is 1410065408. */
  lemma TenDigitScale()
    ensures Wrap32(Pow(10, 10)) == 1410065408
  {
    Pow10Values();
    var p := Pow(10, 10);
    assert p - 1410065408 == 2 * 0x1_0000_0000;
    WrapSignedCongruent(0x8000_0000, p, 1410065408);
    Wrap32Id(1410065408);
  }

  lemma {:induction false} PowMonotoneExp(b: int, i: nat, j: nat)
    requires b >= 1 && i <= j
    ensures 0 < Pow(b, i) <= Pow(b, j)
  {
    if i < j {
      PowMonotoneExp(b, i, j - 1);
      MulAtLeast(b, Pow(b, j - 1));
    }
  }

  /**
   * `MultiplyFixed`: `value1` times the decimal number
   * `integerPart.fractionalPart`, truncated toward zero, computed as
   * `value1 * (integerPart * 10^d + fractionalPart) / 10^d` with `d` the
   * number of digits of the fraction.
   */
  method MultiplyFixed(value1: Int32, integerPart: Int32, fractionalPart: Int32) returns (r: Int32)
    ensures var s := Pow(10, NumDigits(Abs(fractionalPart)));
            var combined := integerPart * s + fractionalPart;
            s < 0x8000_0000 && -0x8000_0000 <= combined < 0x8000_0000 &&
            -0x8000_0000 <= value1 * combined < 0x8000_0000 ==>
              r == Quot(value1 * combined, s)
  {
    var digits := GetDigits(fractionalPart);
    DigitsOfInt32(fractionalPart);
    DecimalScalePositive(digits);
    var scale := IntPow(10, digits);
    var combined := Wrap32((integerPart as int) * scale + fractionalPart);
    var product := Wrap32((value1 as int) * combined);
    QuotInRange(product, scale);
    r := Quot(product, scale);
    MultiplyFixedExact(value1, integerPart, fractionalPart, Pow(10, digits), scale, combined, product);
  }

  /** A 32-bit number has at most ten decimal digits. */
  lemma DigitsOfInt32(n: Int32)
    ensures NumDigits(Abs(n)) <= 10
  {
    Pow10Values();
    NumDigitsBelow(Abs(n), 10);
  }

  /** Dividing a 32-bit value by a positive divisor stays in 32 bits. */
  lemma QuotInRange(x: int, d: int)
    requires d > 0 && -0x8000_0000 <= x < 0x8000_0000
    ensures -0x8000_0000 <= Quot(x, d) < 0x8000_0000
  {
    QuotBounds(x, d);
    QuotSign(x, d);
    MulMonotone(1, d, Abs(Quot(x, d)));
  }

  lemma MultiplyFixedExact(value1: int, integerPart: int, fractionalPart: int, s: int, scale: int, combined: int, product: int)
    requires s > 0 && scale == Wrap32(s)
    requires combined == Wrap32(integerPart * scale + fractionalPart)
    requires product == Wrap32(value1 * combined)
    ensures s < 0x8000_0000 && -0x8000_0000 <= integerPart * s + fractionalPart < 0x8000_0000 &&
            -0x8000_0000 <= value1 * (integerPart * s + fractionalPart) < 0x8000_0000 ==>
              Quot(product, scale) == Quot(value1 * (integerPart * s + fractionalPart), s)
  {
    if s < 0x8000_0000 {
      Wrap32Id(s);
      var c := integerPart * s + fractionalPart;
      if -0x8000_0000 <= c < 0x8000_0000 {
        Wrap32Id(c);
        if -0x8000_0000 <= value1 * c < 0x8000_0000 {
          Wrap32Id(value1 * c);
        }
      }
    }
  }

  /**
   * The 16-bit fraction of the decimal fraction `0.fractionalPart`: the
   * digits times 2^16 over the power of ten, truncated toward zero.
   */
  function DecimalFraction(fractionalPart: Int16): int
  {
    Quot(fractionalPart * FractionMult, Pow(10, NumDigits(Abs(fractionalPart))))
  }

  /**
   * The raw value of `integerPart.fractionalPart`; a negative integer part
   * makes the whole number negative, so the fraction is subtracted.
   */
  function DecimalRaw(integerPart: Int16, fractionalPart: Int16): int
  {
    if integerPart < 0 then integerPart * FractionMult - DecimalFraction(fractionalPart)
    else integerPart * FractionMult + DecimalFraction(fractionalPart)
  }

  /**
   * For a non-negative fraction of `d` digits, `DecimalFraction` is the
   * largest multiple of 2^-16 not above `fractionalPart / 10^d`, so it is
   * below one whole unit; the integer part adds or subtracts whole units.
   */
  lemma DecimalRawMeaning(integerPart: Int16, fractionalPart: Int16)
    requires fractionalPart >= 0
    ensures var s := Pow(10, NumDigits(fractionalPart));
            var frac := DecimalFraction(fractionalPart);
            frac * s <= fractionalPart * FractionMult < frac * s + s &&
            0 <= frac < FractionMult
    ensures Abs(DecimalRaw(integerPart, fractionalPart)) ==
              Abs(integerPart) * FractionMult + DecimalFraction(fractionalPart)
    ensures integerPart >= 0 ==> -0x8000_0000 <= DecimalRaw(integerPart, fractionalPart) < 0x8000_0000
  {
    var s := Pow(10, NumDigits(fractionalPart));
    NumDigitsBounds(fractionalPart);
    QuotBounds(fractionalPart * FractionMult, s);
    QuotSign(fractionalPart * FractionMult, s);
    var frac := DecimalFraction(fractionalPart);
    assert frac * s <= fractionalPart * FractionMult;
    if frac >= FractionMult {
      MulMonotone(FractionMult, frac, s);
      MulMonotone(fractionalPart + 1, s, FractionMult);
    }
  }

  lemma FractionScaleSplit(d: nat)
    requires 1 <= d <= 5
    ensures var p := Pow(10, d);
            p <= 100000 && 65536 / p * p + 65536 % p == 65536 &&
            NumDigits(65536 % p) == d
  {
    Pow10Values();
    if d == 1 {
      assert NumDigits(6) == 1;
    } else if d == 2 {
      assert NumDigits(36) == 2;
    } else if d == 3 {
      assert NumDigits(536) == 3;
    } else if d == 4 {
      assert NumDigits(5536) == 4;
    } else {
      assert NumDigits(65536) == 5;
    }
  }

  /**
   * What `MultiplyFixed(fractionalPart, 2^16 / 10^d, 2^16 % 10^d)` promises
   * is the 16-bit decimal fraction: the remainder `2^16 % 10^d` has `d`
   * digits again, so the scale is `10^d` and the combined value `2^16`.
   */
  lemma FractionViaMultiplyFixed(fractionalPart: Int16, digits: nat, divisor: int, r: int)
    requires digits == NumDigits(Abs(fractionalPart)) && divisor == Wrap32(Pow(10, digits)) && divisor > 0
    requires var s := Pow(10, NumDigits(Abs(0x1_0000 % divisor)));
             var combined := (0x1_0000 / divisor) * s + 0x1_0000 % divisor;
             s < 0x8000_0000 && -0x8000_0000 <= combined < 0x8000_0000 &&
             -0x8000_0000 <= fractionalPart * combined < 0x8000_0000 ==>
               r == Quot(fractionalPart * combined, s)
    ensures r == DecimalFraction(fractionalPart)
  {
    Pow10Values();
    NumDigitsBelow(Abs(fractionalPart), 5);
    FractionScaleSplit(digits);
    Wrap32Id(Pow(10, digits));
  }

  /**
   * The constructor `fixed(integerPart, fractionalPart)`: the decimal
   * number `integerPart.fractionalPart`, its fraction truncated to 16 bits.
   */
  method FromFixed(integerPart: Int16, fractionalPart: Int16) returns (f: Fixed)
    ensures f.raw == Wrap32(DecimalRaw(integerPart, fractionalPart))
    ensures integerPart >= 0 && fractionalPart >= 0 ==> f.raw == DecimalRaw(integerPart, fractionalPart)
  {
    var digits := GetDigits(fractionalPart);
    DigitsOfInt32(fractionalPart);
    DecimalScalePositive(digits);
    var bound: Int32 := 0x1_0000;
    var divisor := IntPow(10, digits);
    var decimal := MultiplyFixed(fractionalPart, bound / divisor, bound % divisor);
    FractionViaMultiplyFixed(fractionalPart, digits, divisor, decimal);
    if integerPart < 0 {
      f := Fixed(Wrap32((integerPart as int) * bound - decimal));
    } else {
      f := Fixed(Wrap32((integerPart as int) * bound + decimal));
    }
    if integerPart >= 0 && fractionalPart >= 0 {
      DecimalRawMeaning(integerPart, fractionalPart);
      Wrap32Id(DecimalRaw(integerPart, fractionalPart));
    }
  }

  /**
   * The constructor `fixed(T integerPart, T fractionalPart)`: both
   * arguments are converted to the 16-bit `IntegerType` and `FractionType`,
   * keeping them modulo `2^16`, and handed to `FromFixed`.
   */
  method FromIntegerAndFraction(integerPart: int, fractionalPart: int) returns (f: Fixed)
    ensures f.raw == Wrap32(DecimalRaw(WrapSigned(0x8000, integerPart), WrapSigned(0x8000, fractionalPart)))
    ensures 0 <= integerPart < 0x8000 && 0 <= fractionalPart < 0x8000 ==>
              f.raw == DecimalRaw(integerPart, fractionalPart)
  {
    if 0 <= integerPart < 0x8000 && 0 <= fractionalPart < 0x8000 {
      WrapSignedId(0x8000, integerPart);
      WrapSignedId(0x8000, fractionalPart);
    }
    f := FromFixed(WrapSigned(0x8000, integerPart), WrapSigned(0x8000, fractionalPart));
  }
}
