/**
 * `Stream`: a growable byte buffer with a read cursor.  Integers are
 * written as `sizeof(T)` bytes, least significant first; every read checks
 * that enough bytes remain and fails with an underflow otherwise.
 */
module Streams {
  import opened CInt
  import opened Wrappers
  import opened FixedPoint

  type Byte = x: int | 0 <= x < 0x100

  /** The integral types `T` the template members are instantiated with. */
  datatype IntKind = I8 | U8 | I16 | U16 | I32 | U32 | I64 | U64 {

    /** `sizeof(T)`. */
    function Size(): nat
    {
      match this
      case I8 | U8 => 1
      case I16 | U16 => 2
      case I32 | U32 => 4
      case I64 | U64 => 8
    }

    predicate Signed()
    {
      I8? || I16? || I32? || I64?
    }

    /** The number of values of `T`, 256 to the power `sizeof(T)`. */
    function Modulus(): (m: int)
      ensures m == Pow(0x100, Size())
    {
      PowAdd(0x100, 1, 1);
      PowAdd(0x100, 2, 2);
      PowAdd(0x100, 4, 4);
      match this
      case I8 | U8 => 0x100
      case I16 | U16 => 0x1_0000
      case I32 | U32 => 0x1_0000_0000
      case I64 | U64 => 0x1_0000_0000_0000_0000
    }
  }

  /** `v` is a value of the type. */
  predicate Fits(k: IntKind, v: int)
  {
    if k.Signed() then -k.Modulus() / 2 <= v < k.Modulus() / 2 else 0 <= v < k.Modulus()
  }

  /** `static_cast<T>(v)`: the value of `T` that agrees with `v` in the low `8 * sizeof(T)` bits. */
  function Cast(k: IntKind, v: int): (r: int)
    ensures Fits(k, r)
  {
    if k.Signed() then WrapSigned(k.Modulus() / 2, v) else WrapUnsigned(k.Modulus(), v)
  }

  /** The cast changes a value by a multiple of the number of values of the type. */
  lemma CastDiff(k: IntKind, v: int)
    ensures (v - Cast(k, v)) % k.Modulus() == 0
  {
  }

  lemma CastId(k: IntKind, v: int)
    requires Fits(k, v)
    ensures Cast(k, v) == v
  {
    if k.Signed() {
      WrapSignedId(k.Modulus() / 2, v);
    } else {
      WrapUnsignedId(k.Modulus(), v);
    }
  }

  lemma CastCongruent(k: IntKind, x: int, y: int)
    requires (x - y) % k.Modulus() == 0
    ensures Cast(k, x) == Cast(k, y)
  {
    if k.Signed() {
      WrapSignedCongruent(k.Modulus() / 2, x, y);
    } else {
      WrapUnsignedCongruent(k.Modulus(), x, y);
    }
  }

  lemma CastAddAt(k: IntKind, x: int, y: int, v: int, sum: int)
    requires v == Cast(k, x) && sum == x + y
    ensures Cast(k, v + y) == Cast(k, sum)
  {
    CastAdd(k, x, y);
  }

  lemma CastAdd(k: IntKind, x: int, y: int)
    ensures Cast(k, Cast(k, x) + y) == Cast(k, x + y)
  {
    if k.Signed() {
      WrapSignedAdd(k.Modulus() / 2, x, y);
    } else {
      WrapUnsignedAdd(k.Modulus(), x, y);
    }
  }

  // ---------------------------------------------------------------------
  // Byte encoding
  // ---------------------------------------------------------------------

  /**
   * Byte `i` of `v`: `(v >> 8i) & 0xFF`.  An arithmetic right shift is
   * division rounding down, and `& 0xFF` keeps the remainder modulo 256.
   */
  function ByteAt(v: int, i: nat): Byte
  {
    (v / Pow(0x100, i)) % 0x100
  }

  /** The first `n` bytes of `v`, least significant first. */
  function LittleEndian(v: int, n: nat): (bytes: seq<Byte>)
    ensures |bytes| == n
  {
    seq(n, i requires 0 <= i < n => ByteAt(v, i))
  }

  /** The number whose little-endian bytes are `bytes`. */
  function FromLittleEndian(bytes: seq<Byte>): (v: int)
    ensures 0 <= v < Pow(0x100, |bytes|)
  {
    if |bytes| == 0 then 0
    else
      var n := |bytes| - 1;
      var low := FromLittleEndian(bytes[..n]);
      MulMonotone(bytes[n], 0xFF, Pow(0x100, n));
      low + bytes[n] * Pow(0x100, n)
  }

  /** The bytes `WriteInteger<T>(v)` appends. */
  function Encode(k: IntKind, v: int): (bytes: seq<Byte>)
    ensures |bytes| == k.Size()
  {
    LittleEndian(v, k.Size())
  }

  /** The value `ReadInteger<T>` assembles from `sizeof(T)` bytes. */
  function Decode(k: IntKind, bytes: seq<Byte>): (v: int)
    ensures Fits(k, v)
  {
    Cast(k, FromLittleEndian(bytes))
  }

  /** Reading back `n` little-endian bytes of `v` gives `v` modulo `256^n`. */
  lemma {:induction false} LittleEndianRoundTrip(v: int, n: nat)
    ensures FromLittleEndian(LittleEndian(v, n)) == v % Pow(0x100, n)
  {
    if n > 0 {
      var bytes := LittleEndian(v, n);
      assert bytes[..n - 1] == LittleEndian(v, n - 1);
      LittleEndianRoundTrip(v, n - 1);
      FromLittleEndianLast(bytes);
      var p := Pow(0x100, n - 1);
      LittleEndianTop(v, p, bytes[n - 1], Pow(0x100, n));
    }
  }

  lemma LittleEndianTop(v: int, p: int, b: int, whole: int)
    requires p > 0 && b == (v / p) % 0x100 && whole == 0x100 * p
    ensures v % whole == v % p + b * p
  {
    DivDiv(v, p, 0x100);
    assert p * 0x100 == whole;
  }

  /** Adding a multiple of `256^(i+1)` leaves byte `i` alone. */
  lemma ByteAtShift(y: int, i: nat, r: int)
    ensures ByteAt(y + (r * 0x100) * Pow(0x100, i), i) == ByteAt(y, i)
  {
    var p := Pow(0x100, i);
    var x := y + (r * 0x100) * p;
    var a, b := y / p, y % p;
    assert y == a * p + b;
    assert x == (a + r * 0x100) * p + b;
    DivModUnique(x, p, a + r * 0x100, b);
    DivModUnique(a + r * 0x100, 0x100, a / 0x100 + r, a % 0x100);
  }

  lemma MultipleSplit(x: int, y: int, m: int, q: int, p: int)
    requires m == (0x100 * q) * p && m != 0 && (x - y) % m == 0
    ensures x == y + ((((x - y) / m) * q) * 0x100) * p
  {
    var k := (x - y) / m;
    assert x - y == k * m;
    assert k * ((0x100 * q) * p) == ((k * q) * 0x100) * p;
  }

  /** Bytes below `n` agree when the numbers agree modulo `256^n`. */
  lemma ByteAtCongruent(x: int, y: int, n: nat, i: nat)
    requires i < n && (x - y) % Pow(0x100, n) == 0
    ensures ByteAt(x, i) == ByteAt(y, i)
  {
    var m := Pow(0x100, n);
    var p := Pow(0x100, i);
    var q := Pow(0x100, n - i - 1);
    PowAdd(0x100, n - i, i);
    assert Pow(0x100, n - i) == 0x100 * q;
    MultipleSplit(x, y, m, q, p);
    ByteAtShift(y, i, ((x - y) / m) * q);
  }

  /** Writing the number that `bytes` encode gives `bytes` back. */
  lemma {:induction false} FromLittleEndianRoundTrip(bytes: seq<Byte>)
    ensures LittleEndian(FromLittleEndian(bytes), |bytes|) == bytes
  {
    var n := |bytes|;
    if n > 0 {
      var prefix := bytes[..n - 1];
      var low := FromLittleEndian(prefix);
      var v := FromLittleEndian(bytes);
      var p := Pow(0x100, n - 1);
      FromLittleEndianRoundTrip(prefix);
      assert v == low + bytes[n - 1] * p;
      forall i | 0 <= i < n - 1
        ensures ByteAt(v, i) == bytes[i]
      {
        DivModUnique(v - low, p, bytes[n - 1], 0);
        ByteAtCongruent(v, low, n - 1, i);
      }
      DivModUnique(v, p, bytes[n - 1], low);
      DivModUnique(bytes[n - 1], 0x100, 0, bytes[n - 1]);
      assert ByteAt(v, n - 1) == bytes[n - 1];
    }
  }

  /**
   * Round trip: reading `sizeof(T)` bytes written for a value of `T` gives
   * the value back, negative values included.
   */
  lemma IntegerRoundTrip(k: IntKind, v: int)
    requires Fits(k, v)
    ensures Decode(k, Encode(k, v)) == v
  {
    LittleEndianRoundTrip(v, k.Size());
    var m := k.Modulus();
    DivModUnique(v - v % m, m, v / m, 0);
    CastCongruent(k, v % m, v);
    CastId(k, v);
  }

  /**
   * Every `sizeof(T)` bytes are the encoding of exactly one value of `T`:
   * the value they decode to.
   */
  lemma BytesRoundTrip(k: IntKind, bytes: seq<Byte>)
    requires |bytes| == k.Size()
    ensures Encode(k, Decode(k, bytes)) == bytes
  {
    var v := FromLittleEndian(bytes);
    FromLittleEndianRoundTrip(bytes);
    var d := Decode(k, bytes);
    CastDiff(k, v);
    forall i | 0 <= i < k.Size()
      ensures ByteAt(d, i) == ByteAt(v, i)
    {
      ByteAtCongruent(v, d, k.Size(), i);
    }
  }

  /** The byte `WriteBool` appends. */
  function BoolByte(b: bool): Byte
  {
    if b then 1 else 0
  }

  datatype StreamError = Underflow

  /** The `Vector2` of two fixed coordinates. */
  datatype Vector2 = Vector2(X: Fixed, Y: Fixed)

  // ---------------------------------------------------------------------
  // The stream
  // ---------------------------------------------------------------------

  class Stream {
    var buffer: seq<Byte>
    var currentIndex: nat

    /** The cursor never passes the end of the buffer. */
    predicate Valid()
      reads this
    {
      currentIndex <= |buffer|
    }

    /** An empty stream. */
    constructor ()
      ensures Valid() && buffer == [] && currentIndex == 0
    {
      buffer := [];
      currentIndex := 0;
    }

    /** A stream reading `initial` from its start. */
    constructor FromBuffer(initial: seq<Byte>)
      ensures Valid() && buffer == initial && currentIndex == 0
    {
      buffer := initial;
      currentIndex := 0;
    }

    method WriteBool(value: bool)
      requires Valid()
      modifies this
      ensures Valid()
      ensures buffer == old(buffer) + [BoolByte(value)] && currentIndex == old(currentIndex)
    {
      buffer := buffer + [BoolByte(value)];
    }

    method WriteInteger(k: IntKind, value: int)
      requires Valid() && Fits(k, value)
      modifies this
      ensures Valid()
      ensures buffer == old(buffer) + Encode(k, value) && currentIndex == old(currentIndex)
    {
      for i := 0 to k.Size()
        invariant buffer == old(buffer) + Encode(k, value)[..i]
        invariant currentIndex == old(currentIndex)
      {
        buffer := buffer + [ByteAt(value, i)];
      }
    }

    method WriteFixed(value: Fixed)
      requires Valid()
      modifies this
      ensures Valid()
      ensures buffer == old(buffer) + Encode(I32, value.raw) && currentIndex == old(currentIndex)
    {
      WriteInteger(I32, value.raw);
    }

    method WriteVector2(value: Vector2)
      requires Valid()
      modifies this
      ensures Valid()
      ensures buffer == old(buffer) + Encode(I32, value.X.raw) + Encode(I32, value.Y.raw)
      ensures currentIndex == old(currentIndex)
    {
      WriteInteger(I32, value.X.raw);
      WriteInteger(I32, value.Y.raw);
    }

    /** `WriteEnum<Enum, T>`: the enumerator's value cast to `T`, written as a `T`. */
    method WriteEnum(k: IntKind, value: int)
      requires Valid()
      modifies this
      ensures Valid()
      ensures buffer == old(buffer) + Encode(k, Cast(k, value)) && currentIndex == old(currentIndex)
    {
      WriteInteger(k, Cast(k, value));
    }

    method ReadBool() returns (r: Result<bool, StreamError>)
      requires Valid()
      modifies this
      ensures Valid() && buffer == old(buffer)
      ensures old(currentIndex) >= |buffer| ==> r == Err(Underflow) && currentIndex == old(currentIndex)
      ensures old(currentIndex) < |buffer| ==>
                r == Ok(buffer[old(currentIndex)] != 0) && currentIndex == old(currentIndex) + 1
    {
      if currentIndex >= |buffer| {
        return Err(Underflow);
      }
      var value := buffer[currentIndex] != 0;
      currentIndex := currentIndex + 1;
      return Ok(value);
    }

    method ReadInteger(k: IntKind) returns (r: Result<int, StreamError>)
      requires Valid()
      modifies this
      ensures Valid() && buffer == old(buffer)
      ensures old(currentIndex) + k.Size() > |buffer| ==>
                r == Err(Underflow) && currentIndex == old(currentIndex)
      ensures old(currentIndex) + k.Size() <= |buffer| ==>
                r == Ok(Decode(k, buffer[old(currentIndex)..old(currentIndex) + k.Size()])) &&
                currentIndex == old(currentIndex) + k.Size()
    {
      if currentIndex + k.Size() > |buffer| {
        return Err(Underflow);
      }
      ghost var bytes := buffer[currentIndex..currentIndex + k.Size()];
      var value := 0;
      CastId(k, 0);
      for i := 0 to k.Size()
        invariant buffer == old(buffer) && currentIndex == old(currentIndex)
        invariant value == Cast(k, FromLittleEndian(bytes[..i]))
      {
        var b := buffer[currentIndex + i];
        assert b == bytes[i];
        ReadStep(k, bytes, i, value);
        // the new byte occupies bits the value does not use yet, so `|` adds it
        value := Cast(k, value + b * Pow(0x100, i));
      }
      assert bytes[..k.Size()] == bytes;
      currentIndex := currentIndex + k.Size();
      return Ok(value);
    }

    method ReadFixed() returns (r: Result<Fixed, StreamError>)
      requires Valid()
      modifies this
      ensures Valid() && buffer == old(buffer)
      ensures old(currentIndex) + 4 > |buffer| ==> r == Err(Underflow) && currentIndex == old(currentIndex)
      ensures old(currentIndex) + 4 <= |buffer| ==>
                r == Ok(FromRawValue(Decode(I32, buffer[old(currentIndex)..old(currentIndex) + 4]))) &&
                currentIndex == old(currentIndex) + 4
    {
      var v :- ReadInteger(I32);
      return Ok(FromRawValue(v));
    }

    /**
     * `ReadVector2` as written: both reads are arguments of one constructor
     * call, and C++ leaves their order to the compiler; `xFirst` is the
     * compiler's choice.  When it reads the second argument first, the
     * coordinates come back swapped.
     */
    method ReadVector2AsWritten(xFirst: bool) returns (r: Result<Vector2, StreamError>)
      requires Valid()
      modifies this
      ensures Valid() && buffer == old(buffer)
      ensures old(currentIndex) + 8 > |buffer| ==> r == Err(Underflow)
      ensures old(currentIndex) + 4 > |buffer| ==> currentIndex == old(currentIndex)
      ensures old(currentIndex) + 4 <= |buffer| < old(currentIndex) + 8 ==> currentIndex == old(currentIndex) + 4
      ensures old(currentIndex) + 8 <= |buffer| ==>
                var first := FromRawValue(Decode(I32, buffer[old(currentIndex)..old(currentIndex) + 4]));
                var second := FromRawValue(Decode(I32, buffer[old(currentIndex) + 4..old(currentIndex) + 8]));
                r == Ok(if xFirst then Vector2(first, second) else Vector2(second, first)) &&
                currentIndex == old(currentIndex) + 8
    {
      var a :- ReadInteger(I32);
      var b :- ReadInteger(I32);
      if xFirst {
        return Ok(Vector2(FromRawValue(a), FromRawValue(b)));
      } else {
        return Ok(Vector2(FromRawValue(b), FromRawValue(a)));
      }
    }

    /** `ReadVector2` with its reads in the order `WriteVector2` writes: X, then Y. */
    method ReadVector2() returns (r: Result<Vector2, StreamError>)
      requires Valid()
      modifies this
      ensures Valid() && buffer == old(buffer)
      ensures old(currentIndex) + 8 > |buffer| ==> r == Err(Underflow)
      ensures old(currentIndex) + 4 > |buffer| ==> currentIndex == old(currentIndex)
      ensures old(currentIndex) + 4 <= |buffer| < old(currentIndex) + 8 ==> currentIndex == old(currentIndex) + 4
      ensures old(currentIndex) + 8 <= |buffer| ==>
                r == Ok(Vector2(FromRawValue(Decode(I32, buffer[old(currentIndex)..old(currentIndex) + 4])),
                                FromRawValue(Decode(I32, buffer[old(currentIndex) + 4..old(currentIndex) + 8])))) &&
                currentIndex == old(currentIndex) + 8
    {
      var x :- ReadInteger(I32);
      var y :- ReadInteger(I32);
      return Ok(Vector2(FromRawValue(x), FromRawValue(y)));
    }

    /** `ReadEnum<Enum, T>`: a `T` read and converted to the enumeration unchanged. */
    method ReadEnum(k: IntKind) returns (r: Result<int, StreamError>)
      requires Valid()
      modifies this
      ensures Valid() && buffer == old(buffer)
      ensures old(currentIndex) + k.Size() > |buffer| ==>
                r == Err(Underflow) && currentIndex == old(currentIndex)
      ensures old(currentIndex) + k.Size() <= |buffer| ==>
                r == Ok(Decode(k, buffer[old(currentIndex)..old(currentIndex) + k.Size()])) &&
                currentIndex == old(currentIndex) + k.Size()
    {
      r := ReadInteger(k);
    }

    /** A copy of the whole buffer; the stream is unchanged. */
    method GetBuffer() returns (b: seq<Byte>)
      ensures b == buffer
    {
      return buffer;
    }
  }

  lemma FromLittleEndianLast(bytes: seq<Byte>)
    requires |bytes| > 0
    ensures FromLittleEndian(bytes) ==
              FromLittleEndian(bytes[..|bytes| - 1]) + bytes[|bytes| - 1] * Pow(0x100, |bytes| - 1)
  {
  }

  /** One step of `ReadInteger`'s loop: adding the next byte at its place value extends the decoded prefix. */
  lemma ReadStep(k: IntKind, bytes: seq<Byte>, i: nat, value: int)
    requires i < |bytes|
    requires value == Cast(k, FromLittleEndian(bytes[..i]))
    ensures Cast(k, value + bytes[i] * Pow(0x100, i)) == Cast(k, FromLittleEndian(bytes[..i + 1]))
  {
    var prefix := bytes[..i + 1];
    assert prefix[..i] == bytes[..i] && prefix[i] == bytes[i];
    FromLittleEndianLast(prefix);
    CastAddAt(k, FromLittleEndian(bytes[..i]), bytes[i] * Pow(0x100, i), value, FromLittleEndian(prefix));
  }

  /** A whole integer written to a stream is read back from where it starts. */
  lemma ReadBackWritten(k: IntKind, prefix: seq<Byte>, v: int, suffix: seq<Byte>)
    requires Fits(k, v)
    ensures var b := prefix + Encode(k, v) + suffix;
            |prefix| + k.Size() <= |b| &&
            Decode(k, b[|prefix|..|prefix| + k.Size()]) == v
  {
    var b := prefix + Encode(k, v) + suffix;
    assert b[|prefix|..|prefix| + k.Size()] == Encode(k, v);
    IntegerRoundTrip(k, v);
  }

  /**
   * Writing a `uint32_t` and a `bool`, then reading them back in the same
   * order gives both values, and a third read underflows.
   */
  method WriteReadScenario(v: int, flag: bool) returns (n: Result<int, StreamError>, b: Result<bool, StreamError>, extra: Result<bool, StreamError>)
    requires Fits(U32, v)
    ensures n == Ok(v) && b == Ok(flag) && extra == Err(Underflow)
  {
    var s := new Stream();
    s.WriteInteger(U32, v);
    s.WriteBool(flag);
    ghost var encoded := Encode(U32, v);
    ReadBackWritten(U32, [], v, [BoolByte(flag)]);
    assert s.buffer == [] + encoded + [BoolByte(flag)];
    assert s.buffer[4] == BoolByte(flag);
    n := s.ReadInteger(U32);
    b := s.ReadBool();
    extra := s.ReadBool();
  }

  /**
   * A vector written and read back with the reads in writing order comes
   * back unchanged.
   */
  method Vector2RoundTrip(v: Vector2) returns (r: Result<Vector2, StreamError>)
    ensures r == Ok(v)
  {
    var s := new Stream();
    s.WriteVector2(v);
    ReadBackWritten(I32, [], v.X.raw, Encode(I32, v.Y.raw));
    ReadBackWritten(I32, Encode(I32, v.X.raw), v.Y.raw, []);
    assert s.buffer == [] + Encode(I32, v.X.raw) + Encode(I32, v.Y.raw);
    assert s.buffer == Encode(I32, v.X.raw) + Encode(I32, v.Y.raw) + [];
    r := s.ReadVector2();
  }

  /**
   * As written, a compiler that evaluates the second constructor argument
   * first reads every written vector back with its coordinates swapped,
   * so `(1.0, 2.0)` comes back as `(2.0, 1.0)`.
   */
  method Vector2SwappedAsWritten(v: Vector2) returns (r: Result<Vector2, StreamError>)
    ensures r == Ok(Vector2(v.Y, v.X))
    ensures v.X != v.Y ==> r != Ok(v)
  {
    var s := new Stream();
    s.WriteVector2(v);
    ReadBackWritten(I32, [], v.X.raw, Encode(I32, v.Y.raw));
    ReadBackWritten(I32, Encode(I32, v.X.raw), v.Y.raw, []);
    assert s.buffer == [] + Encode(I32, v.X.raw) + Encode(I32, v.Y.raw);
    assert s.buffer == Encode(I32, v.X.raw) + Encode(I32, v.Y.raw) + [];
    r := s.ReadVector2AsWritten(false);
  }
}
