# Deterministic core of the rollback ECS

This project models the deterministic side of a rollback-networked entity-component-system game engine. It covers four pieces:

- **Fixed-point arithmetic.** This is the `fpm::fixed` number type in its `Fixed16_16` instance. The raw value is a 32-bit signed integer with 16 fraction bits. Products and quotients go through a 64-bit intermediate, and rounding is on. Every operator is integer arithmetic on the raw value. C++ truncating `/` and `%` are modelled by `CInt.Quot` and `CInt.Rem`. Casts to a narrower integer type keep the low bits, modelled by `CInt.WrapSigned` and `CInt.WrapUnsigned`. The loop helpers `IntPow` and `GetDigits`, and `MultiplyFixed` and `FromFixed` built on them, are methods with loop invariants.
- **The byte `Stream`.** This is a growable byte buffer with a read cursor.
  - Integers are written little-endian, `sizeof(T)` bytes and no padding.
  - Bools, fixed values, 2-vectors and enums are written on top of integers.
  - Every read fails with an underflow when too few bytes remain. The model returns `Err(Underflow)` where the source throws `std::out_of_range`.
- **The `InputData` record.** This is one frame's input: frame number, mouse position, and the current and previous key states. It is written to and read back from a `Stream`. The field constructor (`InputData.h:12-19`) is the datatype constructor `Input.InputData`. The stream constructor is `Input.ReadInputData`, specified by the pure decoder `Input.DecodeInputData`.
- **The ECS `Layer`.** This is a class owning the entity, component and system managers, a deferred-destruction queue and a flag that suppresses system notifications. The managers' own code is not part of this model. They are described by the behaviour the layer relies on:
  - a signature (a `bitset<32>`, modelled as the set of its bits) per entity;
  - one entity-to-value store per component type;
  - per system, an interest signature and an entity set.
  
  A system holds an entity exactly when the entity's signature contains the system's interest signature. `Physics/Systems/RigidBody.h:16-22` shows how an interest signature is built.

The constants come from `ECS/Source/Base/Settings.h:9-17`:
- `Entity` is an unsigned 32-bit id;
- `ComponentType` is an unsigned 8-bit id;
- `MAXENTITIES` is 20000 and `MAXCOMPONENTS` is 32;
- `ENTITYNULL` is `MAXENTITIES + 1`.

The files are:
- `wrappers.dfy`: `Result`;
- `cint.dfy`: C integer semantics and the rounding reference;
- `fixed.dfy`;
- `stream.dfy`;
- `input_data.dfy`;
- `layer.dfy`.

## Model

| member | source | states |
|---|---|---|
| CInt.QuotBounds | ECS/Source/Math/FPM/fixed.hpp:86-90 | C++ division truncates toward zero: the quotient's magnitude times the divisor's is within one divisor of the dividend's |
| CInt.QuotSign | ECS/Source/Math/FPM/fixed.hpp:86-90 | a non-zero truncated quotient is positive exactly when dividend and divisor have the same sign |
| CInt.RemBounds | ECS/Source/Math/FPM/fixed.hpp:200-201 | the C++ remainder is smaller than the divisor in magnitude and takes the dividend's sign |
| CInt.QuotNeg | ECS/Source/Math/FPM/fixed.hpp:200-201 | truncated quotient and remainder are odd in the dividend, and the quotient is odd in the divisor |
| CInt.QuotScale | ECS/Source/Math/FPM/fixed.hpp:250-253 | scaling dividend and divisor by the same positive factor leaves the truncated quotient unchanged |
| CInt.QuotExact | ECS/Source/Math/FPM/fixed.hpp:86-90 | dividing an exact multiple gives the factor back |
| CInt.WrapSigned | ECS/Source/Math/FPM/fixed.hpp:47 | a signed cast lands in the target range and differs from its argument by a multiple of the modulus |
| CInt.WrapUnsigned | ECS/Source/Math/Stream.h:29 | an unsigned cast lands in `0..m-1` and differs from its argument by a multiple of `m` |
| CInt.WrapSignedMul | ECS/Source/Math/FPM/fixed.hpp:274-277 | casting before a multiplication or only after it gives the same low bits |
| CInt.WrapSignedAdd | ECS/Source/Math/FPM/fixed.hpp:168-192 | casting before an addition or only after it gives the same low bits |
| CInt.RoundDivNearest | ECS/Source/Math/FPM/fixed.hpp:196-201 | the reference rounding division is within half a divisor of the exact quotient |
| CInt.RoundedQuotient | ECS/Source/Math/FPM/fixed.hpp:246-251 | "double the dividend, divide, then add the last bit" equals division rounded to nearest, ties away from zero, for every sign |
| CInt.RoundedShift | ECS/Source/Math/FPM/fixed.hpp:196-201 | dividing by half the divisor and adding the remainder bit equals division rounded to nearest, ties away from zero |
| CInt.QuotQuot2 | ECS/Source/Math/FPM/fixed.hpp:112-114 | two truncated divisions by `h` and 2 equal one truncated division by `2h` |
| FixedPoint.Wrap32Id | ECS/Source/Math/FPM/fixed.hpp:47 | the cast to the 32-bit base type is the identity on values that fit |
| FixedPoint.FromRawValue | ECS/Source/Math/FPM/fixed.hpp:94-133 | `from_raw_value(x).raw_value() == x` for every 32-bit `x` |
| FixedPoint.FromInt | ECS/Source/Math/FPM/fixed.hpp:45-48 | an integer in the 16 integer bits is stored as `n * 2^16`, and its value is `n` |
| FixedPoint.ToInt | ECS/Source/Math/FPM/fixed.hpp:86-90 | the quotient `m_value / FRACTION_MULT` before the cast to `T`: the value truncated toward zero, with its magnitude bounds and sign |
| FixedPoint.ToIntRange | ECS/Source/Math/FPM/fixed.hpp:86-90 | the truncated quotient always fits the 16 integer bits |
| FixedPoint.ToIntegral | ECS/Source/Math/FPM/fixed.hpp:86-90 | `static_cast<T>` of the quotient for an integral `T` of 8, 16, 32 or 64 bits: congruent to the quotient modulo `2^bits` and in `T`'s range; equal to the quotient for a signed `T` of 16 bits or more, and for an unsigned one of 16 bits or more when the quotient is not negative |
| FixedPoint.IntRoundTrip | ECS/Source/Math/FPM/fixed.hpp:45-90 | converting an integer to fixed and back gives it modulo 2^16, as a signed 16-bit value; it is exactly `n` when `n * 2^16` fits |
| FixedPoint.FromIntegerPart | ECS/Source/Math/FPM/fixed.hpp:146-149 | the integer-part constructor `integerPart << 16` agrees with integer construction |
| FixedPoint.FromFixedPoint | ECS/Source/Math/FPM/fixed.hpp:107-126 | `from_fixed_point<N>`; its meaning is stated by `FromFixedPointNarrowing`, `FromFixedPointWidening` and `FromFixedPointRoundTrip` |
| FixedPoint.FromFixedPointNarrowing | ECS/Source/Math/FPM/fixed.hpp:107-118 | with more fraction bits than 16, the raw value is the input divided by `2^(N-16)`: rounded to nearest (ties away from zero) when rounding, truncated otherwise, then cast to 32 bits |
| FixedPoint.FromFixedPointWidening | ECS/Source/Math/FPM/fixed.hpp:120-126 | with at most 16 fraction bits, the input is multiplied exactly by `2^(16-N)` when the result fits |
| FixedPoint.FromFixedPointRoundTrip | ECS/Source/Math/FPM/fixed.hpp:107-118 | rescaling a raw value up to `N` fraction bits and back loses nothing, rounded or not |
| FixedPoint.Neg | ECS/Source/Math/FPM/fixed.hpp:163-166 | negation negates the raw value, except at the most negative raw value, which wraps |
| FixedPoint.Add | ECS/Source/Math/FPM/fixed.hpp:168-172 | addition is exact on raw values when the sum fits |
| FixedPoint.Sub | ECS/Source/Math/FPM/fixed.hpp:181-185 | subtraction is exact on raw values when the difference fits |
| FixedPoint.AddSubInverse | ECS/Source/Math/FPM/fixed.hpp:168-192 | adding then subtracting the same value, or the reverse, restores the original, overflow included |
| FixedPoint.NegInvolutive | ECS/Source/Math/FPM/fixed.hpp:163-166 | negating twice is the identity |
| FixedPoint.SubIsAddNeg | ECS/Source/Math/FPM/fixed.hpp:163-185 | subtracting is adding the negation |
| FixedPoint.AddInt | ECS/Source/Math/FPM/fixed.hpp:174-179 | `x += n` for an integer `n`; its meaning is stated by `IntegerOperandsConvert` |
| FixedPoint.SubInt | ECS/Source/Math/FPM/fixed.hpp:187-192 | `x -= n` for an integer `n`; its meaning is stated by `IntegerOperandsConvert` |
| FixedPoint.Increment | ECS/Source/Math/FPM/fixed.hpp:210-214 | prefix `++`; its meaning is stated by `IncrementDecrement` |
| FixedPoint.Decrement | ECS/Source/Math/FPM/fixed.hpp:223-227 | prefix `--`; its meaning is stated by `IncrementDecrement` |
| FixedPoint.IntegerOperandsConvert | ECS/Source/Math/FPM/fixed.hpp:174-192 | adding or subtracting an integer equals adding or subtracting its fixed-point conversion |
| FixedPoint.PostIncrement | ECS/Source/Math/FPM/fixed.hpp:216-221 | postfix `++` yields the old value and leaves the incremented one |
| FixedPoint.PostDecrement | ECS/Source/Math/FPM/fixed.hpp:229-234 | postfix `--` yields the old value and leaves the decremented one |
| FixedPoint.IncrementDecrement | ECS/Source/Math/FPM/fixed.hpp:209-234 | `++`/`--` add or subtract exactly `2^16` to the raw value (one whole unit), and undo each other |
| FixedPoint.Mul | ECS/Source/Math/FPM/fixed.hpp:194-207 | `x *= y`; its meaning is stated by `MulRounds` and `MulNearest` |
| FixedPoint.MulRounds | ECS/Source/Math/FPM/fixed.hpp:194-207 | the rounded product is the raw product divided by `2^16`, rounded to nearest with ties away from zero, then cast; the unrounded one truncates |
| FixedPoint.MulNearest | ECS/Source/Math/FPM/fixed.hpp:194-201 | for non-negative operands whose product fits, the result is `(a*b + 2^15) / 2^16`, within half a unit in the last place of the exact product |
| FixedPoint.MulInt | ECS/Source/Math/FPM/fixed.hpp:236-241 | `x *= n` for an integer `n`; its meaning is stated by `MulIntConverts` |
| FixedPoint.MulIntConverts | ECS/Source/Math/FPM/fixed.hpp:236-241 | multiplying by a 16-bit integer equals multiplying by its fixed-point conversion, with or without rounding |
| FixedPoint.Div | ECS/Source/Math/FPM/fixed.hpp:243-257 | `x /= y` for a non-zero `y`; its meaning is stated by `DivRounds` |
| FixedPoint.DivRounds | ECS/Source/Math/FPM/fixed.hpp:243-257 | the rounded quotient is `a * 2^16 / b` rounded to nearest (ties away from zero) and cast; when it fits it is within half a divisor |
| FixedPoint.DivInt | ECS/Source/Math/FPM/fixed.hpp:259-264 | `x /= n` for a non-zero signed integer `n`, or an unsigned one narrower than `int` (which is promoted to `int`); its meaning is stated by `DivIntConverts` |
| FixedPoint.DivIntUnsigned | ECS/Source/Math/FPM/fixed.hpp:259-264 | `x /= n` for an unsigned `n` of 32 or 64 bits: the raw value is converted to the unsigned type before the truncating division; its meaning is stated by `DivIntUnsignedMeaning` |
| FixedPoint.DivIntUnsignedMeaning | ECS/Source/Math/FPM/fixed.hpp:259-264 | with an unsigned divisor, a non-negative value divides exactly as with a signed one; a negative raw value is first read as `2^32` or `2^64` plus itself, and for a 32-bit divisor of 2 or more the stored raw value is that number divided, truncated |
| FixedPoint.DivIntUnsignedNegative | ECS/Source/Math/FPM/fixed.hpp:259-264 | `fixed(-1) /= 2u` stores raw `0x7FFF8000` (about 32767.5), while `fixed(-1) /= 2` stores raw `-0x8000` (-0.5) |
| FixedPoint.DivIntConverts | ECS/Source/Math/FPM/fixed.hpp:259-264 | dividing by a non-zero 16-bit integer equals unrounded division by its fixed-point conversion |
| FixedPoint.MulDivInverse | ECS/Source/Math/FPM/fixed.hpp:194-257 | rounded multiplication by `y` followed by rounded division by `y` gives back the original raw value to within one unit, when `y` is at least 1.0 in magnitude and the product fits 32 bits |
| FixedPoint.InverseBound | ECS/Source/Math/FPM/fixed.hpp:194-257 | two rounding errors of at most half a divisor each, against a divisor of at least `2^16`, leave the quotient within one of the original |
| FixedPoint.MulDivLosesSmallDivisor | ECS/Source/Math/FPM/fixed.hpp:194-257 | below one unit the inverse fails: raw 3 times raw 1 rounds to 0, and 0 divided back by raw 1 stays 0 |
| FixedPoint.Eq | ECS/Source/Math/FPM/fixed.hpp:400-404 | `==` on fixed values; its meaning is stated by `ComparisonsOrderValues` |
| FixedPoint.Ne | ECS/Source/Math/FPM/fixed.hpp:406-410 | `!=` on fixed values; its meaning is stated by `ComparisonsOrderValues` |
| FixedPoint.Lt | ECS/Source/Math/FPM/fixed.hpp:412-416 | `<` on fixed values; its meaning is stated by `ComparisonsOrderValues` |
| FixedPoint.Gt | ECS/Source/Math/FPM/fixed.hpp:418-422 | `>` on fixed values; its meaning is stated by `ComparisonsOrderValues` |
| FixedPoint.Le | ECS/Source/Math/FPM/fixed.hpp:424-428 | `<=` on fixed values; its meaning is stated by `ComparisonsOrderValues` |
| FixedPoint.Ge | ECS/Source/Math/FPM/fixed.hpp:430-433 | `>=` on fixed values; its meaning is stated by `ComparisonsOrderValues` |
| FixedPoint.ComparisonsOrderValues | ECS/Source/Math/FPM/fixed.hpp:399-433 | each fixed/fixed comparison on raw values holds exactly when the same comparison holds on the numbers they represent; equality is identity |
| FixedPoint.EqIntAsWritten | ECS/Source/Math/FPM/fixed.hpp:436-441 | `x == n` as written, against `n * 2^16` cast to 32 bits; its meaning is stated by `IntComparisonsAsWrittenSmall` and `IntComparisonsAsWrittenWrap` |
| FixedPoint.NeIntAsWritten | ECS/Source/Math/FPM/fixed.hpp:443-448 | `x != n` as written, against `n * 2^16` cast to 32 bits; its meaning is stated by `IntComparisonsAsWrittenSmall` and `IntComparisonsAsWrittenWrap` |
| FixedPoint.GtIntAsWritten | ECS/Source/Math/FPM/fixed.hpp:450-455 | `x > n` as written, against `n * 2^16` cast to 32 bits; its meaning is stated by `IntComparisonsAsWrittenSmall` and `IntComparisonsAsWrittenWrap` |
| FixedPoint.LtIntAsWritten | ECS/Source/Math/FPM/fixed.hpp:457-462 | `x < n` as written, against `n * 2^16` cast to 32 bits; its meaning is stated by `IntComparisonsAsWrittenSmall` and `IntComparisonsAsWrittenWrap` |
| FixedPoint.GeIntAsWritten | ECS/Source/Math/FPM/fixed.hpp:464-469 | `x >= n` as written, against `n * 2^16` cast to 32 bits; its meaning is stated by `IntComparisonsAsWrittenSmall` and `IntComparisonsAsWrittenWrap` |
| FixedPoint.LeIntAsWritten | ECS/Source/Math/FPM/fixed.hpp:471-476 | `x <= n` as written, against `n * 2^16` cast to 32 bits; its meaning is stated by `IntComparisonsAsWrittenSmall` and `IntComparisonsAsWrittenWrap` |
| FixedPoint.EqInt | ECS/Source/Math/FPM/fixed.hpp:436-441 | `x == n` compared in the 64-bit intermediate type without the cast; its meaning is stated by `IntComparisonsOrderValues` |
| FixedPoint.NeInt | ECS/Source/Math/FPM/fixed.hpp:443-448 | `x != n` compared in the 64-bit intermediate type without the cast; its meaning is stated by `IntComparisonsOrderValues` |
| FixedPoint.GtInt | ECS/Source/Math/FPM/fixed.hpp:450-455 | `x > n` compared in the 64-bit intermediate type without the cast; its meaning is stated by `IntComparisonsOrderValues` |
| FixedPoint.LtInt | ECS/Source/Math/FPM/fixed.hpp:457-462 | `x < n` compared in the 64-bit intermediate type without the cast; its meaning is stated by `IntComparisonsOrderValues` |
| FixedPoint.GeInt | ECS/Source/Math/FPM/fixed.hpp:464-469 | `x >= n` compared in the 64-bit intermediate type without the cast; its meaning is stated by `IntComparisonsOrderValues` |
| FixedPoint.LeInt | ECS/Source/Math/FPM/fixed.hpp:471-476 | `x <= n` compared in the 64-bit intermediate type without the cast; its meaning is stated by `IntComparisonsOrderValues` |
| FixedPoint.IntComparisonsOrderValues | ECS/Source/Math/FPM/fixed.hpp:435-476 | compared without the cast, each fixed/integer comparison holds exactly when it holds on the numbers |
| FixedPoint.IntComparisonsAsWrittenSmall | ECS/Source/Math/FPM/fixed.hpp:435-476 | for integers in the 16 integer bits each of the six comparisons as written agrees with the uncast one |
| FixedPoint.IntComparisonsAsWrittenWrap | ECS/Source/Math/FPM/fixed.hpp:435-476 | as written, `fixed(0) == 65536` holds and `fixed(0) != 65536` fails; `fixed(1) < 32768` and `fixed(1) <= 32768` fail while `fixed(1) > 32768` and `fixed(1) >= 32768` hold; the uncast comparisons answer the other way each time |
| FixedPoint.Wrap32Pow | ECS/Source/Math/FPM/fixed.hpp:267-281 | a power taken with a 32-bit cast after each step equals the exact power cast once |
| FixedPoint.IntPow | ECS/Source/Math/FPM/fixed.hpp:267-281 | square-and-multiply returns `x^p` cast to 32 bits for `p >= 0`, and 1 for negative `p` |
| FixedPoint.NumDigitsBounds | ECS/Source/Math/FPM/fixed.hpp:283-293 | the digit count `d` of `n` satisfies `10^(d-1) <= n < 10^d` for `n > 0`, and `n < 10^d` always |
| FixedPoint.GetDigits | ECS/Source/Math/FPM/fixed.hpp:283-293 | the loop returns the number of decimal digits of `|num|`, 1 for zero, with the power-of-ten bounds |
| FixedPoint.MultiplyFixed | ECS/Source/Math/FPM/fixed.hpp:295-300 | when nothing overflows, the result is `value1 * (integerPart * scale + fractionalPart)` truncated-divided by `scale = 10^digits(fractionalPart)` |
| FixedPoint.DecimalRawMeaning | ECS/Source/Math/FPM/fixed.hpp:136-144 | the decimal fraction `fp / 10^digits(fp)` becomes `fp * 2^16 / 10^digits` truncated, below one unit; the integer part's sign decides whether it is added or subtracted |
| FixedPoint.FromFixed | ECS/Source/Math/FPM/fixed.hpp:136-144 | construction from an integer part and decimal digits stores the decimal value truncated to 16 fraction bits, cast to 32 bits; exact for non-negative 16-bit parts |
| FixedPoint.FromIntegerAndFraction | ECS/Source/Math/FPM/fixed.hpp:73-76 | the two-argument constructor converts both arguments to 16 bits, keeping them modulo `2^16`, then builds the decimal value as `FromFixed` does; exact for parts in `0 .. 32767` |
| Streams.IntKind.Modulus | ECS/Source/Math/Stream.h:22-31 | an integer type of `sizeof(T)` bytes has modulus `256^sizeof(T)` |
| Streams.Cast | ECS/Source/Math/Stream.h:50-75 | a `static_cast` to an integer type yields a value of that type |
| Streams.CastDiff | ECS/Source/Math/Stream.h:50-75 | a cast differs from its argument by a multiple of the type's modulus |
| Streams.CastId | ECS/Source/Math/Stream.h:50-103 | casting a value that already fits the type changes nothing |
| Streams.LittleEndianRoundTrip | ECS/Source/Math/Stream.h:27-76 | assembling the `n` little-endian bytes of `v` gives `v mod 256^n` |
| Streams.FromLittleEndianRoundTrip | ECS/Source/Math/Stream.h:27-76 | re-encoding an assembled byte sequence gives the same bytes |
| Streams.IntegerRoundTrip | ECS/Source/Math/Stream.h:22-80 | reading back the bytes written for a value of type T gives the value, negatives included (two's complement) |
| Streams.BytesRoundTrip | ECS/Source/Math/Stream.h:22-80 | writing back a decoded `sizeof(T)`-byte sequence gives the same bytes |
| Streams.Stream.constructor | ECS/Source/Math/Stream.h:12 | a new stream is empty with the cursor at 0 |
| Streams.Stream.FromBuffer | ECS/Source/Math/Stream.h:14 | a stream over a buffer holds that buffer with the cursor at 0 |
| Streams.Stream.WriteBool | ECS/Source/Math/Stream.h:17-20 | appends exactly one byte, 1 for true and 0 for false, and leaves the cursor |
| Streams.Stream.WriteInteger | ECS/Source/Math/Stream.h:22-31 | appends exactly the `sizeof(T)` little-endian bytes of the value, and leaves the cursor |
| Streams.Stream.WriteFixed | ECS/Source/Math/Stream.h:33-36 | appends the raw value as a 32-bit integer |
| Streams.Stream.WriteVector2 | ECS/Source/Math/Stream.h:38-42 | appends the raw X then the raw Y as 32-bit integers |
| Streams.Stream.WriteEnum | ECS/Source/Math/Stream.h:45-51 | appends the enum's value cast to the chosen integer type |
| Streams.Stream.ReadBool | ECS/Source/Math/Stream.h:54-62 | at or past the end: underflow, nothing moves; otherwise `byte != 0`, cursor advanced by one; the buffer is never changed |
| Streams.Stream.ReadInteger | ECS/Source/Math/Stream.h:64-80 | with fewer than `sizeof(T)` bytes left: underflow, cursor unchanged; otherwise the little-endian value of the next `sizeof(T)` bytes, cursor advanced by `sizeof(T)` |
| Streams.ReadStep | ECS/Source/Math/Stream.h:73-76 | one pass of the read loop: adding byte `i` at bit `8*i` to the value of the first `i` bytes gives the value of the first `i + 1` bytes, after the cast to `T` |
| Streams.Stream.ReadFixed | ECS/Source/Math/Stream.h:87-90 | reads a 32-bit integer and takes it as the raw value, underflow as for integers |
| Streams.Stream.ReadVector2AsWritten | ECS/Source/Math/Stream.h:92-95 | the two reads are constructor arguments; X gets the first four bytes or the second four, depending on the order the compiler chose; with fewer than 8 bytes left it underflows, leaving the cursor unchanged when fewer than 4 remain and advanced by 4 otherwise |
| Streams.Stream.ReadVector2 | ECS/Source/Math/Stream.h:92-95 | with X read before Y: X from the first four bytes, Y from the next four, cursor advanced by 8; with fewer than 8 bytes left it underflows, leaving the cursor unchanged when fewer than 4 remain and advanced by 4 otherwise |
| Streams.Stream.ReadEnum | ECS/Source/Math/Stream.h:98-104 | reads an integer of the chosen type, as `ReadInteger` does |
| Streams.Stream.GetBuffer | ECS/Source/Math/Stream.h:82-85 | returns the buffer and changes nothing |
| Streams.ReadBackWritten | ECS/Source/Math/Stream.h:22-80 | the bytes written for a value, wherever they sit in a buffer, decode to that value |
| Streams.WriteReadScenario | ECS/Source/Math/Stream.h:17-80 | writing any uint32 and then any bool reads both back in that order, and a third read underflows |
| Streams.Vector2RoundTrip | ECS/Source/Math/Stream.h:38-95 | with X read first, a written vector reads back unchanged |
| Streams.Vector2SwappedAsWritten | ECS/Source/Math/Stream.h:92-95 | when the compiler evaluates the Y read first, every written vector reads back with X and Y swapped, so any vector with X different from Y comes back changed |
| Input.DefaultInput | ECS/Source/Game/Input/InputData.h:10 | frame 0, mouse (0, 0), empty key arrays |
| Input.CopyForNextFrame | ECS/Source/Game/Input/InputData.h:49-52 | the new frame number, the same mouse, and the current keys as both current and previous keys |
| Input.CopyForNextFrameTwice | ECS/Source/Game/Input/InputData.h:49-52 | copying forward twice is copying forward once to the later frame |
| Input.BoolsRoundTrip | ECS/Source/Game/Input/InputData.h:37-71 | key states written as bytes read back unchanged |
| Input.EncodingLength | ECS/Source/Game/Input/InputData.h:54-78 | a record with `n` keys occupies exactly `16 + 2n` bytes |
| Input.DecodeInputData | ECS/Source/Game/Input/InputData.h:21-47 | a decoded record has equally long key arrays, and the bytes consumed are `16 + 2n`, within the input |
| Input.HeaderFields | ECS/Source/Game/Input/InputData.h:24-66 | frame, mouse X, mouse Y and key count come back from their byte positions in the written order |
| Input.DecodeEncoding | ECS/Source/Game/Input/InputData.h:21-78 | decoding an encoded record, followed by any bytes, gives the record and its length |
| Input.TruncatedUnderflows | ECS/Source/Game/Input/InputData.h:24-45 | every proper prefix of an encoded record fails with underflow |
| Input.LongRecordUnreadable | ECS/Source/Game/Input/InputData.h:31-33 | a key count of 2^31 or more turns negative in `int` and the record cannot be read back |
| Input.WriteKeys | ECS/Source/Game/Input/InputData.h:68-77 | appends one byte per key state, in order |
| Input.Serialize | ECS/Source/Game/Input/InputData.h:54-78 | requires equally long key arrays; appends frame (u32), mouse X and Y (i32), key count (u32), current keys, previous keys; the cursor stays |
| Input.ReadKeys | ECS/Source/Game/Input/InputData.h:33-46 | reads `count` key states, or underflows when fewer bytes remain; the buffer is unchanged |
| Input.ReadHeader | ECS/Source/Game/Input/InputData.h:24-31 | reads frame, mouse X, mouse Y and the key count, or underflows |
| Input.ReadInputData | ECS/Source/Game/Input/InputData.h:21-47 | the stream constructor yields exactly what the pure decoder gives for the unread bytes, and on success advances the cursor by the record's length |
| Input.SerializeRoundTrip | ECS/Source/Game/Input/InputData.h:21-78 | serializing into an empty stream and constructing from its buffer gives the same record |
| Ecs.SetBit | ECS/Source/ECS/Layer.h:109-147 | `bitset::set` sets or clears exactly the given bit, and fails for a position past the 32nd bit |
| Ecs.DestroyAllRemoves | ECS/Source/ECS/Layer.h:49-59 | flushing the queue removes exactly the queued entities from the signatures, every component store and every system, and nothing else |
| Ecs.DestroyAllSignatures | ECS/Source/ECS/Layer.h:49-59 | flushing the queue drops exactly the queued entities' signatures |
| Ecs.DestroyAllStores | ECS/Source/ECS/Layer.h:49-59 | flushing the queue keeps every component collection and drops exactly the queued entities from each |
| Ecs.DestroyAllSystems | ECS/Source/ECS/Layer.h:49-59 | flushing the queue keeps every system and its interest, and drops exactly the queued entities from its set |
| Ecs.DestroyOnePreserves | ECS/Source/ECS/Layer.h:62-67 | destroying an entity in all three managers keeps signatures matched with stores and systems in step |
| Ecs.DestroyAllPreserves | ECS/Source/ECS/Layer.h:49-59 | flushing a queue keeps signatures matched with stores and systems in step |
| Ecs.AddPreservesMatch | ECS/Source/ECS/Layer.h:105-119 | setting the type's bit and storing the component keeps "bit set iff component stored" |
| Ecs.RemovePreservesMatch | ECS/Source/ECS/Layer.h:140-155 | erasing the component and clearing its bit keeps "bit set iff component stored" |
| Ecs.ForeignCollectionBreaksMatch | ECS/Source/ECS/Layer.h:123-137 | adding through the collection of a type other than the bit's breaks "bit set iff component stored" |
| Ecs.SignatureChangedInStep | ECS/Source/ECS/Layer.h:113-116 | notifying the systems of an entity's new signature leaves every system holding exactly the entities whose signature contains its interest |
| Ecs.SignatureChangedOnlyMoves | ECS/Source/ECS/Layer.h:113-116 | a notification moves only the notified entity, into the systems its signature covers and out of the others |
| Ecs.Layer.constructor | ECS/Source/ECS/Layer.h:15-21 | empty managers, empty queue, notifications on |
| Ecs.Layer.Overwrite | ECS/Source/ECS/Layer.h:25-32 | requires an empty destruction queue; the three managers become the other layer's, the queue and flag stay |
| Ecs.Layer.MarkEntityForDestruction | ECS/Source/ECS/Layer.h:43-46 | only appends the entity to the queue; its signature, components and systems are untouched |
| Ecs.Layer.DestroyMarkedEntities | ECS/Source/ECS/Layer.h:49-59 | destroys every queued entity in the entity, component and system managers in queue order, ends with an empty queue, and keeps both invariants |
| Ecs.Layer.ImmediatelyDestroyEntity | ECS/Source/ECS/Layer.h:62-67 | the same three destroys for one entity; the queue is unchanged |
| Ecs.Layer.GetSignature | ECS/Source/ECS/Layer.h:76-79 | the entity's recorded signature, or the empty one |
| Ecs.Layer.AddComponent | ECS/Source/ECS/Layer.h:104-119 | sets exactly the type's bit, notifies the systems unless suppressed, stores the component, and keeps "bit set iff stored"; a type past bit 31 fails before anything changes |
| Ecs.Layer.AddComponentToCollection | ECS/Source/ECS/Layer.h:122-137 | as `AddComponent`, but the component goes to the collection passed in; the match is kept when that is the type's own collection |
| Ecs.Layer.RemoveComponent | ECS/Source/ECS/Layer.h:139-155 | erases the component, then clears exactly the bit and notifies unless suppressed; a type past bit 31 fails after the component is erased |
| Ecs.Layer.FinalizeEntitySystems | ECS/Source/ECS/Layer.h:205-210 | notifies the systems of the entity's current signature and turns notifications back on |
| Ecs.Layer.IgnoreSignatureChanged | ECS/Source/ECS/Layer.h:212-215 | sets the flag and nothing else |
| Ecs.BatchAddThenFinalize | ECS/Source/ECS/Layer.h:104-215 | two adds with notifications suppressed followed by a finalize give the entity its old signature plus both bits and leave the systems as one notification with that signature would: every system holds the entity exactly when the new signature covers its interest, and systems that were in step stay in step |

## Left out

- Conversion to and from floating point (`fixed.hpp:79-83`), the `std::hash` and `numeric_limits` specialisations (`fixed.hpp:500-625`) and the `e`/`pi` constants. These are floating point or library boilerplate.
- The converting constructor from another `fixed` instance (`fixed.hpp:62-65`) is `from_fixed_point<F>` of the other raw value. It is covered by `FixedPoint.FromFixedPoint`.
- The integer-part constructor at `fixed.hpp:67-70`. Its template parameter `T` cannot be deduced, so it cannot be called.
- Operators with an integer left operand (`fixed.hpp:322-326, 344-348, 366-370, 388-392`). Each converts or reorders and then applies a modelled operation. They are compositions of `FromInt`, `AddInt`, `Sub`, `MulInt` and `Div`.
- Signed overflow of 32-bit `int` arithmetic is undefined behaviour in C++. It is modelled as two's-complement wrap-around, like `static_cast`.
- FixedPoint.MultiplyFixed: the contract covers only the case where nothing overflows 32 bits. The general decimal accuracy is stated for `FromFixed` on 16-bit parts, the only way the class calls it.
- Streams.Stream.WriteEnum, Streams.Stream.ReadEnum: an enum is modelled by its integer value.
- `Vector2` (`FixedTypes.h`) is not part of this model beyond its two fixed-point fields `X` and `Y`.
- Input.ReadInputData: no cursor position is stated after a failed read, because the source leaves it wherever the failing read stopped.
- FixedPoint.ToIntegral: a `T` of `bool` is not modelled; `static_cast<bool>` gives `true` for every non-zero quotient.
- FixedPoint.FromIntegerAndFraction: converting an argument outside 16 bits to `int16_t` is implementation-defined before C++20; it is modelled as the modular conversion C++20 requires.
- `MAXENTITIES` and `ENTITYNULL` (`ECS/Source/Base/Settings.h:12,17`) are declared as `Ecs.MaxEntities` and `Ecs.EntityNull`; they are used only by the entity manager, which is not part of this model.
- Running out of memory while growing a buffer or a vector is not modelled.
- Input.ReadInputData: a key count of 2^31 or more becomes negative in `int inputSize`, and `vector::resize` then throws. This is modelled as `LengthError` without distinguishing `length_error` from `bad_alloc`.
- The entity, component and system managers are not part of this model. They are described by the maps and sets above, and a system's entity set follows the interest-signature rule.
- The remaining `Layer` delegations are not modelled because their behaviour lies wholly in the managers:
  - `CreateEntity`, `GetEntityCount` and `GetActiveEntities`;
  - `RegisterComponent`, `GetComponent`, `GetComponentCollection`, `HasComponent` and `GetComponentType`;
  - `RegisterSystem` and `RegisterSystemType`.
- The two-argument `AddComponent<T>` (`Layer.h:97-101`) looks up `GetComponentType<T>()` in the component registry and calls the three-argument form, which is `Ecs.Layer.AddComponent`. The registry is not modelled. For the same reason `RemoveComponent<T>` takes the component type as a parameter.
- Component values of all types share one type parameter `V`, and the pointer returned by `AddComponent` is modelled as the stored value.

## Findings

| source | as written | input that shows it | evidently intended | confidence | as-written member | corrected member |
|---|---|---|---|---|---|---|
| ECS/Source/Math/FPM/fixed.hpp:435-476 | a fixed/integer comparison computes `y * 2^16` in 64 bits and then casts it to the 32-bit base type, so large integers wrap | `fixed(0) == 65536` is true; `fixed(1) < 32768` is false | compare the raw value with `y * 2^16` in the 64-bit intermediate type | not executed | FixedPoint.IntComparisonsAsWrittenWrap | FixedPoint.IntComparisonsOrderValues |
| ECS/Source/Math/Stream.h:92-95 | `ReadVector2` performs its two reads as constructor arguments, whose evaluation order C++ leaves unspecified | writing (1, 2) and reading it back gives (2, 1) when the compiler evaluates the second argument first | read X, then Y, into named locals, matching `WriteVector2` | not executed | Streams.Vector2SwappedAsWritten | Streams.Vector2RoundTrip |
