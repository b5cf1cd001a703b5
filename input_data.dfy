/**
 * `InputData`: one frame of player input (frame number, mouse position and
 * two key-state arrays) and its byte layout in a `Stream`: frame (u32),
 * mouse X and Y (i32), key count (u32), the current keys, the previous keys.
 */
module Input {
  import opened CInt
  import opened Wrappers
  import opened FixedPoint
  import opened Streams

  type UInt32 = x: int | 0 <= x < 0x1_0000_0000

  /**
   * The record; the datatype constructor is the source's field constructor,
   * with the same argument order.
   */
  datatype InputData = InputData(Frame: UInt32, Input: seq<bool>, LastInput: seq<bool>, MouseX: Int32, MouseY: Int32)

  datatype InputError = StreamFailure(cause: StreamError) | LengthError

  /** The default constructor: frame 0, mouse at the origin, no keys. */
  function DefaultInput(): (d: InputData)
    ensures d.Frame == 0 && d.MouseX == 0 && d.MouseY == 0
    ensures d.Input == [] && d.LastInput == []
  {
    InputData(0, [], [], 0, 0)
  }

  /**
   * `CopyForNextFrame(frame)`: the same keys and mouse for `frame`, with the
   * current keys becoming the previous ones.
   */
  function CopyForNextFrame(d: InputData, frame: UInt32): (r: InputData)
    ensures r.Frame == frame && r.MouseX == d.MouseX && r.MouseY == d.MouseY
    ensures r.Input == d.Input && r.LastInput == d.Input
    ensures |r.Input| == |r.LastInput|
  {
    InputData(frame, d.Input, d.Input, d.MouseX, d.MouseY)
  }

  /** Copying twice is copying once for the later frame. */
  lemma CopyForNextFrameTwice(d: InputData, f1: UInt32, f2: UInt32)
    ensures CopyForNextFrame(CopyForNextFrame(d, f1), f2) == CopyForNextFrame(d, f2)
  {
  }

  // ---------------------------------------------------------------------
  // Byte layout
  // ---------------------------------------------------------------------

  function BoolBytes(keys: seq<bool>): (bytes: seq<Byte>)
    ensures |bytes| == |keys|
  {
    seq(|keys|, i requires 0 <= i < |keys| => BoolByte(keys[i]))
  }

  function BoolsOf(bytes: seq<Byte>): (keys: seq<bool>)
    ensures |keys| == |bytes|
  {
    seq(|bytes|, i requires 0 <= i < |bytes| => bytes[i] != 0)
  }

  lemma BoolsRoundTrip(keys: seq<bool>)
    ensures BoolsOf(BoolBytes(keys)) == keys
  {
  }

  /** The 16-byte header `Serialize` writes before the key arrays. */
  function Header(d: InputData): (bytes: seq<Byte>)
    ensures |bytes| == 16
  {
    Encode(U32, d.Frame) + Encode(I32, d.MouseX) + Encode(I32, d.MouseY) + Encode(U32, Cast(U32, |d.Input|))
  }

  /** Everything `Serialize` writes, in order; the key count is cast to 32 bits. */
  function Encoding(d: InputData): (bytes: seq<Byte>)
    requires |d.Input| == |d.LastInput|
  {
    Header(d) + BoolBytes(d.Input) + BoolBytes(d.LastInput)
  }

  /** A record takes sixteen bytes plus one byte per key in each array. */
  lemma EncodingLength(d: InputData)
    requires |d.Input| == |d.LastInput|
    ensures |Encoding(d)| == 16 + 2 * |d.Input|
  {
  }

  /** The four header fields as read: frame, mouse X, mouse Y and the key count as stored in an `int`. */
  function DecodeHeader(bytes: seq<Byte>): (h: (UInt32, Int32, Int32, Int32))
    requires |bytes| >= 16
  {
    (Decode(U32, bytes[0..4]), Decode(I32, bytes[4..8]), Decode(I32, bytes[8..12]),
     Cast(I32, Decode(U32, bytes[12..16])))
  }

  /**
   * What the stream constructor reads from `bytes`: the record and the
   * number of bytes it uses, or the error it stops with.  The key count
   * is stored in an `int`, so a count of 2^31 or more turns negative and
   * the resize fails.
   */
  function DecodeInputData(bytes: seq<Byte>): (r: Result<(InputData, nat), InputError>)
    ensures r.Ok? ==> |r.value.0.Input| == |r.value.0.LastInput|
    ensures r.Ok? ==> r.value.1 == 16 + 2 * |r.value.0.Input| <= |bytes|
  {
    if |bytes| < 16 then Err(StreamFailure(Underflow))
    else
      var (frame, mouseX, mouseY, count) := DecodeHeader(bytes);
      if count < 0 then Err(LengthError)
      else if |bytes| < 16 + 2 * count then Err(StreamFailure(Underflow))
      else
        var input := BoolsOf(bytes[16..16 + count]);
        var lastInput := BoolsOf(bytes[16 + count..16 + 2 * count]);
        Ok((InputData(frame, input, lastInput, mouseX, mouseY), 16 + 2 * count))
  }

  lemma HeaderFields(d: InputData, bytes: seq<Byte>)
    requires |d.Input| < 0x8000_0000 && |bytes| >= 16 && bytes[..16] == Header(d)
    ensures Decode(U32, bytes[0..4]) == d.Frame
    ensures Decode(I32, bytes[4..8]) == d.MouseX
    ensures Decode(I32, bytes[8..12]) == d.MouseY
    ensures Cast(I32, Decode(U32, bytes[12..16])) == |d.Input|
  {
    var h := Header(d);
    assert bytes[0..4] == h[0..4] == Encode(U32, d.Frame);
    assert bytes[4..8] == h[4..8] == Encode(I32, d.MouseX);
    assert bytes[8..12] == h[8..12] == Encode(I32, d.MouseY);
    assert bytes[12..16] == h[12..16] == Encode(U32, Cast(U32, |d.Input|));
    IntegerRoundTrip(U32, d.Frame);
    IntegerRoundTrip(I32, d.MouseX);
    IntegerRoundTrip(I32, d.MouseY);
    CastId(U32, |d.Input|);
    IntegerRoundTrip(U32, |d.Input|);
    CastId(I32, |d.Input|);
  }

  /**
   * Round trip: reading a serialized record, whatever follows it, gives the
   * record back and uses exactly its bytes.
   */
  lemma DecodeEncoding(d: InputData, rest: seq<Byte>)
    requires |d.Input| == |d.LastInput| < 0x8000_0000
    ensures DecodeInputData(Encoding(d) + rest) == Ok((d, 16 + 2 * |d.Input|))
  {
    var n := |d.Input|;
    var bytes := Encoding(d) + rest;
    assert bytes[..16] == Header(d);
    HeaderFields(d, bytes);
    assert bytes[16..16 + n] == BoolBytes(d.Input);
    assert bytes[16 + n..16 + 2 * n] == BoolBytes(d.LastInput);
    BoolsRoundTrip(d.Input);
    BoolsRoundTrip(d.LastInput);
  }

  /** Any bytes cut short of a whole record make the stream constructor fail with underflow. */
  lemma TruncatedUnderflows(d: InputData, length: nat)
    requires |d.Input| == |d.LastInput| < 0x8000_0000
    requires length < |Encoding(d)|
    ensures DecodeInputData(Encoding(d)[..length]) == Err(StreamFailure(Underflow))
  {
    var bytes := Encoding(d)[..length];
    if length >= 16 {
      assert bytes[..16] == Header(d);
      HeaderFields(d, bytes);
    }
  }

  /** As written, a record with 2^31 to 2^32 - 1 keys is serialized but cannot be read back. */
  lemma LongRecordUnreadable(d: InputData, rest: seq<Byte>)
    requires |d.Input| == |d.LastInput| && 0x8000_0000 <= |d.Input| < 0x1_0000_0000
    ensures DecodeInputData(Encoding(d) + rest) == Err(LengthError)
  {
    var bytes := Encoding(d) + rest;
    var h := Header(d);
    assert bytes[12..16] == h[12..16] == Encode(U32, Cast(U32, |d.Input|));
    CastId(U32, |d.Input|);
    IntegerRoundTrip(U32, |d.Input|);
    var c := Cast(I32, |d.Input|);
    CastDiff(I32, |d.Input|);
    assert (|d.Input| - c) % 0x1_0000_0000 == 0;
    if c >= 0 {
      DivModUnique(|d.Input| - c, 0x1_0000_0000, 0, |d.Input| - c);
    }
  }

  // ---------------------------------------------------------------------
  // Reading and writing through a stream
  // ---------------------------------------------------------------------

  /** The loops `for (bool value : keys) stream.WriteBool(value)`. */
  method WriteKeys(stream: Stream, keys: seq<bool>)
    requires stream.Valid()
    modifies stream
    ensures stream.Valid()
    ensures stream.buffer == old(stream.buffer) + BoolBytes(keys)
    ensures stream.currentIndex == old(stream.currentIndex)
  {
    for i := 0 to |keys|
      invariant stream.Valid() && stream.currentIndex == old(stream.currentIndex)
      invariant stream.buffer == old(stream.buffer) + BoolBytes(keys[..i])
    {
      assert BoolBytes(keys[..i + 1]) == BoolBytes(keys[..i]) + [BoolByte(keys[i])];
      stream.WriteBool(keys[i]);
    }
    assert keys[..|keys|] == keys;
  }

  /** `Serialize`: appends the record; both key arrays must have the same length. */
  method Serialize(d: InputData, stream: Stream)
    requires stream.Valid() && |d.Input| == |d.LastInput|
    modifies stream
    ensures stream.Valid()
    ensures stream.buffer == old(stream.buffer) + Encoding(d)
    ensures stream.currentIndex == old(stream.currentIndex)
  {
    stream.WriteInteger(U32, d.Frame);
    stream.WriteInteger(I32, d.MouseX);
    stream.WriteInteger(I32, d.MouseY);
    stream.WriteInteger(U32, Cast(U32, |d.Input|));
    assert stream.buffer == old(stream.buffer) + Header(d);
    WriteKeys(stream, d.Input);
    WriteKeys(stream, d.LastInput);
  }

  /**
   * The loops that fill a key array already resized to `count` entries of
   * `false`, one `ReadBool` per key.
   */
  method ReadKeys(stream: Stream, count: nat) returns (r: Result<seq<bool>, StreamError>)
    requires stream.Valid()
    modifies stream
    ensures stream.Valid() && stream.buffer == old(stream.buffer)
    ensures old(stream.currentIndex) + count > |stream.buffer| ==> r == Err(Underflow)
    ensures old(stream.currentIndex) + count <= |stream.buffer| ==>
              r == Ok(BoolsOf(stream.buffer[old(stream.currentIndex)..old(stream.currentIndex) + count])) &&
              stream.currentIndex == old(stream.currentIndex) + count
  {
    ghost var start := stream.currentIndex;
    var keys := seq(count, _ => false);
    for i := 0 to count
      invariant stream.Valid() && stream.buffer == old(stream.buffer)
      invariant stream.currentIndex == start + i
      invariant |keys| == count
      invariant keys[..i] == BoolsOf(stream.buffer[start..start + i])
    {
      var key := stream.ReadBool();
      if key.Err? {
        return Err(key.error);
      }
      assert stream.buffer[start..start + i + 1] == stream.buffer[start..start + i] + [stream.buffer[start + i]];
      keys := keys[i := key.value];
      assert keys[..i + 1] == keys[..i] + [key.value];
    }
    assert keys == keys[..count];
    return Ok(keys);
  }

  /** The header reads of the stream constructor: frame, mouse X and Y, and the key count into an `int`. */
  method ReadHeader(stream: Stream) returns (r: Result<(UInt32, Int32, Int32, Int32), StreamError>)
    requires stream.Valid()
    modifies stream
    ensures stream.Valid() && stream.buffer == old(stream.buffer)
    ensures old(stream.currentIndex) + 16 > |stream.buffer| ==> r == Err(Underflow)
    ensures old(stream.currentIndex) + 16 <= |stream.buffer| ==>
              r == Ok(DecodeHeader(stream.buffer[old(stream.currentIndex)..])) &&
              stream.currentIndex == old(stream.currentIndex) + 16
  {
    ghost var start := stream.currentIndex;
    ghost var bytes := stream.buffer[start..];
    var frame := stream.ReadInteger(U32);
    if frame.Err? {
      return Err(frame.error);
    }
    assert bytes[0..4] == stream.buffer[start..start + 4];
    var mouseX := stream.ReadInteger(I32);
    if mouseX.Err? {
      return Err(mouseX.error);
    }
    assert bytes[4..8] == stream.buffer[start + 4..start + 8];
    var mouseY := stream.ReadInteger(I32);
    if mouseY.Err? {
      return Err(mouseY.error);
    }
    assert bytes[8..12] == stream.buffer[start + 8..start + 12];
    var size := stream.ReadInteger(U32);
    if size.Err? {
      return Err(size.error);
    }
    assert bytes[12..16] == stream.buffer[start + 12..start + 16];
    return Ok((frame.value, mouseX.value, mouseY.value, Cast(I32, size.value)));
  }

  /**
   * The stream constructor `InputData(Stream&&)`: reads the header, sizes
   * both key arrays by the one count, and fills them key by key.
   */
  method ReadInputData(stream: Stream) returns (r: Result<InputData, InputError>)
    requires stream.Valid()
    modifies stream
    ensures stream.Valid() && stream.buffer == old(stream.buffer)
    ensures var expected := DecodeInputData(old(stream.buffer)[old(stream.currentIndex)..]);
            match expected
            case Ok(p) => r == Ok(p.0) && stream.currentIndex == old(stream.currentIndex) + p.1
            case Err(e) => r == Err(e)
  {
    ghost var start := stream.currentIndex;
    ghost var bytes := stream.buffer[start..];
    var header := ReadHeader(stream);
    if header.Err? {
      return Err(StreamFailure(header.error));
    }
    var (frame, mouseX, mouseY, inputSize) := header.value;
    if inputSize < 0 {
      return Err(LengthError);
    }
    var count: nat := inputSize;
    var input := ReadKeys(stream, count);
    if input.Err? {
      return Err(StreamFailure(input.error));
    }
    assert stream.currentIndex == start + 16 + count;
    assert bytes[16..16 + count] == stream.buffer[start + 16..start + 16 + count];
    var lastInput := ReadKeys(stream, count);
    if lastInput.Err? {
      return Err(StreamFailure(lastInput.error));
    }
    ghost var end := start + 16 + 2 * count;
    assert stream.currentIndex == end <= |stream.buffer|;
    assert bytes[16 + count..16 + 2 * count] == stream.buffer[start + 16 + count..end];
    return Ok(InputData(frame, input.value, lastInput.value, mouseX, mouseY));
  }

  /**
   * A record serialized into an empty stream and read back from a stream
   * over that buffer comes back unchanged, when it has fewer than 2^31 keys.
   */
  method SerializeRoundTrip(d: InputData) returns (r: Result<InputData, InputError>)
    requires |d.Input| == |d.LastInput| < 0x8000_0000
    ensures r == Ok(d)
  {
    var writer := new Stream();
    Serialize(d, writer);
    var buffer := writer.GetBuffer();
    var reader := new Stream.FromBuffer(buffer);
    DecodeEncoding(d, []);
    assert buffer[0..] == Encoding(d) + [];
    r := ReadInputData(reader);
  }
}
