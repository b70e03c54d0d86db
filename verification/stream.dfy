/**
 * The cursor-managed buffer: a byte array whose length never changes
 * (except through `Reset`), a write cursor, a read cursor and an
 * endianness flag, with every operation of the stream as a pure
 * transition from one state to the next.
 */
module Stream {
  import opened CSharpInt
  import opened Bitwise
  import opened Codec
  import opened VarInt

  /** A C# `byte[]`: its length is a non-negative `int`. */
  type Bytes = b: seq<uint8> | |b| <= INT32_MAX

  /** The four fields of a `BinaryStream`. The public constructor stores
      whatever cursors it is given, so a cursor may be any `int`. */
  datatype BinaryStream = BinaryStream(buffer: Bytes, writingPos: int32, readingPos: int32, isBigEndian: bool)

  /** The outcome of an operation: `Ok` with the new state and the value
      returned, or `Fault` with the state at the moment the operation
      threw (an operation that throws part-way keeps its earlier
      effects). */
  datatype Step<T> = Ok(st: BinaryStream, value: T) | Fault(st: BinaryStream)

  datatype Option<T> = Some(value: T) | None

  /** `n` zero bytes, the contents of a fresh `byte[n]`. */
  function Zeros(n: nat): (r: seq<uint8>)
    ensures |r| == n
    ensures forall i :: 0 <= i < n ==> r[i] == 0
  {
    if n == 0 then [] else [0] + Zeros(n - 1)
  }

  // ---------------------------------------------------------------------
  // Construction and the raw operations
  // ---------------------------------------------------------------------

  /** `allocate`: a zero-filled buffer of `size` bytes with both cursors
      at 0; a negative size makes the array allocation throw. */
  function Allocate(size: int32, bigEndian: bool): (r: Option<BinaryStream>)
    ensures r.Some? <==> size >= 0
    ensures r.Some? ==> && |r.value.buffer| == size
                        && (forall i :: 0 <= i < size ==> r.value.buffer[i] == 0)
                        && r.value.writingPos == 0 && r.value.readingPos == 0
                        && r.value.isBigEndian == bigEndian
  {
    if size < 0 then None else Some(BinaryStream(Zeros(size), 0, 0, bigEndian))
  }

  /** `write`: copy `bytes` into the buffer at the write cursor, then
      advance the cursor. The copy throws before anything changes when
      the cursor is negative or the bytes would run past the end. */
  function Write(st: BinaryStream, bytes: Bytes): (r: Step<()>)
    ensures r.Ok? <==> 0 <= st.writingPos && st.writingPos + |bytes| <= |st.buffer|
    ensures r.Fault? ==> r.st == st
    ensures r.Ok? ==>
      && |r.st.buffer| == |st.buffer|
      && r.st.buffer[st.writingPos..st.writingPos + |bytes|] == bytes
      && (forall i :: 0 <= i < |st.buffer| && !(st.writingPos <= i < st.writingPos + |bytes|) ==>
            r.st.buffer[i] == st.buffer[i])
      && r.st.writingPos == st.writingPos + |bytes|
      && r.st.readingPos == st.readingPos
      && r.st.isBigEndian == st.isBigEndian
  {
    var pos := st.writingPos;
    if pos < 0 || pos + |bytes| > |st.buffer| then Fault(st)
    else
      var copied := st.buffer[..pos] + bytes + st.buffer[pos + |bytes|..];
      assert copied[pos..pos + |bytes|] == bytes;
      Ok(st.(buffer := copied, writingPos := Wrap32(pos + |bytes|)), ())
  }

  /** `(rpos + size) - size` in `int` arithmetic is `rpos` again, whatever
      wrapped in between. */
  lemma ReadSource(rpos: int32, size: int32)
    ensures Wrap32(Wrap32(rpos + size) - size) == rpos
  {
    Wrap32Add(rpos + size, -(size as int));
  }

  /** `read`: the read cursor advances by `size` first (wrapping), then
      `size` bytes are copied out from where it was. A negative size
      makes the array allocation throw, and a copy that starts before
      the buffer or runs past its end throws; either way the cursor has
      already moved. */
  function Read(st: BinaryStream, size: int32): (r: Step<seq<uint8>>)
    ensures r.st == st.(readingPos := Wrap32(st.readingPos + size))
    ensures r.Ok? <==> 0 <= size && 0 <= st.readingPos && st.readingPos + size <= |st.buffer|
    ensures r.Ok? ==> && r.value == st.buffer[st.readingPos..st.readingPos + size]
                      && r.st.readingPos == st.readingPos + size
  {
    var advanced := st.(readingPos := Wrap32(st.readingPos + size));
    if size < 0 then Fault(advanced)
    else
      var src := Wrap32(advanced.readingPos - size);
      ReadSource(st.readingPos, size);
      if 0 <= src && src + size <= |st.buffer| then Ok(advanced, st.buffer[src..src + size])
      else Fault(advanced)
  }

  /** `eos`: the read cursor has reached the end of the buffer. */
  predicate Eos(st: BinaryStream)
  {
    st.readingPos >= |st.buffer|
  }

  /** `rewind`: both cursors back to the start. */
  function Rewind(st: BinaryStream): BinaryStream
  {
    st.(writingPos := 0, readingPos := 0)
  }

  /** `reset`: an empty buffer and both cursors at the start. */
  function Reset(st: BinaryStream): BinaryStream
  {
    st.(buffer := [], writingPos := 0, readingPos := 0)
  }

  /** `swapEndian`: flip the byte order of later typed operations. */
  function SwapEndian(st: BinaryStream): BinaryStream
  {
    st.(isBigEndian := !st.isBigEndian)
  }

  // ---------------------------------------------------------------------
  // Fixed-width writes
  // ---------------------------------------------------------------------

  /** `writeInt8`: one byte, the `(byte)` cast of the limited value. */
  function WriteInt8(st: BinaryStream, value: int32, signed: bool): (r: Step<()>)
    ensures r.Ok? <==> 0 <= st.writingPos < |st.buffer|
  {
    Write(st, [LowByte(Limit(value, W8, signed))])
  }

  /** `writeBool`: the byte 1 or 0. */
  function WriteBool(st: BinaryStream, value: bool): (r: Step<()>)
    ensures r.Ok? <==> 0 <= st.writingPos < |st.buffer|
  {
    WriteInt8(st, if value then 1 else 0, false)
  }

  /** `writeInt16`, `writeInt24` and `writeInt32`: limit the value, split
      it into bytes in the stream's byte order, write them. */
  function WriteInt(st: BinaryStream, w: Width, value: int32, signed: bool): (r: Step<()>)
    requires w.HasShiftOrder()
    ensures r.Ok? <==> 0 <= st.writingPos && st.writingPos + w.Bytes() <= |st.buffer|
    ensures r.Fault? ==> r.st == st
    ensures r.Ok? ==> && |r.st.buffer| == |st.buffer|
                      && r.st.writingPos == st.writingPos + w.Bytes()
                      && r.st.readingPos == st.readingPos
                      && r.st.isBigEndian == st.isBigEndian
  {
    Write(st, WriteValueIntoBytes(w, st.isBigEndian, Limit(value, w, signed)))
  }

  /** The `(int)(value >> 32)` half of a `long`. */
  function High32(value: int64): int32
  {
    Wrap32(Shr64(value, 32))
  }

  /** The `(int)(value & 0xFFFFFFFF)` half of a `long`. */
  function Low32(value: int64): int32
  {
    Wrap32(And64(value, 0xFFFF_FFFF))
  }

  /** `writeInt64`: the high half, then the low half, each as an `int`
      through `writeInt32`. When only the first half fits, it stays
      written. */
  function WriteInt64(st: BinaryStream, value: int64, signed: bool): (r: Step<()>)
    ensures r.Ok? <==> 0 <= st.writingPos && st.writingPos + 8 <= |st.buffer|
  {
    var first := WriteInt(st, W32, High32(value), signed);
    if first.Fault? then first else WriteInt(first.st, W32, Low32(value), signed)
  }

  /** `writeFloat`, given the float's bit pattern: a signed `writeInt32`. */
  function WriteFloatBits(st: BinaryStream, bits: int32): Step<()>
  {
    WriteInt(st, W32, bits, true)
  }

  /** `writeDouble`, given the double's bit pattern: a signed `writeInt64`. */
  function WriteDoubleBits(st: BinaryStream, bits: int64): Step<()>
  {
    WriteInt64(st, bits, true)
  }

  // ---------------------------------------------------------------------
  // Variable-length writes
  // ---------------------------------------------------------------------

  /** The loop of `writeVarInt` from iteration `i` on: each iteration
      writes one byte through `writeInt8`; an exception ends the loop. */
  function WriteVarIntFrom(st: BinaryStream, value: int32, i: nat): Step<()>
    decreases 5 - i
  {
    if i >= 5 then Ok(st, ())
    else
      var toWrite := And32(value, 0x7F);
      var rest := Shr32(value, 7);
      if rest != 0 then
        var first := WriteInt8(st, Or32(toWrite, 0x80), false);
        if first.Fault? then first else WriteVarIntFrom(first.st, rest, i + 1)
      else
        WriteInt8(st, toWrite, false)
  }

  /** `writeVarInt`. */
  function WriteVarInt(st: BinaryStream, value: int32): Step<()>
  {
    WriteVarIntFrom(st, value, 0)
  }

  /** `writeVarLong`: the high half, then the low half, each through
      `writeVarInt`. */
  function WriteVarLong(st: BinaryStream, value: int64): Step<()>
  {
    var first := WriteVarInt(st, High32(value));
    if first.Fault? then first else WriteVarInt(first.st, Low32(value))
  }

  /** `writeZigZag32`. */
  function WriteZigZag32(st: BinaryStream, value: int32): Step<()>
  {
    WriteVarInt(st, ZigZag32(value))
  }

  /** `writeZigZag64`: the high half, then the low half, each through
      `writeZigZag32`. */
  function WriteZigZag64(st: BinaryStream, value: int64): Step<()>
  {
    var first := WriteZigZag32(st, High32(value));
    if first.Fault? then first else WriteZigZag32(first.st, Low32(value))
  }

  // ---------------------------------------------------------------------
  // Reads
  // ---------------------------------------------------------------------

  /** `readInt16`, `readInt24` and `readInt32`: read the bytes, reassemble
      them in the stream's byte order, limit the result. */
  function ReadInt(st: BinaryStream, w: Width, signed: bool): (r: Step<int32>)
    requires w.HasShiftOrder()
    ensures r.Ok? <==> 0 <= st.readingPos && st.readingPos + w.Bytes() <= |st.buffer|
    ensures r.st == st.(readingPos := Wrap32(st.readingPos + w.Bytes()))
  {
    var raw := Read(st, w.Bytes() as int32);
    if raw.Fault? then Fault(raw.st)
    else Ok(raw.st, Limit(ReadValueFromBytes(raw.value, w, st.isBigEndian), w, signed))
  }

  /** `readBool`: an unsigned 16-bit read compared with 1. */
  function ReadBool(st: BinaryStream): (r: Step<bool>)
    ensures r.Ok? <==> 0 <= st.readingPos && st.readingPos + 2 <= |st.buffer|
    ensures r.st == st.(readingPos := Wrap32(st.readingPos + 2))
  {
    var r := ReadInt(st, W16, false);
    if r.Fault? then Fault(r.st) else Ok(r.st, r.value == 1)
  }

  /** `readInt64`: two unsigned 32-bit reads, widened to `long`,
      combined as `(high << 32) | (low & 0xFFFFFFFF)`. When the first
      half is not inside the buffer the cursor has moved by 4, otherwise
      by 8. */
  function ReadInt64(st: BinaryStream): (r: Step<int64>)
    ensures r.Ok? <==> 0 <= st.readingPos && st.readingPos + 8 <= |st.buffer|
    ensures r.Ok? ==> r.st == st.(readingPos := st.readingPos + 8)
    ensures r.st == st.(readingPos := if 0 <= st.readingPos && st.readingPos + 4 <= |st.buffer|
                                      then Wrap32(st.readingPos + 8)
                                      else Wrap32(st.readingPos + 4))
  {
    var high := ReadInt(st, W32, false);
    if high.Fault? then Fault(high.st)
    else
      var low := ReadInt(high.st, W32, false);
      if low.Fault? then Fault(low.st)
      else Ok(low.st, Or64(Shl64(high.value, 32), And64(low.value, 0xFFFF_FFFF)))
  }

  /** `readFloat`, returning the float's bit pattern: a signed `readInt32`. */
  function ReadFloatBits(st: BinaryStream): Step<int32>
  {
    ReadInt(st, W32, true)
  }

  /** `readDouble`, returning the double's bit pattern. */
  function ReadDoubleBits(st: BinaryStream): Step<int64>
  {
    ReadInt64(st)
  }

  /** `readRemaining`: a read of `buffer.Length - readingPos` bytes. */
  function ReadRemaining(st: BinaryStream): Step<seq<uint8>>
  {
    Read(st, Wrap32(|st.buffer| - st.readingPos))
  }
}
