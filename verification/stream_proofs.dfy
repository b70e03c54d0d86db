/**
 * Properties of the stream: what the control operations do to later
 * reads and writes, which bytes each typed write leaves in the buffer,
 * and what a typed read returns when it starts where the matching write
 * started.
 */
module StreamProofs {
  import opened CSharpInt
  import opened Bitwise
  import opened Codec
  import opened CodecProofs
  import opened LimitProofs
  import opened Stream

  // ---------------------------------------------------------------------
  // rewind, reset, eos, swapEndian
  // ---------------------------------------------------------------------

  /** After `rewind` the next read starts at the beginning of the buffer
      and the next write overwrites it from the beginning. */
  lemma RewindRestarts(st: BinaryStream, n: int32, bytes: Bytes)
    requires 0 <= n <= |st.buffer| && |bytes| <= |st.buffer|
    ensures Rewind(st).buffer == st.buffer && Rewind(st).isBigEndian == st.isBigEndian
    ensures Read(Rewind(st), n) == Ok(Rewind(st).(readingPos := n), st.buffer[..n])
    ensures Write(Rewind(st), bytes).Ok?
    ensures Write(Rewind(st), bytes).st.buffer == bytes + st.buffer[|bytes|..]
  {
    var r := Write(Rewind(st), bytes).st.buffer;
    assert r == bytes + st.buffer[|bytes|..] by {
      assert forall i :: 0 <= i < |bytes| ==> r[i] == r[0..|bytes|][i];
    }
  }

  /** After `reset` the stream is at its end, and only empty writes and
      reads succeed. */
  lemma ResetEmpties(st: BinaryStream, bytes: Bytes, n: int32)
    ensures Eos(Reset(st)) && |Reset(st).buffer| == 0
    ensures Write(Reset(st), bytes).Ok? <==> |bytes| == 0
    ensures Read(Reset(st), n).Ok? <==> n == 0
  {
  }

  /** `eos` holds exactly when a one-byte read from a non-negative cursor
      fails; at the end, no read of a positive size succeeds. */
  lemma EosMeansNoMoreBytes(st: BinaryStream, n: int32)
    requires n > 0
    ensures 0 <= st.readingPos ==> (Eos(st) <==> Read(st, 1).Fault?)
    ensures Eos(st) ==> Read(st, n).Fault?
  {
  }

  /** `swapEndian` flips only the flag; twice is the identity. */
  lemma SwapEndianInvolution(st: BinaryStream)
    ensures SwapEndian(st).isBigEndian == !st.isBigEndian
    ensures SwapEndian(st).(isBigEndian := st.isBigEndian) == st
    ensures SwapEndian(SwapEndian(st)) == st
  {
  }

  /** `readRemaining` always leaves the read cursor at the end of the
      buffer; it succeeds exactly when the cursor was inside the buffer,
      returning the rest of it. */
  lemma ReadRemainingRest(st: BinaryStream)
    ensures ReadRemaining(st).st.readingPos == |st.buffer|
    ensures Eos(ReadRemaining(st).st)
    ensures ReadRemaining(st).Ok? <==> 0 <= st.readingPos <= |st.buffer|
    ensures ReadRemaining(st).Ok? ==> ReadRemaining(st).value == st.buffer[st.readingPos..]
  {
    RemainingSize(st.readingPos, |st.buffer|);
  }

  /** The size `readRemaining` asks for, in `int` arithmetic. */
  lemma RemainingSize(rpos: int32, len: nat)
    requires len <= INT32_MAX
    ensures var size := Wrap32(len - rpos);
            && Wrap32(rpos + size) == len
            && (0 <= size && 0 <= rpos && rpos + size <= len <==> 0 <= rpos <= len)
            && (0 <= rpos <= len ==> size == len - rpos)
  {
    var size := Wrap32(len - rpos);
    Wrap32Add(len - rpos, rpos);
    if size >= 0 && 0 <= rpos && rpos + size <= len {
      var q := (len - rpos + 0x8000_0000) / 0x1_0000_0000;
      assert size == len - rpos - q * 0x1_0000_0000;
    }
  }

  // ---------------------------------------------------------------------
  // The bytes of a typed write
  // ---------------------------------------------------------------------

  /** `writeInt8` stores the value modulo 256, except that an unsigned
      write of a negative value stores 0. */
  lemma WriteInt8Byte(st: BinaryStream, value: int32, signed: bool)
    requires WriteInt8(st, value, signed).Ok?
    ensures WriteInt8(st, value, signed).st.buffer[st.writingPos]
         == if !signed && value < 0 then 0 else value % 256
  {
    var b := LowByte(Limit(value, W8, signed));
    assert WriteInt8(st, value, signed).st.buffer[st.writingPos] == b;
    if signed {
      SignInt8(value);
      SameByte(value, SignInt(8, value), b);
    } else {
      LimitUnsigned(value, W8);
      if value >= 0 {
        assert 0 <= Limit(value, W8, false) < 256;
      }
    }
  }

  /** Two values congruent modulo 256 to a third have the same low byte. */
  lemma SameByte(value: int, s: int, b: int)
    requires (s - value) % 256 == 0 && (s - b) % 256 == 0 && 0 <= b < 256
    ensures value % 256 == b
  {
    var q1, q2 := (s - value) / 256, (s - b) / 256;
    assert value == b + (q2 - q1) * 256;
    DivModUnique(value, 256, q2 - q1, b);
  }

  /** `writeBool` stores the byte 1 for true and 0 for false. */
  lemma WriteBoolByte(st: BinaryStream, value: bool)
    requires WriteBool(st, value).Ok?
    ensures WriteBool(st, value).st.buffer[st.writingPos] == if value then 1 else 0
  {
    WriteInt8Byte(st, if value then 1 else 0, false);
  }

  /** `writeInt16/24/32` stores the bytes of the limited value at the
      write cursor: most significant first on a big-endian stream, least
      significant first otherwise, denoting the limited value modulo
      2^bits. */
  lemma WriteIntLayout(st: BinaryStream, w: Width, value: int32, signed: bool)
    requires w.HasShiftOrder() && WriteInt(st, w, value, signed).Ok?
    ensures var seg := WriteInt(st, w, value, signed).st.buffer[st.writingPos..st.writingPos + w.Bytes()];
            && seg == WriteValueIntoBytes(w, st.isBigEndian, Limit(value, w, signed))
            && (st.isBigEndian ==> BigEndianValue(seg) == Limit(value, w, signed) % w.Modulus())
            && (!st.isBigEndian ==> LittleEndianValue(seg) == Limit(value, w, signed) % w.Modulus())
  {
    WriteValueIntoBytesValue(w, st.isBigEndian, Limit(value, w, signed));
  }

  /** `readInt16/24/32` returns the limited number that the bytes at the
      read cursor denote in the stream's byte order. */
  lemma ReadIntValue(st: BinaryStream, w: Width, signed: bool)
    requires w.HasShiftOrder() && ReadInt(st, w, signed).Ok?
    ensures var seg := st.buffer[st.readingPos..st.readingPos + w.Bytes()];
            ReadInt(st, w, signed).value
            == Limit(Wrap32(if st.isBigEndian then BigEndianValue(seg) else LittleEndianValue(seg)), w, signed)
  {
    var seg := st.buffer[st.readingPos..st.readingPos + w.Bytes()];
    ReadValueFromBytesValue(seg, w, st.isBigEndian);
    assert seg[..w.Bytes()] == seg;
  }

  // ---------------------------------------------------------------------
  // Fixed-width round trips
  // ---------------------------------------------------------------------

  /** A typed read that starts where the typed write of the same width
      started, with the byte order unchanged, consumes exactly the bytes
      written and returns the limited value reduced modulo 2^bits and
      limited again. */
  lemma WriteThenReadInt(st: BinaryStream, w: Width, value: int32, signed: bool)
    requires w.HasShiftOrder() && st.readingPos == st.writingPos
    requires WriteInt(st, w, value, signed).Ok?
    ensures var s1 := WriteInt(st, w, value, signed).st;
            ReadInt(s1, w, signed)
            == Ok(s1.(readingPos := s1.writingPos), Limit(Wrap32(Limit(value, w, signed) % w.Modulus()), w, signed))
  {
    var s1 := WriteInt(st, w, value, signed).st;
    var bytes := WriteValueIntoBytes(w, st.isBigEndian, Limit(value, w, signed));
    assert s1.buffer[st.writingPos..st.writingPos + w.Bytes()] == bytes;
    ValueBytesRoundTrip(w, st.isBigEndian, Limit(value, w, signed));
  }

  /** Unsigned: the read returns `Limit(value)`, so every value in
      [0, 2^bits) comes back unchanged (for 32 bits only those below
      2^28), and a negative one comes back as 0. */
  lemma RoundTripUnsigned(st: BinaryStream, w: Width, value: int32)
    requires w.HasShiftOrder() && st.readingPos == st.writingPos
    requires WriteInt(st, w, value, false).Ok?
    ensures var s1 := WriteInt(st, w, value, false).st;
            ReadInt(s1, w, false) == Ok(s1.(readingPos := s1.writingPos), Limit(value, w, false))
    ensures 0 <= value < w.MaskModulus() ==>
            ReadInt(WriteInt(st, w, value, false).st, w, false).value == value
  {
    var l := Limit(value, w, false);
    LimitUnsigned(value, w);
    LimitUnsigned(l, w);
    DivModUnique(l, w.Modulus(), 0, l);
    WriteThenReadInt(st, w, value, false);
  }

  /** Signed, 16 and 24 bits: every value in [-2^(bits-1), 2^(bits-1))
      comes back unchanged. */
  lemma RoundTripSigned(st: BinaryStream, w: Width, value: int32)
    requires (w.W16? || w.W24?) && st.readingPos == st.writingPos
    requires -(w.Modulus() / 2) <= value < w.Modulus() / 2
    requires WriteInt(st, w, value, true).Ok?
    ensures var s1 := WriteInt(st, w, value, true).st;
            ReadInt(s1, w, true) == Ok(s1.(readingPos := s1.writingPos), value)
  {
    SignIntWide(value, w);
    assert Limit(value, w, true) == value;
    SignIntOfPattern(value, w);
    WriteThenReadInt(st, w, value, true);
  }

  /** Signed, 32 bits: both the write and the read subtract one (see
      `SignInt32`), so the value comes back two less, wrapping at
      int.MinValue. The same holds for the bit pattern of a float. */
  lemma RoundTrip32Signed(st: BinaryStream, value: int32)
    requires st.readingPos == st.writingPos
    requires WriteInt(st, W32, value, true).Ok?
    ensures var s1 := WriteInt(st, W32, value, true).st;
            ReadInt(s1, W32, true) == Ok(s1.(readingPos := s1.writingPos), Wrap32(value - 2))
  {
    var x := Wrap32(value - 1);
    SignInt32(value);
    SignInt32(x);
    Wrap32OfU32(x);
    Wrap32Add(value - 1, -1);
    WriteThenReadInt(st, W32, value, true);
  }

  /** A float's bit pattern goes through the same signed 32-bit limit on
      both sides, so `readFloat` after `writeFloat` returns the pattern
      minus two: no float comes back unchanged. */
  lemma FloatBitsRoundTrip(st: BinaryStream, bits: int32)
    requires st.readingPos == st.writingPos
    requires WriteFloatBits(st, bits).Ok?
    ensures var s1 := WriteFloatBits(st, bits).st;
            && ReadFloatBits(s1) == Ok(s1.(readingPos := s1.writingPos), Wrap32(bits - 2))
            && ReadFloatBits(s1).value != bits
  {
    RoundTrip32Signed(st, bits);
  }

  // ---------------------------------------------------------------------
  // readBool
  // ---------------------------------------------------------------------

  lemma TwoBytes(seg: seq<uint8>)
    requires |seg| == 2
    ensures BigEndianValue(seg) == seg[0] as int * 256 + seg[1]
    ensures LittleEndianValue(seg) == seg[0] as int + seg[1] as int * 256
    ensures BigEndianValue(seg) < 0x1_0000 && LittleEndianValue(seg) < 0x1_0000
  {
    var a, b := seg[0], seg[1];
    assert seg[..|seg| - 1] == [a];
    assert [a][..0] == [];
    assert BigEndianValue([a]) == a;
    assert seg[1..] == [b];
    assert [b][1..] == [];
    assert LittleEndianValue([b]) == b;
  }

  /** `readBool` consumes two bytes and is true exactly when they denote
      1: 0x00 0x01 on a big-endian stream, 0x01 0x00 otherwise. */
  lemma ReadBoolValue(st: BinaryStream)
    requires ReadBool(st).Ok?
    ensures ReadBool(st).st.readingPos == st.readingPos + 2
    ensures ReadBool(st).value
        <==> st.buffer[st.readingPos..st.readingPos + 2] == if st.isBigEndian then [0, 1] else [1, 0]
  {
    ReadIntValue(st, W16, false);
    BoolPattern(st.buffer[st.readingPos..st.readingPos + 2], st.isBigEndian);
  }

  /** Two bytes denote 1 exactly when they are 0x00 0x01 (big-endian) or
      0x01 0x00 (little-endian). */
  lemma BoolPattern(seg: seq<uint8>, bigEndian: bool)
    requires |seg| == 2
    ensures Limit(Wrap32(if bigEndian then BigEndianValue(seg) else LittleEndianValue(seg)), W16, false) == 1
        <==> seg == if bigEndian then [0, 1] else [1, 0]
  {
    var u := if bigEndian then BigEndianValue(seg) else LittleEndianValue(seg);
    TwoBytes(seg);
    LimitUnsigned(u, W16);
  }

  /** `writeBool` writes one byte but `readBool` reads two, so reading
      back from where the write started also takes the following byte
      b: on a big-endian stream the result is true only for `false`
      followed by b = 1, otherwise only for `true` followed by b = 0. */
  lemma WriteBoolThenReadBool(st: BinaryStream, value: bool)
    requires st.readingPos == st.writingPos
    requires 0 <= st.writingPos && st.writingPos + 2 <= |st.buffer|
    ensures var s1 := WriteBool(st, value).st;
            && ReadBool(s1).Ok?
            && ReadBool(s1).value
               == if st.isBigEndian then !value && st.buffer[st.writingPos + 1] == 1
                  else value && st.buffer[st.writingPos + 1] == 0
  {
    var s1 := WriteBool(st, value).st;
    WriteBoolByte(st, value);
    ReadBoolValue(s1);
    assert s1.buffer[st.writingPos + 1] == st.buffer[st.writingPos + 1];
    var seg := s1.buffer[st.writingPos..st.writingPos + 2];
    assert seg == [s1.buffer[st.writingPos], s1.buffer[st.writingPos + 1]];
  }
}
