/**
 * What the codec computes: the bytes `WriteValueIntoBytes` produces
 * denote the low bits of the value, `ReadValueFromBytes` reads back the
 * number the bytes denote, the two compose to reduction modulo 2^bits,
 * and the range policy of `Limit` per width and sign.
 */
module CodecProofs {
  import opened CSharpInt
  import opened Bitwise
  import opened Codec

  // ---------------------------------------------------------------------
  // Byte arithmetic
  // ---------------------------------------------------------------------

  /** The low 2, 3 and 4 bytes of a number, peeled off one byte at a time. */
  lemma ByteDigits(v: int)
    ensures v % 0x1_0000 == LowByte(Asr(v, 8)) as int * 0x100 + LowByte(Asr(v, 0))
    ensures v % 0x100_0000 == LowByte(Asr(v, 16)) as int * 0x1_0000 + v % 0x1_0000
    ensures v % 0x1_0000_0000 == LowByte(Asr(v, 24)) as int * 0x100_0000 + v % 0x100_0000
  {
    Pow2Bytes();
    AsrIsDiv(v, 8, 0x100);
    AsrIsDiv(v, 16, 0x1_0000);
    AsrIsDiv(v, 24, 0x100_0000);
    ModMul(v, 0x100, 0x100);
    ModMul(v, 0x1_0000, 0x100);
    ModMul(v, 0x100_0000, 0x100);
  }

  /** The low 2, 3 and 4 bytes of a number, written out. */
  lemma ByteDigits16(v: int)
    ensures v % 0x1_0000 == LowByte(Asr(v, 8)) as int * 0x100 + LowByte(Asr(v, 0))
  {
    ByteDigits(v);
  }

  lemma ByteDigits24(v: int)
    ensures v % 0x100_0000
         == LowByte(Asr(v, 16)) as int * 0x1_0000 + LowByte(Asr(v, 8)) as int * 0x100 + LowByte(Asr(v, 0))
  {
    ByteDigits(v);
  }

  lemma ByteDigits32(v: int)
    ensures v % 0x1_0000_0000
         == LowByte(Asr(v, 24)) as int * 0x100_0000 + LowByte(Asr(v, 16)) as int * 0x1_0000
          + LowByte(Asr(v, 8)) as int * 0x100 + LowByte(Asr(v, 0))
  {
    ByteDigits(v);
  }

  /** `BigEndianValue` of one to four bytes, written out. */
  lemma {:induction false} BigEndianDigits(b: seq<uint8>)
    ensures |b| == 1 ==> BigEndianValue(b) == b[0]
    ensures |b| == 2 ==> BigEndianValue(b) == b[0] as int * 0x100 + b[1]
    ensures |b| == 3 ==> BigEndianValue(b) == b[0] as int * 0x1_0000 + b[1] as int * 0x100 + b[2]
    ensures |b| == 4 ==> BigEndianValue(b) == b[0] as int * 0x100_0000 + b[1] as int * 0x1_0000 + b[2] as int * 0x100 + b[3]
  {
    if 1 <= |b| <= 4 {
      var front := b[..|b| - 1];
      BigEndianDigits(front);
      assert forall i :: 0 <= i < |front| ==> front[i] == b[i];
    }
  }

  /** `LittleEndianValue` of one to four bytes, written out. */
  lemma {:induction false} LittleEndianDigits(b: seq<uint8>)
    ensures |b| == 1 ==> LittleEndianValue(b) == b[0]
    ensures |b| == 2 ==> LittleEndianValue(b) == b[0] + b[1] as int * 0x100
    ensures |b| == 3 ==> LittleEndianValue(b) == b[0] + b[1] as int * 0x100 + b[2] as int * 0x1_0000
    ensures |b| == 4 ==> LittleEndianValue(b) == b[0] + b[1] as int * 0x100 + b[2] as int * 0x1_0000 + b[3] as int * 0x100_0000
  {
    if 1 <= |b| <= 4 {
      var back := b[1..];
      LittleEndianDigits(back);
      assert forall i :: 0 <= i < |back| ==> back[i] == b[i + 1];
    }
  }

  /** Reading bytes least significant first gives the number the
      reversed sequence denotes most significant first. */
  lemma {:induction false} LittleEndianIsReversedBigEndian(b: seq<uint8>)
    ensures LittleEndianValue(Reverse(b)) == BigEndianValue(b)
  {
    if |b| > 0 {
      var front := b[..|b| - 1];
      var r := Reverse(b);
      LittleEndianIsReversedBigEndian(front);
      assert r[1..] == Reverse(front);
    }
  }

  // ---------------------------------------------------------------------
  // writeValueIntoBytes
  // ---------------------------------------------------------------------

  /** Byte i of the split is the low byte of `value >> shifts[i]`. */
  lemma {:induction false} SplitBytesAt(value: int32, shifts: seq<int>, i: nat)
    requires i < |shifts|
    ensures SplitBytes(value, shifts)[i] == LowByte(Shr32(value, shifts[i]))
  {
    if i > 0 {
      SplitBytesAt(value, shifts[1..], i - 1);
    }
  }

  /** Bytes holding the value's low two, three or four bytes denote the
      value modulo 2^16, 2^24 or 2^32, in either byte order. */
  lemma BigEndianDigitsOf16(value: int32, r: seq<uint8>)
    requires |r| == 2
    requires r[0] == LowByte(Asr(value, 8)) && r[1] == LowByte(Asr(value, 0))
    ensures BigEndianValue(r) == value % 0x1_0000
  {
    BigEndianDigits(r);
    ByteDigits16(value);
  }

  lemma WriteBigEndian16(value: int32)
    ensures BigEndianValue(WriteValueIntoBytes(W16, true, value)) == value % 0x1_0000
  {
    var shifts := ShiftOrder(W16, true);
    SplitBytesAt(value, shifts, 0);
    SplitBytesAt(value, shifts, 1);
    BigEndianDigitsOf16(value, WriteValueIntoBytes(W16, true, value));
  }

  lemma LittleEndianDigitsOf16(value: int32, r: seq<uint8>)
    requires |r| == 2
    requires r[0] == LowByte(Asr(value, 0)) && r[1] == LowByte(Asr(value, 8))
    ensures LittleEndianValue(r) == value % 0x1_0000
  {
    LittleEndianDigits(r);
    ByteDigits16(value);
  }

  lemma WriteLittleEndian16(value: int32)
    ensures LittleEndianValue(WriteValueIntoBytes(W16, false, value)) == value % 0x1_0000
  {
    var shifts := ShiftOrder(W16, false);
    SplitBytesAt(value, shifts, 0);
    SplitBytesAt(value, shifts, 1);
    LittleEndianDigitsOf16(value, WriteValueIntoBytes(W16, false, value));
  }

  lemma BigEndianDigitsOf24(value: int32, r: seq<uint8>)
    requires |r| == 3
    requires r[0] == LowByte(Asr(value, 16)) && r[1] == LowByte(Asr(value, 8)) && r[2] == LowByte(Asr(value, 0))
    ensures BigEndianValue(r) == value % 0x100_0000
  {
    BigEndianDigits(r);
    ByteDigits24(value);
  }

  lemma WriteBigEndian24(value: int32)
    ensures BigEndianValue(WriteValueIntoBytes(W24, true, value)) == value % 0x100_0000
  {
    var shifts := ShiftOrder(W24, true);
    SplitBytesAt(value, shifts, 0);
    SplitBytesAt(value, shifts, 1);
    SplitBytesAt(value, shifts, 2);
    BigEndianDigitsOf24(value, WriteValueIntoBytes(W24, true, value));
  }

  lemma LittleEndianDigitsOf24(value: int32, r: seq<uint8>)
    requires |r| == 3
    requires r[0] == LowByte(Asr(value, 0)) && r[1] == LowByte(Asr(value, 8)) && r[2] == LowByte(Asr(value, 16))
    ensures LittleEndianValue(r) == value % 0x100_0000
  {
    LittleEndianDigits(r);
    ByteDigits24(value);
  }

  lemma WriteLittleEndian24(value: int32)
    ensures LittleEndianValue(WriteValueIntoBytes(W24, false, value)) == value % 0x100_0000
  {
    var shifts := ShiftOrder(W24, false);
    SplitBytesAt(value, shifts, 0);
    SplitBytesAt(value, shifts, 1);
    SplitBytesAt(value, shifts, 2);
    LittleEndianDigitsOf24(value, WriteValueIntoBytes(W24, false, value));
  }

  lemma BigEndianDigitsOf32(value: int32, r: seq<uint8>)
    requires |r| == 4
    requires r[0] == LowByte(Asr(value, 24)) && r[1] == LowByte(Asr(value, 16)) && r[2] == LowByte(Asr(value, 8)) && r[3] == LowByte(Asr(value, 0))
    ensures BigEndianValue(r) == value % 0x1_0000_0000
  {
    BigEndianDigits(r);
    ByteDigits32(value);
  }

  lemma WriteBigEndian32(value: int32)
    ensures BigEndianValue(WriteValueIntoBytes(W32, true, value)) == value % 0x1_0000_0000
  {
    var shifts := ShiftOrder(W32, true);
    SplitBytesAt(value, shifts, 0);
    SplitBytesAt(value, shifts, 1);
    SplitBytesAt(value, shifts, 2);
    SplitBytesAt(value, shifts, 3);
    BigEndianDigitsOf32(value, WriteValueIntoBytes(W32, true, value));
  }

  lemma LittleEndianDigitsOf32(value: int32, r: seq<uint8>)
    requires |r| == 4
    requires r[0] == LowByte(Asr(value, 0)) && r[1] == LowByte(Asr(value, 8)) && r[2] == LowByte(Asr(value, 16)) && r[3] == LowByte(Asr(value, 24))
    ensures LittleEndianValue(r) == value % 0x1_0000_0000
  {
    LittleEndianDigits(r);
    ByteDigits32(value);
  }

  lemma WriteLittleEndian32(value: int32)
    ensures LittleEndianValue(WriteValueIntoBytes(W32, false, value)) == value % 0x1_0000_0000
  {
    var shifts := ShiftOrder(W32, false);
    SplitBytesAt(value, shifts, 0);
    SplitBytesAt(value, shifts, 1);
    SplitBytesAt(value, shifts, 2);
    SplitBytesAt(value, shifts, 3);
    LittleEndianDigitsOf32(value, WriteValueIntoBytes(W32, false, value));
  }

  /** The bytes written for `value` denote `value` modulo 2^bits, in the
      requested byte order. */
  lemma WriteValueIntoBytesValue(w: Width, bigEndian: bool, value: int32)
    requires w.HasShiftOrder()
    ensures bigEndian ==> BigEndianValue(WriteValueIntoBytes(w, bigEndian, value)) == value % w.Modulus()
    ensures !bigEndian ==> LittleEndianValue(WriteValueIntoBytes(w, bigEndian, value)) == value % w.Modulus()
  {
    match w
    case W16 =>
      if bigEndian { WriteBigEndian16(value); } else { WriteLittleEndian16(value); }
    case W24 =>
      if bigEndian { WriteBigEndian24(value); } else { WriteLittleEndian24(value); }
    case W32 =>
      if bigEndian { WriteBigEndian32(value); } else { WriteLittleEndian32(value); }
  }

  /** The little-endian layout is the big-endian layout reversed. */
  lemma WriteLittleEndianIsReversed(w: Width, value: int32)
    requires w.HasShiftOrder()
    ensures WriteValueIntoBytes(w, false, value) == Reverse(WriteValueIntoBytes(w, true, value))
  {
    var le, be := WriteValueIntoBytes(w, false, value), WriteValueIntoBytes(w, true, value);
    forall i | 0 <= i < |le|
      ensures le[i] == be[|be| - 1 - i]
    {
      SplitBytesAt(value, ShiftOrder(w, false), i);
      SplitBytesAt(value, ShiftOrder(w, true), |be| - 1 - i);
    }
  }

  // ---------------------------------------------------------------------
  // readValueFromBytes
  // ---------------------------------------------------------------------

  /** One iteration of the loop of `ReadValueFromBytes`. */
  lemma AssembleUnfold(bytes: seq<uint8>, shifts: seq<int>, i: nat, acc: int32)
    requires i < |shifts| <= |bytes|
    ensures Assemble(bytes, shifts, i, acc)
         == Assemble(bytes, shifts, i + 1, Or32(acc, Shl32(bytes[i], shifts[i])))
  {
  }

  /** The shift amounts of the shift table, each paired with the power
      of two it multiplies by. */
  predicate ByteShift(s: nat, p: nat) {
    || (s == 0 && p == 1)
    || (s == 8 && p == 0x100)
    || (s == 16 && p == 0x1_0000)
    || (s == 24 && p == 0x100_0000)
  }

  lemma ByteShiftIsPow2(s: nat, p: nat)
    requires ByteShift(s, p)
    ensures p == Pow2(s) && p * 256 == Pow2(s + 8) && p * 256 <= 0x1_0000_0000
  {
    Pow2Plus8(s);
    Pow2Bytes();
    Pow2Word();
  }

  /** `b << s` for a byte and a shift from the table does not wrap. */
  lemma ShiftedByte(b: uint8, s: nat, p: nat)
    requires ByteShift(s, p)
    ensures 0 <= b * p < p * 256 <= 0x1_0000_0000
    ensures U32(Shl32(b, s)) == b * p
  {
    ByteShiftIsPow2(s, p);
    MulNonNeg(b, p);
    MulLess(b, 256, p);
    Shl32IsMul(b, s, p);
    U32OfWrap32(b * p);
  }

  /** A big-endian iteration: or-ing a byte in below the bits already
      there adds it, and leaves room and alignment for the next byte. */
  lemma OrBelow(acc: int32, b: uint8, s: nat, p: nat)
    requires ByteShift(s, p)
    requires U32(acc) % (p * 256) == 0 && U32(acc) + p * 256 <= 0x1_0000_0000
    ensures U32(Or32(acc, Shl32(b, s))) == U32(acc) + b * p
    ensures U32(Or32(acc, Shl32(b, s))) % p == 0
    ensures U32(Or32(acc, Shl32(b, s))) + p <= 0x1_0000_0000
  {
    var sh := Shl32(b, s);
    ShiftedByte(b, s, p);
    ByteShiftIsPow2(s, p);
    Or32Disjoint(acc, sh, s + 8, p * 256);
    U32OfWrap32(U32(acc) + U32(sh));
    var r := U32(Or32(acc, sh));
    assert r == U32(acc) + b * p;
    ModSumMultiple(U32(acc), b, p, 256, r);
    Distrib(b, 1, p);
    MulLeq(b + 1, 256, p);
  }

  /** A little-endian iteration: or-ing a byte in above the bits already
      there adds it. */
  lemma OrAbove(acc: int32, b: uint8, s: nat, p: nat)
    requires ByteShift(s, p)
    requires U32(acc) < p
    ensures U32(Or32(acc, Shl32(b, s))) == U32(acc) + b * p
    ensures U32(Or32(acc, Shl32(b, s))) < p * 256
  {
    var sh := Shl32(b, s);
    ShiftedByte(b, s, p);
    ByteShiftIsPow2(s, p);
    DivModUnique(U32(sh), p, b, 0);
    Or32Disjoint(sh, acc, s, p);
    Distrib(b, 1, p);
    MulLeq(b + 1, 256, p);
    U32OfWrap32(U32(sh) + U32(acc));
  }

  /** The loop of `ReadValueFromBytes` over two, three and four shifts,
      written out. */
  lemma AssembleTwo(bytes: seq<uint8>, shifts: seq<int>)
    requires |shifts| == 2 <= |bytes|
    ensures Assemble(bytes, shifts, 0, 0)
         == Or32(Or32(0, Shl32(bytes[0], shifts[0])), Shl32(bytes[1], shifts[1]))
  {
    var a1 := Or32(0, Shl32(bytes[0], shifts[0]));
    AssembleUnfold(bytes, shifts, 0, 0);
    AssembleUnfold(bytes, shifts, 1, a1);
  }

  lemma AssembleThree(bytes: seq<uint8>, shifts: seq<int>)
    requires |shifts| == 3 <= |bytes|
    ensures Assemble(bytes, shifts, 0, 0)
         == Or32(Or32(Or32(0, Shl32(bytes[0], shifts[0])), Shl32(bytes[1], shifts[1])),
                 Shl32(bytes[2], shifts[2]))
  {
    var a1 := Or32(0, Shl32(bytes[0], shifts[0]));
    var a2 := Or32(a1, Shl32(bytes[1], shifts[1]));
    AssembleUnfold(bytes, shifts, 0, 0);
    AssembleUnfold(bytes, shifts, 1, a1);
    AssembleUnfold(bytes, shifts, 2, a2);
  }

  lemma AssembleFour(bytes: seq<uint8>, shifts: seq<int>)
    requires |shifts| == 4 <= |bytes|
    ensures Assemble(bytes, shifts, 0, 0)
         == Or32(Or32(Or32(Or32(0, Shl32(bytes[0], shifts[0])), Shl32(bytes[1], shifts[1])),
                      Shl32(bytes[2], shifts[2])),
                 Shl32(bytes[3], shifts[3]))
  {
    var a1 := Or32(0, Shl32(bytes[0], shifts[0]));
    var a2 := Or32(a1, Shl32(bytes[1], shifts[1]));
    var a3 := Or32(a2, Shl32(bytes[2], shifts[2]));
    AssembleUnfold(bytes, shifts, 0, 0);
    AssembleUnfold(bytes, shifts, 1, a1);
    AssembleUnfold(bytes, shifts, 2, a2);
    AssembleUnfold(bytes, shifts, 3, a3);
  }

  /** Or-ing bytes in, most significant first. */
  lemma OrBigEndian2(b0: uint8, b1: uint8)
    ensures U32(Or32(Or32(0, Shl32(b0, 8)), Shl32(b1, 0))) == b0 as int * 0x100 + b1
  {
    OrBelow(0, b0, 8, 0x100);
    OrBelow(Or32(0, Shl32(b0, 8)), b1, 0, 1);
  }

  lemma OrBigEndian3(b0: uint8, b1: uint8, b2: uint8)
    ensures U32(Or32(Or32(Or32(0, Shl32(b0, 16)), Shl32(b1, 8)), Shl32(b2, 0)))
         == b0 as int * 0x1_0000 + b1 as int * 0x100 + b2
  {
    OrBelow(0, b0, 16, 0x1_0000);
    var a1 := Or32(0, Shl32(b0, 16));
    OrBelow(a1, b1, 8, 0x100);
    var a2 := Or32(a1, Shl32(b1, 8));
    OrBelow(a2, b2, 0, 1);
  }

  lemma OrBigEndian4(b0: uint8, b1: uint8, b2: uint8, b3: uint8)
    ensures U32(Or32(Or32(Or32(Or32(0, Shl32(b0, 24)), Shl32(b1, 16)), Shl32(b2, 8)), Shl32(b3, 0)))
         == b0 as int * 0x100_0000 + b1 as int * 0x1_0000 + b2 as int * 0x100 + b3
  {
    OrBelow(0, b0, 24, 0x100_0000);
    var a1 := Or32(0, Shl32(b0, 24));
    OrBelow(a1, b1, 16, 0x1_0000);
    var a2 := Or32(a1, Shl32(b1, 16));
    OrBelow(a2, b2, 8, 0x100);
    var a3 := Or32(a2, Shl32(b2, 8));
    OrBelow(a3, b3, 0, 1);
  }

  /** Or-ing bytes in, least significant first. */
  lemma OrLittleEndian2(b0: uint8, b1: uint8)
    ensures U32(Or32(Or32(0, Shl32(b0, 0)), Shl32(b1, 8))) == b0 + b1 as int * 0x100
  {
    OrAbove(0, b0, 0, 1);
    OrAbove(Or32(0, Shl32(b0, 0)), b1, 8, 0x100);
  }

  lemma OrLittleEndian3(b0: uint8, b1: uint8, b2: uint8)
    ensures U32(Or32(Or32(Or32(0, Shl32(b0, 0)), Shl32(b1, 8)), Shl32(b2, 16)))
         == b0 + b1 as int * 0x100 + b2 as int * 0x1_0000
  {
    OrAbove(0, b0, 0, 1);
    var a1 := Or32(0, Shl32(b0, 0));
    OrAbove(a1, b1, 8, 0x100);
    var a2 := Or32(a1, Shl32(b1, 8));
    OrAbove(a2, b2, 16, 0x1_0000);
  }

  lemma OrLittleEndian4(b0: uint8, b1: uint8, b2: uint8, b3: uint8)
    ensures U32(Or32(Or32(Or32(Or32(0, Shl32(b0, 0)), Shl32(b1, 8)), Shl32(b2, 16)), Shl32(b3, 24)))
         == b0 + b1 as int * 0x100 + b2 as int * 0x1_0000 + b3 as int * 0x100_0000
  {
    OrAbove(0, b0, 0, 1);
    var a1 := Or32(0, Shl32(b0, 0));
    OrAbove(a1, b1, 8, 0x100);
    var a2 := Or32(a1, Shl32(b1, 8));
    OrAbove(a2, b2, 16, 0x1_0000);
    var a3 := Or32(a2, Shl32(b2, 16));
    OrAbove(a3, b3, 24, 0x100_0000);
  }

  lemma ReadBigEndian16(bytes: seq<uint8>)
    requires |bytes| >= 2
    ensures ReadValueFromBytes(bytes, W16, true) == Wrap32(BigEndianValue(bytes[..2]))
  {
    AssembleTwo(bytes, ShiftOrder(W16, true));
    OrBigEndian2(bytes[0], bytes[1]);
    BigEndianDigits(bytes[..2]);
    Wrap32OfU32(ReadValueFromBytes(bytes, W16, true));
  }

  lemma ReadLittleEndian16(bytes: seq<uint8>)
    requires |bytes| >= 2
    ensures ReadValueFromBytes(bytes, W16, false) == Wrap32(LittleEndianValue(bytes[..2]))
  {
    AssembleTwo(bytes, ShiftOrder(W16, false));
    OrLittleEndian2(bytes[0], bytes[1]);
    LittleEndianDigits(bytes[..2]);
    Wrap32OfU32(ReadValueFromBytes(bytes, W16, false));
  }

  lemma ReadBigEndian24(bytes: seq<uint8>)
    requires |bytes| >= 3
    ensures ReadValueFromBytes(bytes, W24, true) == Wrap32(BigEndianValue(bytes[..3]))
  {
    AssembleThree(bytes, ShiftOrder(W24, true));
    OrBigEndian3(bytes[0], bytes[1], bytes[2]);
    BigEndianDigits(bytes[..3]);
    Wrap32OfU32(ReadValueFromBytes(bytes, W24, true));
  }

  lemma ReadLittleEndian24(bytes: seq<uint8>)
    requires |bytes| >= 3
    ensures ReadValueFromBytes(bytes, W24, false) == Wrap32(LittleEndianValue(bytes[..3]))
  {
    AssembleThree(bytes, ShiftOrder(W24, false));
    OrLittleEndian3(bytes[0], bytes[1], bytes[2]);
    LittleEndianDigits(bytes[..3]);
    Wrap32OfU32(ReadValueFromBytes(bytes, W24, false));
  }

  lemma ReadBigEndian32(bytes: seq<uint8>)
    requires |bytes| >= 4
    ensures ReadValueFromBytes(bytes, W32, true) == Wrap32(BigEndianValue(bytes[..4]))
  {
    AssembleFour(bytes, ShiftOrder(W32, true));
    OrBigEndian4(bytes[0], bytes[1], bytes[2], bytes[3]);
    BigEndianDigits(bytes[..4]);
    Wrap32OfU32(ReadValueFromBytes(bytes, W32, true));
  }

  lemma ReadLittleEndian32(bytes: seq<uint8>)
    requires |bytes| >= 4
    ensures ReadValueFromBytes(bytes, W32, false) == Wrap32(LittleEndianValue(bytes[..4]))
  {
    AssembleFour(bytes, ShiftOrder(W32, false));
    OrLittleEndian4(bytes[0], bytes[1], bytes[2], bytes[3]);
    LittleEndianDigits(bytes[..4]);
    Wrap32OfU32(ReadValueFromBytes(bytes, W32, false));
  }

  /** The value read is the number the first `w.Bytes()` bytes denote in
      the requested byte order, as a 32-bit pattern. */
  lemma ReadValueFromBytesValue(bytes: seq<uint8>, w: Width, bigEndian: bool)
    requires w.HasShiftOrder() && |bytes| >= w.Bytes()
    ensures bigEndian ==>
      ReadValueFromBytes(bytes, w, bigEndian) == Wrap32(BigEndianValue(bytes[..w.Bytes()]))
    ensures !bigEndian ==>
      ReadValueFromBytes(bytes, w, bigEndian) == Wrap32(LittleEndianValue(bytes[..w.Bytes()]))
  {
    match w
    case W16 =>
      if bigEndian { ReadBigEndian16(bytes); } else { ReadLittleEndian16(bytes); }
    case W24 =>
      if bigEndian { ReadBigEndian24(bytes); } else { ReadLittleEndian24(bytes); }
    case W32 =>
      if bigEndian { ReadBigEndian32(bytes); } else { ReadLittleEndian32(bytes); }
  }

  /** Reading back what was written gives the value modulo 2^bits, as a
      32-bit pattern: the identity for 16 and 24 bits on values in
      [0, 2^bits), and for 32 bits on every value. */
  lemma ValueBytesRoundTrip(w: Width, bigEndian: bool, value: int32)
    requires w.HasShiftOrder()
    ensures ReadValueFromBytes(WriteValueIntoBytes(w, bigEndian, value), w, bigEndian)
         == Wrap32(value % w.Modulus())
  {
    var bytes := WriteValueIntoBytes(w, bigEndian, value);
    assert bytes[..w.Bytes()] == bytes;
    WriteValueIntoBytesValue(w, bigEndian, value);
    ReadValueFromBytesValue(bytes, w, bigEndian);
  }
}
