/**
 * Properties of `writeInt64` and `readInt64`, each built from two
 * 32-bit writes or reads.
 */
module StreamLongProofs {
  import opened CSharpInt
  import opened Bitwise
  import opened Codec
  import opened CodecProofs
  import opened LimitProofs
  import opened Stream
  import opened StreamProofs

  // ---------------------------------------------------------------------
  // The halves of a long
  // ---------------------------------------------------------------------

  /** `(int)(v >> 32)` is `v` divided by 2^32 (rounding down) and
      `(int)(v & 0xFFFFFFFF)` is the low 32-bit pattern of `v` as an
      `int`; together they denote `v`. */
  lemma Int64Halves(v: int64)
    ensures High32(v) == v / 0x1_0000_0000
    ensures U32(Low32(v)) == v % 0x1_0000_0000
    ensures v == High32(v) * 0x1_0000_0000 + U32(Low32(v))
  {
    HighHalf(v);
    LowHalf(v);
  }

  lemma HighHalf(v: int64)
    ensures High32(v) == v / 0x1_0000_0000
  {
    Pow2Word();
    var q := v / 0x1_0000_0000;
    assert Shr64(v, 32) == q;
    if q >= 0x8000_0000 {
      MulLeq(0x8000_0000, q, 0x1_0000_0000);
    } else if q < -0x8000_0000 {
      MulLeq(q + 1, -0x8000_0000 + 0, 0x1_0000_0000);
    }
  }

  lemma LowHalf(v: int64)
    ensures U32(Low32(v)) == v % 0x1_0000_0000
  {
    And64Low32(v);
    U32OfWrap32(v % 0x1_0000_0000);
  }

  /** `(high << 32) | (low & 0xFFFFFFFF)` on `long` for non-negative
      halves: `high` times 2^32 plus `low`. */
  lemma CombineHalves(high: int32, low: int32)
    requires 0 <= high && 0 <= low
    ensures Or64(Shl64(high, 32), And64(low, 0xFFFF_FFFF)) == high * 0x1_0000_0000 + low
  {
    var h := high * 0x1_0000_0000;
    ShiftHigh(high);
    And64Low32(low);
    DivModUnique(low, 0x1_0000_0000, 0, low);
    assert And64(low, 0xFFFF_FFFF) == low;
    Pow2Word();
    Or64Disjoint(h, low, 32, 0x1_0000_0000);
  }

  lemma ShiftHigh(high: int32)
    requires 0 <= high
    ensures Shl64(high, 32) == high * 0x1_0000_0000
    ensures U64(high * 0x1_0000_0000) % 0x1_0000_0000 == 0
  {
    Pow2Word();
    Shl64IsMul(high, 32, 0x1_0000_0000);
    DivModUnique(high * 0x1_0000_0000, 0x1_0000_0000, high, 0);
  }

  // ---------------------------------------------------------------------
  // writeInt64 and readInt64
  // ---------------------------------------------------------------------

  /** `writeInt64` stores the high half, then the low half, each as a
      32-bit write; when only the first fits, it stays written and the
      operation fails. */
  lemma WriteInt64Layout(st: BinaryStream, value: int64, signed: bool)
    requires 0 <= st.writingPos && st.writingPos + 4 <= |st.buffer|
    ensures var s1 := WriteInt(st, W32, High32(value), signed).st;
            && s1.writingPos == st.writingPos + 4
            && s1.buffer[st.writingPos..st.writingPos + 4]
               == WriteValueIntoBytes(W32, st.isBigEndian, Limit(High32(value), W32, signed))
            && (st.writingPos + 8 <= |st.buffer| ==>
                  WriteInt64(st, value, signed) == WriteInt(s1, W32, Low32(value), signed))
            && (st.writingPos + 8 > |st.buffer| ==> WriteInt64(st, value, signed) == Fault(s1))
  {
    WriteIntLayout(st, W32, High32(value), signed);
  }

  /** A read from a segment holding the bytes of `x` in the stream's
      byte order returns `x` modulo 2^bits, limited. */
  lemma ReadIntOfWritten(st: BinaryStream, w: Width, signed: bool, x: int32)
    requires w.HasShiftOrder() && ReadInt(st, w, signed).Ok?
    requires st.buffer[st.readingPos..st.readingPos + w.Bytes()] == WriteValueIntoBytes(w, st.isBigEndian, x)
    ensures ReadInt(st, w, signed).value == Limit(Wrap32(x % w.Modulus()), w, signed)
  {
    ReadIntValue(st, w, signed);
    WriteValueIntoBytesValue(w, st.isBigEndian, x);
  }

  /** The bytes of `a` and then of `b`, as 32-bit values in the stream's
      byte order, at position `p`. */
  predicate HoldsPair(st: BinaryStream, p: int, a: int32, b: int32)
  {
    && 0 <= p && p + 8 <= |st.buffer|
    && st.buffer[p..p + 4] == WriteValueIntoBytes(W32, st.isBigEndian, a)
    && st.buffer[p + 4..p + 8] == WriteValueIntoBytes(W32, st.isBigEndian, b)
  }

  /** `readInt64` over the bytes of two values in [0, 2^28) returns the
      first times 2^32 plus the second, and moves the read cursor by 8. */
  lemma ReadInt64OfWritten(st: BinaryStream, a: int32, b: int32)
    requires 0 <= a < 0x1000_0000 && 0 <= b < 0x1000_0000
    requires HoldsPair(st, st.readingPos, a, b)
    ensures ReadInt64(st) == Ok(st.(readingPos := st.readingPos + 8), a * 0x1_0000_0000 + b)
  {
    var r1 := ReadInt(st, W32, false);
    ReadIntOfWritten(st, W32, false, a);
    LimitUnsigned(a, W32);
    DivModUnique(a, 0x1_0000_0000, 0, a);
    ReadIntOfWritten(r1.st, W32, false, b);
    LimitUnsigned(b, W32);
    DivModUnique(b, 0x1_0000_0000, 0, b);
    CombineHalves(a, b);
  }

  /** Two unsigned 32-bit writes leave the bytes of both limited values
      side by side. */
  lemma TwoWrites(st: BinaryStream, h: int32, l: int32)
    requires 0 <= st.writingPos && st.writingPos + 8 <= |st.buffer|
    ensures var s2 := WriteInt(WriteInt(st, W32, h, false).st, W32, l, false).st;
            && s2.writingPos == st.writingPos + 8
            && s2.readingPos == st.readingPos
            && HoldsPair(s2, st.writingPos, Limit(h, W32, false), Limit(l, W32, false))
  {
    var p := st.writingPos;
    var s1 := WriteInt(st, W32, h, false).st;
    var s2 := WriteInt(s1, W32, l, false).st;
    WriteIntLayout(st, W32, h, false);
    WriteIntLayout(s1, W32, l, false);
    assert s2.buffer[p..p + 4] == s1.buffer[p..p + 4];
  }

  /** An unsigned `writeInt64` that succeeds leaves the limited high half
      and then the limited low half, 4 bytes each, at the old write
      cursor, which moves on by 8; the read cursor stays. */
  lemma WriteInt64Pair(st: BinaryStream, value: int64)
    requires 0 <= st.writingPos && st.writingPos + 8 <= |st.buffer|
    ensures var s2 := WriteInt64(st, value, false).st;
            && s2.writingPos == st.writingPos + 8
            && s2.readingPos == st.readingPos
            && HoldsPair(s2, st.writingPos, Limit(High32(value), W32, false), Limit(Low32(value), W32, false))
  {
    WriteInt64Layout(st, value, false);
    TwoWrites(st, High32(value), Low32(value));
  }

  /** The halves that `writeInt64` writes survive the 28-bit limit of an
      unsigned 32-bit write exactly when `value` is non-negative, its high
      half is below 2^28 and its low 32 bits are below 2^28; then the
      limited halves recombine to `value`. */
  lemma Int64HalvesSurvive(value: int64)
    ensures var a, b := Limit(High32(value), W32, false), Limit(Low32(value), W32, false);
            (a * 0x1_0000_0000 + b == value
             <==> 0 <= value / 0x1_0000_0000 < 0x1000_0000 && value % 0x1_0000_0000 < 0x1000_0000)
  {
    var h, l := value / 0x1_0000_0000, value % 0x1_0000_0000;
    var a, b := Limit(High32(value), W32, false), Limit(Low32(value), W32, false);
    assert 0 <= a < 0x1000_0000 && (0 <= h < 0x1000_0000 ==> a == h) by {
      Int64Halves(value);
      LimitUnsigned(High32(value), W32);
    }
    assert 0 <= b < 0x1000_0000 && (l < 0x1000_0000 ==> b == l) by {
      Int64Halves(value);
      Wrap32OfU32(Low32(value));
      LimitUnsigned(Low32(value), W32);
    }
    Recombine(value, h, l, a, b);
  }

  /** Plain arithmetic behind `Int64HalvesSurvive`: two digits in base
      2^32 that each are replaced by a value in [0, 2^28), and kept when
      already there, spell the same number exactly when both were. */
  lemma Recombine(value: int, h: int, l: int, a: int, b: int)
    requires 0 <= l < 0x1_0000_0000 && value == h * 0x1_0000_0000 + l
    requires 0 <= a < 0x1000_0000 && (0 <= h < 0x1000_0000 ==> a == h)
    requires 0 <= b < 0x1000_0000 && (l < 0x1000_0000 ==> b == l)
    ensures a * 0x1_0000_0000 + b == value <==> 0 <= h < 0x1000_0000 && l < 0x1000_0000
  {
    if a * 0x1_0000_0000 + b == value {
      DivModUnique(value, 0x1_0000_0000, a, b);
      DivModUnique(value, 0x1_0000_0000, h, l);
    }
  }
}
