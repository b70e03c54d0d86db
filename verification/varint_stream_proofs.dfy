/**
 * What the byte-by-byte loop of `writeVarInt` does to a stream, and the
 * operations layered on it: `writeZigZag32`, `writeVarLong` and
 * `writeZigZag64`.
 */
module VarIntStreamProofs {
  import opened CSharpInt
  import opened Codec
  import opened LimitProofs
  import opened VarInt
  import opened Stream

  // ---------------------------------------------------------------------
  // Writing one byte at a time
  // ---------------------------------------------------------------------

  /** Values in [0, 256) as the bytes of a `byte[]`. */
  function ToBytes(g: seq<int>): (r: seq<uint8>)
    requires forall j :: 0 <= j < |g| ==> 0 <= g[j] < 0x100
    ensures |r| == |g|
    ensures forall j :: 0 <= j < |g| ==> r[j] as int == g[j]
  {
    if g == [] then [] else [g[0] as uint8] + ToBytes(g[1..])
  }

  /** Writing `g` as a run of one-byte writes that stops at the first
      failure: all of `g` when it fits; otherwise as many bytes as there
      is room for, followed by a fault; nothing at all when the cursor is
      outside the buffer. */
  function BytewiseWrite(st: BinaryStream, g: Bytes): Step<()>
  {
    var p := st.writingPos;
    if g == [] then Ok(st, ())
    else if 0 <= p && p + |g| <= |st.buffer| then Write(st, g)
    else if 0 <= p <= |st.buffer| then Fault(Write(st, g[..|st.buffer| - p]).st)
    else Fault(st)
  }

  /** Writing nothing at a cursor inside the buffer changes nothing. */
  lemma WriteNothing(st: BinaryStream)
    requires 0 <= st.writingPos <= |st.buffer|
    ensures Write(st, []) == Ok(st, ())
  {
    var p := st.writingPos;
    assert st.buffer[..p] + [] + st.buffer[p..] == st.buffer;
  }

  /** Two writes in a row that both fit are one write of both. */
  lemma WriteThenWrite(st: BinaryStream, a: Bytes, b: Bytes)
    requires 0 <= st.writingPos && st.writingPos + |a| + |b| <= |st.buffer|
    ensures Write(Write(st, a).st, b) == Write(st, a + b)
  {
    var p := st.writingPos;
    var s1 := Write(st, a).st;
    var s2 := Write(s1, b).st;
    var t := Write(st, a + b).st;
    assert s2.buffer == t.buffer by {
      forall k | 0 <= k < |t.buffer|
        ensures s2.buffer[k] == t.buffer[k]
      {
        if k < p || k >= p + |a| + |b| {
        } else if k < p + |a| {
          assert s1.buffer[p..p + |a|][k - p] == a[k - p];
          assert t.buffer[p..p + |a| + |b|][k - p] == (a + b)[k - p];
        } else {
          assert s2.buffer[p + |a|..p + |a| + |b|][k - p - |a|] == b[k - p - |a|];
          assert t.buffer[p..p + |a| + |b|][k - p] == (a + b)[k - p];
        }
      }
    }
  }

  /** A run of one-byte writes whose first write succeeds continues from
      the state that write leaves. */
  lemma BytewiseCons(st: BinaryStream, b: uint8, rest: Bytes)
    requires |rest| < INT32_MAX
    requires Write(st, [b]).Ok?
    ensures BytewiseWrite(st, [b] + rest) == BytewiseWrite(Write(st, [b]).st, rest)
  {
    var p := st.writingPos;
    var s1 := Write(st, [b]).st;
    if rest == [] {
      assert [b] + rest == [b];
    } else if p + 1 + |rest| <= |st.buffer| {
      WriteThenWrite(st, [b], rest);
    } else {
      var k := |st.buffer| - p - 1;
      assert ([b] + rest)[..k + 1] == [b] + rest[..k];
      WriteThenWrite(st, [b], rest[..k]);
    }
  }

  /** ... and one whose first write fails is that failure. */
  lemma BytewiseFirstFails(st: BinaryStream, b: uint8, rest: Bytes)
    requires |rest| < INT32_MAX
    requires Write(st, [b]).Fault?
    ensures BytewiseWrite(st, [b] + rest) == Fault(st)
  {
    if st.writingPos == |st.buffer| {
      assert ([b] + rest)[..0] == [];
      WriteNothing(st);
    }
  }

  /** An unsigned `writeInt8` of a value in [0, 256) writes that byte. */
  lemma WriteInt8OfByte(st: BinaryStream, x: int32)
    requires 0 <= x < 0x100
    ensures WriteInt8(st, x, false) == Write(st, [x as uint8])
  {
    LimitUnsigned(x, W8);
  }

  // ---------------------------------------------------------------------
  // writeVarInt
  // ---------------------------------------------------------------------

  /** The bytes the loop of `writeVarInt` writes from iteration `i` on. */
  function LoopBytes(v: int, i: nat): (r: Bytes)
    ensures |r| <= 5
  {
    ToBytes(LoopGroups(v, i))
  }

  /** The loop of `writeVarInt` with `&`, `>>` and `|` replaced by
      their arithmetic meaning and `writeInt8` by the raw write of the
      byte it stores. */
  function ArithLoop(st: BinaryStream, v: int, i: nat): Step<()>
    decreases 5 - i
  {
    if i >= 5 then Ok(st, ())
    else if v / 0x80 != 0 then
      var first := Write(st, [(v % 0x80 + 0x80) as uint8]);
      if first.Fault? then first else ArithLoop(first.st, v / 0x80, i + 1)
    else Write(st, [(v % 0x80) as uint8])
  }

  /** One iteration of the loop of `writeVarInt` that continues: it
      writes the low seven bits with the continuation bit set and goes
      on with the value divided by 128. */
  lemma LoopContinues(st: BinaryStream, v: int32, i: nat)
    requires i < 5 && v / 0x80 != 0
    ensures WriteVarIntFrom(st, v, i)
         == var first := Write(st, [(v % 0x80 + 0x80) as uint8]);
            if first.Fault? then first else WriteVarIntFrom(first.st, v / 0x80, i + 1)
  {
    VarIntStep(v);
    WriteInt8OfByte(st, v % 0x80 + 0x80);
  }

  /** The last iteration writes the remaining seven bits alone. */
  lemma LoopEnds(st: BinaryStream, v: int32, i: nat)
    requires i < 5 && v / 0x80 == 0
    ensures WriteVarIntFrom(st, v, i) == Write(st, [(v % 0x80) as uint8])
  {
    VarIntStep(v);
    WriteInt8OfByte(st, v % 0x80);
  }

  /** The loop of `writeVarInt` is its arithmetic copy. */
  lemma {:induction false} LoopIsArith(st: BinaryStream, v: int32, i: nat)
    ensures WriteVarIntFrom(st, v, i) == ArithLoop(st, v, i)
    decreases 5 - i
  {
    if i < 5 {
      if v / 0x80 != 0 {
        LoopContinues(st, v, i);
        var first := Write(st, [(v % 0x80 + 0x80) as uint8]);
        if first.Ok? {
          LoopIsArith(first.st, v / 0x80, i + 1);
        }
      } else {
        LoopEnds(st, v, i);
      }
    }
  }

  /** A continuing iteration puts its byte in front of the bytes of the
      rest of the loop; the last one writes its byte alone. */
  lemma LoopBytesStep(v: int, i: nat)
    requires i < 5
    ensures v / 0x80 != 0 ==> LoopBytes(v, i) == [(v % 0x80 + 0x80) as uint8] + LoopBytes(v / 0x80, i + 1)
    ensures v / 0x80 == 0 ==> LoopBytes(v, i) == [(v % 0x80) as uint8] + []
  {
    if v / 0x80 != 0 {
      var rest := LoopGroups(v / 0x80, i + 1);
      assert LoopGroups(v, i) == [v % 0x80 + 0x80] + rest;
      assert ToBytes([v % 0x80 + 0x80] + rest) == [(v % 0x80 + 0x80) as uint8] + ToBytes(rest);
    }
  }

  /** The arithmetic copy of the loop from iteration `i` on is a run of
      one-byte writes of the loop's bytes. */
  lemma {:induction false} ArithLoopWrites(st: BinaryStream, v: int, i: nat)
    ensures ArithLoop(st, v, i) == BytewiseWrite(st, LoopBytes(v, i))
    decreases 5 - i
  {
    if i < 5 {
      var b := (v % 0x80 + 0x80) as uint8;
      if v / 0x80 == 0 || Write(st, [b]).Fault? {
        ArithLoopStops(st, v, i);
      } else {
        LoopBytesStep(v, i);
        BytewiseCons(st, b, LoopBytes(v / 0x80, i + 1));
        ArithLoopWrites(Write(st, [b]).st, v / 0x80, i + 1);
      }
    }
  }

  /** The iterations after which the loop does not go on: the last one,
      and one whose byte does not fit. */
  lemma ArithLoopStops(st: BinaryStream, v: int, i: nat)
    requires i < 5
    requires v / 0x80 == 0 || Write(st, [(v % 0x80 + 0x80) as uint8]).Fault?
    ensures ArithLoop(st, v, i) == BytewiseWrite(st, LoopBytes(v, i))
  {
    LoopBytesStep(v, i);
    if v / 0x80 == 0 {
      var b := (v % 0x80) as uint8;
      if Write(st, [b]).Fault? {
        BytewiseFirstFails(st, b, []);
      } else {
        BytewiseCons(st, b, []);
      }
    } else {
      BytewiseFirstFails(st, (v % 0x80 + 0x80) as uint8, LoopBytes(v / 0x80, i + 1));
    }
  }

  /** The loop of `writeVarInt` from iteration `i` on is a run of
      one-byte writes of the groups: when the buffer runs out part-way,
      the bytes that fit stay written and the write cursor stays past
      them. */
  lemma WriteVarIntFromWrites(st: BinaryStream, v: int32, i: nat)
    ensures WriteVarIntFrom(st, v, i) == BytewiseWrite(st, LoopBytes(v, i))
  {
    LoopIsArith(st, v, i);
    ArithLoopWrites(st, v, i);
  }

  /** The bytes of `writeVarInt(v)`. */
  function VarIntBytes(v: int32): (r: Bytes)
    ensures 1 <= |r| <= 5
  {
    VarIntGroupsAreBytes(v);
    ToBytes(VarIntGroups(v, 0))
  }

  /** `writeVarInt` writes the groups of the loop one byte at a time. */
  lemma WriteVarIntWrites(st: BinaryStream, v: int32)
    ensures WriteVarInt(st, v) == BytewiseWrite(st, VarIntBytes(v))
  {
    VarIntGroupsArith(v, 0);
    WriteVarIntFromWrites(st, v, 0);
  }

  /** The bytes `s` spell the values `g`. */
  predicate Spells(s: seq<uint8>, g: seq<int>)
  {
    |s| == |g| && forall j :: 0 <= j < |s| ==> s[j] as int == g[j]
  }

  /** Every byte has the continuation bit 0x80 set. */
  predicate AllContinued(s: seq<uint8>)
  {
    forall j :: 0 <= j < |s| ==> 0x80 <= s[j]
  }

  /** A non-negative value takes its base-128 digits, least significant
      first, with the continuation bit on all but the last. */
  lemma WriteVarIntNonNegative(st: BinaryStream, v: int32)
    requires 0 <= v && 0 <= st.writingPos && st.writingPos + |Leb128(v)| <= |st.buffer|
    ensures 1 <= |Leb128(v)| <= 5
    ensures var r := WriteVarInt(st, v);
            && r.Ok?
            && |r.st.buffer| == |st.buffer|
            && r.st.writingPos == st.writingPos + |Leb128(v)|
            && Spells(r.st.buffer[st.writingPos..st.writingPos + |Leb128(v)|], Leb128(v))
  {
    VarIntNonNegative(v);
    WriteVarIntWrites(st, v);
    var g := VarIntBytes(v);
    var r := Write(st, g);
  }

  /** A negative value always takes five bytes, every one with the
      continuation bit set: the loop runs until its iteration bound
      because the arithmetic shift never reaches zero. */
  lemma WriteVarIntNegative(st: BinaryStream, v: int32)
    requires v < 0 && 0 <= st.writingPos && st.writingPos + 5 <= |st.buffer|
    ensures var r := WriteVarInt(st, v);
            && r.Ok?
            && |r.st.buffer| == |st.buffer|
            && r.st.writingPos == st.writingPos + 5
            && AllContinued(r.st.buffer[st.writingPos..st.writingPos + 5])
  {
    VarIntBytesNegative(v);
    WriteVarIntWrites(st, v);
  }

  lemma VarIntBytesNegative(v: int32)
    requires v < 0
    ensures |VarIntBytes(v)| == 5 && AllContinued(VarIntBytes(v))
  {
    VarIntNegative(v);
  }

  /** When the buffer runs out part-way, `writeVarInt` throws with the
      bytes that fit written and the write cursor at the end of the
      buffer. */
  lemma WriteVarIntRunsOut(st: BinaryStream, v: int32)
    requires 0 <= st.writingPos <= |st.buffer| < st.writingPos + |VarIntBytes(v)|
    ensures var r := WriteVarInt(st, v);
            && r.Fault?
            && |r.st.buffer| == |st.buffer|
            && r.st.writingPos == |st.buffer|
            && r.st.buffer[st.writingPos..] == VarIntBytes(v)[..|st.buffer| - st.writingPos]
  {
    WriteVarIntWrites(st, v);
  }

  // ---------------------------------------------------------------------
  // writeZigZag32, writeVarLong, writeZigZag64
  // ---------------------------------------------------------------------

  /** For values in [-2^30, 2^30), `writeZigZag32` writes the varint of
      twice the value for non-negative values and of minus twice the
      value minus one for negative ones: 0, -1, 1, -2 become 0, 1, 2, 3. */
  lemma WriteZigZag32Small(st: BinaryStream, v: int32)
    requires -0x4000_0000 <= v < 0x4000_0000
    ensures 0 <= ZigZag32(v)
    ensures WriteZigZag32(st, v) == WriteVarInt(st, if v >= 0 then 2 * v else -2 * v - 1)
  {
    ZigZag32Small(v);
  }

  /** Outside [-2^30, 2^30), writeZigZag32 hands `writeVarInt` a
      negative `int`: five bytes, each with the continuation bit set. */
  lemma WriteZigZag32Large(st: BinaryStream, v: int32)
    requires !(-0x4000_0000 <= v < 0x4000_0000)
    requires 0 <= st.writingPos && st.writingPos + 5 <= |st.buffer|
    ensures var r := WriteZigZag32(st, v);
            && r.Ok?
            && |r.st.buffer| == |st.buffer|
            && r.st.writingPos == st.writingPos + 5
            && AllContinued(r.st.buffer[st.writingPos..st.writingPos + 5])
  {
    ZigZag32Large(v);
    WriteVarIntNegative(st, ZigZag32(v));
  }

  /** A run of one-byte writes of `a + b` is the run of `a`, then, if
      that did not fail, the run of `b`. */
  lemma BytewiseAppend(st: BinaryStream, a: Bytes, b: Bytes)
    requires |a| + |b| <= INT32_MAX
    ensures BytewiseWrite(st, a + b)
         == var f := BytewiseWrite(st, a);
            if f.Fault? then f else BytewiseWrite(f.st, b)
  {
    var p := st.writingPos;
    if a == [] {
      assert a + b == b;
    } else if 0 <= p && p + |a| <= |st.buffer| {
      AppendAfterFit(st, a, b);
    } else if 0 <= p <= |st.buffer| {
      assert (a + b)[..|st.buffer| - p] == a[..|st.buffer| - p];
    }
  }

  lemma AppendAfterFit(st: BinaryStream, a: Bytes, b: Bytes)
    requires |a| + |b| <= INT32_MAX && a != []
    requires 0 <= st.writingPos && st.writingPos + |a| <= |st.buffer|
    ensures BytewiseWrite(st, a + b) == BytewiseWrite(Write(st, a).st, b)
  {
    if b == [] {
      assert a + b == a;
    } else if st.writingPos + |a| + |b| <= |st.buffer| {
      WriteThenWrite(st, a, b);
    } else {
      AppendRunsOut(st, a, b);
    }
  }

  /** `a` fits but `b` does not: both sides write `a` and the part of `b`
      that fits, then fail. */
  lemma AppendRunsOut(st: BinaryStream, a: Bytes, b: Bytes)
    requires |a| + |b| <= INT32_MAX && a != [] && b != []
    requires 0 <= st.writingPos && st.writingPos + |a| <= |st.buffer| < st.writingPos + |a| + |b|
    ensures BytewiseWrite(st, a + b) == BytewiseWrite(Write(st, a).st, b)
  {
    var k := |st.buffer| - st.writingPos - |a|;
    var s1 := Write(st, a).st;
    assert s1.writingPos == st.writingPos + |a| && |s1.buffer| == |st.buffer|;
    assert BytewiseWrite(s1, b) == Fault(Write(s1, b[..k]).st);
    assert (a + b)[..|a| + k] == a + b[..k];
    assert BytewiseWrite(st, a + b) == Fault(Write(st, a + b[..k]).st);
    WriteThenWrite(st, a, b[..k]);
  }

  /** The bytes of the varint of `x` followed by those of `y`. */
  function PairBytes(x: int32, y: int32): (r: Bytes)
    ensures 2 <= |r| <= 10
  {
    VarIntBytes(x) + VarIntBytes(y)
  }

  /** Two `writeVarInt`s in a row, the second only if the first did not
      throw, are one run of one-byte writes of both encodings. */
  lemma TwoVarInts(st: BinaryStream, x: int32, y: int32, r: Step<()>)
    requires r == var first := WriteVarInt(st, x);
                  if first.Fault? then first else WriteVarInt(first.st, y)
    ensures r == BytewiseWrite(st, PairBytes(x, y))
  {
    var first := WriteVarInt(st, x);
    WriteVarIntWrites(st, x);
    if first.Ok? {
      WriteVarIntWrites(first.st, y);
    }
    BytewiseAppend(st, VarIntBytes(x), VarIntBytes(y));
  }

  /** `writeVarLong`: the varint of the high half, then that of the low
      half, as one run of one-byte writes. */
  lemma WriteVarLongWrites(st: BinaryStream, v: int64)
    ensures WriteVarLong(st, v) == BytewiseWrite(st, PairBytes(High32(v), Low32(v)))
  {
    TwoVarInts(st, High32(v), Low32(v), WriteVarLong(st, v));
  }

  /** `writeZigZag64`: the zigzag varint of the high half, then that of
      the low half. */
  lemma WriteZigZag64Writes(st: BinaryStream, v: int64)
    ensures WriteZigZag64(st, v) == BytewiseWrite(st, PairBytes(ZigZag32(High32(v)), ZigZag32(Low32(v))))
  {
    TwoVarInts(st, ZigZag32(High32(v)), ZigZag32(Low32(v)), WriteZigZag64(st, v));
  }
}
