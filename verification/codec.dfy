/**
 * The numeric codec of the binary stream: the two constant tables, the
 * signed reinterpretation, the per-width range policy and the conversion
 * between an `int` and its big- or little-endian bytes.
 */
module Codec {
  import opened CSharpInt
  import opened Bitwise

  /** The widths the two tables are keyed by. */
  datatype Width = W8 | W16 | W24 | W32 {
    function Bits(): nat {
      match this
      case W8 => 8
      case W16 => 16
      case W24 => 24
      case W32 => 32
    }

    function Bytes(): nat {
      match this
      case W8 => 1
      case W16 => 2
      case W24 => 3
      case W32 => 4
    }

    /** Only 16, 24 and 32 have an entry in the shift table. */
    predicate HasShiftOrder() {
      !W8?
    }

    /** 2^Bits(): the number of distinct `Bits()`-bit patterns. */
    function Modulus(): nat {
      match this
      case W8 => 0x100
      case W16 => 0x1_0000
      case W24 => 0x100_0000
      case W32 => 0x1_0000_0000
    }

    /** One more than the unsigned upper bound of the limits table:
        2^Bits(), except 2^28 for the 32-bit row. */
    function MaskModulus(): nat {
      match this
      case W8 => 0x100
      case W16 => 0x1_0000
      case W24 => 0x100_0000
      case W32 => 0x1000_0000
    }
  }

  /** The shift table: the shift amount that selects each byte, in the
      order the bytes are laid out. */
  function ShiftOrder(w: Width, bigEndian: bool): (r: seq<int>)
    requires w.HasShiftOrder()
    ensures |r| == w.Bytes()
    ensures forall j :: 0 <= j < |r| ==> r[j] == if bigEndian then 8 * (|r| - 1 - j) else 8 * j
  {
    match w
    case W16 => if bigEndian then [8, 0] else [0, 8]
    case W24 => if bigEndian then [16, 8, 0] else [0, 8, 16]
    case W32 => if bigEndian then [24, 16, 8, 0] else [0, 8, 16, 24]
  }

  /** The limits table: (lower, upper) for the unsigned and the signed
      variant of each width. The signed rows are never consulted. */
  function Limits(w: Width, signed: bool): (r: (int32, int32))
    ensures !signed ==> r == (0, w.MaskModulus() - 1)
  {
    match w
    case W8 => if signed then (-0x80, 0x7f) else (0x00, 0xff)
    case W16 => if signed then (-0x8000, 0x7fff) else (0x00, 0xffff)
    case W24 => if signed then (-0x80_0000, 0x7f_ffff) else (0x00, 0xff_ffff)
    case W32 => if signed then (-0x800_0000, 0x7fff_ffff) else (0x00, 0xfff_ffff)
  }

  /** Two's-complement reinterpretation of `value` as a `bitSize`-bit
      number, computed with C# `int` operations: width 8 goes through
      the truncating `%`, every other width compares against
      `1 << (bitSize - 1)` and subtracts `1 << bitSize`. */
  function SignInt(bitSize: int32, value: int32): int32
  {
    if bitSize == 8 then
      Wrap32(TruncMod(Wrap32(value + 128), 256) - 128)
    else
      if value < Shl32(1, Wrap32(bitSize - 1)) then value
      else Wrap32(value - Shl32(1, bitSize))
  }

  /** The range policy: unsigned values below the table's lower bound
      become that bound, values above its upper bound are and-ed with
      it; signed values are reinterpreted by `SignInt`. */
  function Limit(value: int32, w: Width, signed: bool): int32
  {
    var (lower, upper) := Limits(w, false);
    if !signed then
      if value < lower then lower
      else if value > upper then And32(value, upper)
      else value
    else
      SignInt(w.Bits() as int32, value)
  }

  /** The number a byte sequence denotes, most significant byte first. */
  function BigEndianValue(b: seq<uint8>): nat
  {
    if |b| == 0 then 0 else 256 * BigEndianValue(b[..|b| - 1]) + b[|b| - 1]
  }

  /** The number a byte sequence denotes, least significant byte first. */
  function LittleEndianValue(b: seq<uint8>): nat
  {
    if |b| == 0 then 0 else b[0] + 256 * LittleEndianValue(b[1..])
  }

  function Reverse<T>(s: seq<T>): (r: seq<T>)
    ensures |r| == |s|
    ensures forall i :: 0 <= i < |s| ==> r[i] == s[|s| - 1 - i]
  {
    seq(|s|, i requires 0 <= i < |s| => s[|s| - 1 - i])
  }

  /** Splits `value` into one byte per entry of the shift table: byte i
      is the low byte of `value >> shift[i]`. */
  function WriteValueIntoBytes(w: Width, bigEndian: bool, value: int32): (r: seq<uint8>)
    requires w.HasShiftOrder()
    ensures |r| == w.Bytes()
  {
    SplitBytes(value, ShiftOrder(w, bigEndian))
  }

  /** The loop of `WriteValueIntoBytes` over the remaining shifts. */
  function SplitBytes(value: int32, shifts: seq<int>): (r: seq<uint8>)
    ensures |r| == |shifts|
  {
    if |shifts| == 0 then []
    else [LowByte(Shr32(value, shifts[0]))] + SplitBytes(value, shifts[1..])
  }

  /** Reassembles an `int` by or-ing each byte, shifted by its entry of
      the shift table, into an accumulator starting at 0. */
  function ReadValueFromBytes(bytes: seq<uint8>, w: Width, bigEndian: bool): int32
    requires w.HasShiftOrder() && |bytes| >= w.Bytes()
  {
    Assemble(bytes, ShiftOrder(w, bigEndian), 0, 0)
  }

  /** The loop of `ReadValueFromBytes` from position `i` on. */
  function Assemble(bytes: seq<uint8>, shifts: seq<int>, i: nat, acc: int32): int32
    requires i <= |shifts| <= |bytes|
    decreases |shifts| - i
  {
    if i == |shifts| then acc
    else Assemble(bytes, shifts, i + 1, Or32(acc, Shl32(bytes[i], shifts[i])))
  }
}
