/**
 * The variable-length encodings of the stream: the byte groups the loop
 * of `writeVarInt` hands to `writeInt8`, and the zigzag mapping that
 * `writeZigZag32` applies before it.
 */
module VarInt {
  import opened CSharpInt
  import opened Bitwise

  // ---------------------------------------------------------------------
  // The loop of writeVarInt
  // ---------------------------------------------------------------------

  /** The values the loop of `writeVarInt` passes to `writeInt8`, from
      iteration `i` (of at most five) on: the low seven bits of the value,
      with 0x80 or-ed in while the value shifted right by seven is not
      yet zero. */
  function VarIntGroups(value: int32, i: nat): seq<int32>
    decreases 5 - i
  {
    if i >= 5 then []
    else
      var toWrite := And32(value, 0x7F);
      var rest := Shr32(value, 7);
      if rest != 0 then [Or32(toWrite, 0x80)] + VarIntGroups(rest, i + 1)
      else [toWrite]
  }

  // ---------------------------------------------------------------------
  // Reference encodings
  // ---------------------------------------------------------------------

  function Pow128(n: nat): (r: nat)
    ensures r >= 1
  {
    if n == 0 then 1 else 128 * Pow128(n - 1)
  }

  /** Dividing by 128 a number below 128^k leaves one below 128^(k-1). */
  lemma DivBelowPow128(v: int, k: nat)
    requires 1 <= k && 0 <= v < Pow128(k)
    ensures 0 <= v / 0x80 < Pow128(k - 1)
    ensures v >= 0x80 ==> k >= 2
  {
    var p := Pow128(k - 1);
    assert Pow128(k) == 0x80 * p;
    DivModUnique(v, 0x80, v / 0x80, v % 0x80);
  }

  /** Base-128 digits of a natural number, least significant first, the
      continuation bit 0x80 set on every digit but the last. */
  function Leb128(n: nat): (r: seq<int>)
    decreases n
  {
    if n < 0x80 then [n] else [n % 0x80 + 0x80] + Leb128(n / 0x80)
  }

  /** `k` base-128 digits of `x` (floor division), every one with the
      continuation bit set. */
  function Continued(x: int, k: nat): (r: seq<int>)
    decreases k
  {
    if k == 0 then [] else [x % 0x80 + 0x80] + Continued(x / 0x80, k - 1)
  }

  /** The number the seven-bit payloads of a group sequence denote,
      least significant group first. */
  function PayloadValue(g: seq<int>): int
  {
    if |g| == 0 then 0 else g[0] % 0x80 + 0x80 * PayloadValue(g[1..])
  }

  /** Every group fits a byte; all but the last have the continuation
      bit set and the last does not. */
  predicate WellFormedGroups(g: seq<int>)
  {
    && |g| >= 1
    && (forall j :: 0 <= j < |g| ==> 0 <= g[j] < 0x100)
    && (forall j :: 0 <= j < |g| - 1 ==> g[j] >= 0x80)
    && g[|g| - 1] < 0x80
  }

  // ---------------------------------------------------------------------
  // One iteration, in arithmetic terms
  // ---------------------------------------------------------------------

  lemma ShrSeven(v: int32)
    ensures Shr32(v, 7) == v / 0x80
  {
    assert Pow2(7) == 0x80;
  }

  lemma OrContinuation(x: int32)
    requires 0 <= x < 0x80
    ensures Or32(x, 0x80) == x + 0x80
  {
    assert Pow2(7) == 0x80;
    Or32Disjoint(0x80, x, 7, 0x80);
  }

  /** `v & 0x7F` is `v` mod 128, `v >> 7` is `v` div 128 (both rounding
      towards negative infinity), and or-ing 0x80 into the low seven
      bits adds 128. */
  lemma VarIntStep(v: int32)
    ensures And32(v, 0x7F) == v % 0x80
    ensures Shr32(v, 7) == v / 0x80
    ensures Or32(v % 0x80, 0x80) == v % 0x80 + 0x80
  {
    And32Low7(v);
    ShrSeven(v);
    OrContinuation(v % 0x80);
  }

  /** One iteration of the loop, in arithmetic terms. */
  lemma VarIntGroupsUnfold(v: int32, i: nat)
    requires i < 5
    ensures VarIntGroups(v, i)
         == if v / 0x80 != 0 then [v % 0x80 + 0x80] + VarIntGroups(v / 0x80, i + 1) else [v % 0x80]
  {
    VarIntStep(v);
  }

  // ---------------------------------------------------------------------
  // Non-negative values: base-128 with continuation bits
  // ---------------------------------------------------------------------

  /** From iteration `i` on, a value below 128^(5 - i) is encoded as its
      base-128 digits. */
  lemma {:induction false} VarIntGroupsLeb128(v: int32, i: nat)
    requires i < 5 && 0 <= v < Pow128(5 - i)
    ensures VarIntGroups(v, i) == Leb128(v)
    decreases 5 - i
  {
    VarIntGroupsArith(v, i);
    LoopGroupsLeb128(v, i);
  }

  /** The loop of writeVarInt with `&`, `>>` and `|` replaced by their
      arithmetic meaning. */
  function LoopGroups(v: int, i: nat): (r: seq<int>)
    ensures |r| <= 5 && (i < 5 ==> 1 <= |r| <= 5 - i)
    ensures forall j :: 0 <= j < |r| ==> 0 <= r[j] < 0x100
    decreases 5 - i
  {
    if i >= 5 then []
    else if v / 0x80 != 0 then [v % 0x80 + 0x80] + LoopGroups(v / 0x80, i + 1)
    else [v % 0x80]
  }

  lemma {:induction false} VarIntGroupsArith(v: int32, i: nat)
    ensures VarIntGroups(v, i) == LoopGroups(v, i)
    decreases 5 - i
  {
    if i < 5 {
      VarIntGroupsUnfold(v, i);
      VarIntGroupsArith(v / 0x80, i + 1);
    }
  }

  lemma {:induction false} LoopGroupsLeb128(v: int, i: nat)
    requires i < 5 && 0 <= v < Pow128(5 - i)
    ensures LoopGroups(v, i) == Leb128(v)
    decreases 5 - i
  {
    if v >= 0x80 {
      DivBelowPow128(v, 5 - i);
      assert 5 - i - 1 == 5 - (i + 1);
      LoopGroupsLeb128(v / 0x80, i + 1);
    }
  }

  /** The digits denote the number, and are well formed. */
  lemma {:induction false} Leb128Value(n: nat)
    ensures PayloadValue(Leb128(n)) == n
    ensures WellFormedGroups(Leb128(n))
    decreases n
  {
    if n >= 0x80 {
      Leb128Value(n / 0x80);
      var g := Leb128(n);
      assert g[1..] == Leb128(n / 0x80);
    }
  }

  /** A number below 128^k has at most k digits. */
  lemma {:induction false} Leb128Length(n: nat, k: nat)
    requires 1 <= k && n < Pow128(k)
    ensures 1 <= |Leb128(n)| <= k
    decreases n
  {
    if n >= 0x80 {
      DivBelowPow128(n, k);
      Leb128Length(n / 0x80, k - 1);
    }
  }

  /** A non-negative value is written as one to five well-formed groups
      whose payloads denote the value. */
  lemma VarIntNonNegative(v: int32)
    requires 0 <= v
    ensures VarIntGroups(v, 0) == Leb128(v)
    ensures 1 <= |VarIntGroups(v, 0)| <= 5
    ensures WellFormedGroups(VarIntGroups(v, 0))
    ensures PayloadValue(VarIntGroups(v, 0)) == v
  {
    assert Pow128(5) == 0x8_0000_0000;
    VarIntGroupsLeb128(v, 0);
    Leb128Length(v, 5);
    Leb128Value(v);
  }

  /** A value below 128 is written as itself, one group. */
  lemma VarIntOneGroup(v: int32)
    requires 0 <= v < 0x80
    ensures VarIntGroups(v, 0) == [v]
  {
    VarIntNonNegative(v);
  }

  /** A value in [128, 16384) is written as two groups: the low seven
      bits with the continuation bit, then the rest (300 gives 0xAC 0x02). */
  lemma VarIntTwoGroups(v: int32)
    requires 0x80 <= v < 0x4000
    ensures VarIntGroups(v, 0) == [v % 0x80 + 0x80, v / 0x80]
  {
    VarIntNonNegative(v);
    assert v / 0x80 < 0x80;
  }

  // ---------------------------------------------------------------------
  // Negative values: five groups, never terminated
  // ---------------------------------------------------------------------

  /** From iteration `i` on, a negative value stays negative under `>>`,
      so every remaining iteration writes a group with the continuation
      bit set. */
  lemma VarIntGroupsNegative(v: int32, i: nat)
    requires i <= 5 && v < 0
    ensures VarIntGroups(v, i) == Continued(v, 5 - i)
  {
    VarIntGroupsArith(v, i);
    LoopGroupsNegative(v, i);
  }

  lemma {:induction false} LoopGroupsNegative(v: int, i: nat)
    requires i <= 5 && v < 0
    ensures LoopGroups(v, i) == Continued(v, 5 - i)
    decreases 5 - i
  {
    if i < 5 {
      LoopGroupsNegative(v / 0x80, i + 1);
    }
  }

  /** The payloads of `k` continued groups denote `x` modulo 128^k. */
  lemma {:induction false} ContinuedValue(x: int, k: nat)
    decreases k
    ensures |Continued(x, k)| == k
    ensures forall j :: 0 <= j < k ==> 0x80 <= Continued(x, k)[j] < 0x100
    ensures PayloadValue(Continued(x, k)) == x % Pow128(k)
  {
    if k > 0 {
      var g := Continued(x, k);
      var p := Pow128(k - 1);
      ContinuedValue(x / 0x80, k - 1);
      assert g[1..] == Continued(x / 0x80, k - 1);
      assert Pow128(k) == 0x80 * p;
      DivModUnique(g[0], 0x80, 1, x % 0x80);
      ModMul(x, 0x80, p);
    }
  }

  /** A negative value is written as five groups, every one with the
      continuation bit set, whose payloads denote the value modulo 2^35. */
  lemma VarIntNegative(v: int32)
    requires v < 0
    ensures |VarIntGroups(v, 0)| == 5
    ensures forall j :: 0 <= j < 5 ==> 0x80 <= VarIntGroups(v, 0)[j] < 0x100
    ensures PayloadValue(VarIntGroups(v, 0)) == v % 0x8_0000_0000
  {
    VarIntGroupsNegative(v, 0);
    ContinuedValue(v, 5);
    assert Pow128(5) == 0x8_0000_0000;
  }

  /** Whatever the sign, every group fits a byte. */
  lemma VarIntGroupsAreBytes(v: int32)
    ensures 1 <= |VarIntGroups(v, 0)| <= 5
    ensures forall j :: 0 <= j < |VarIntGroups(v, 0)| ==> 0 <= VarIntGroups(v, 0)[j] < 0x100
  {
    if v >= 0 {
      VarIntNonNegative(v);
    } else {
      VarIntNegative(v);
    }
  }

  // ---------------------------------------------------------------------
  // Zigzag
  // ---------------------------------------------------------------------

  /** `(value << 1) ^ (value >> 31)`. */
  function ZigZag32(value: int32): int32
  {
    Xor32(Shl32(value, 1), Shr32(value, 31))
  }

  /** The inverse mapping on 32-bit patterns: even patterns are the
      non-negative values doubled, odd ones the negative values. */
  function UnZigZag(u: nat): int
  {
    if u % 2 == 0 then u / 2 else -(u + 1) / 2
  }

  /** Congruent numbers have the same 32-bit pattern. */
  lemma U32Congruent(a: int, b: int, q: int)
    requires a == b + q * 0x1_0000_0000
    ensures U32(a) == U32(b)
  {
    DivModUnique(a, 0x1_0000_0000, b / 0x1_0000_0000 + q, b % 0x1_0000_0000);
  }

  /** `value >> 31` is 0 for non-negative values and -1 for negative ones. */
  lemma ShrSign(v: int32)
    ensures Shr32(v, 31) == if v >= 0 then 0 else -1
  {
    Pow2Word();
    AsrIsDiv(v, 31, 0x8000_0000);
  }

  /** `value << 1` is `2 * value` minus a multiple of 2^32. */
  lemma ShlOne(v: int32)
    ensures Shl32(v, 1) == 2 * v - ((2 * v + 0x8000_0000) / 0x1_0000_0000) * 0x1_0000_0000
  {
    Shl32IsMul(v, 1, 2);
  }

  lemma ZigZag32NonNegative(v: int32)
    requires v >= 0
    ensures U32(ZigZag32(v)) == 2 * v
  {
    var x := Shl32(v, 1);
    ShrSign(v);
    ShlOne(v);
    Xor32Zero(x);
    U32Congruent(x, 2 * v, -((2 * v + 0x8000_0000) / 0x1_0000_0000));
  }

  lemma ZigZag32Negative(v: int32)
    requires v < 0
    ensures U32(ZigZag32(v)) == -2 * v - 1
  {
    var x := Shl32(v, 1);
    ShrSign(v);
    ShlOne(v);
    Xor32MinusOne(x);
    U32Congruent(-(x as int) - 1, -2 * v - 1, (2 * v + 0x8000_0000) / 0x1_0000_0000);
  }

  /** Non-negative values map to the even patterns 2v, negative values
      to the odd patterns -2v - 1: a bijection onto all 2^32 patterns. */
  lemma ZigZag32Value(v: int32)
    ensures U32(ZigZag32(v)) == if v >= 0 then 2 * v else -2 * v - 1
  {
    if v >= 0 {
      ZigZag32NonNegative(v);
    } else {
      ZigZag32Negative(v);
    }
  }

  /** `UnZigZag` undoes the mapping, so zigzag is injective. */
  lemma ZigZag32RoundTrip(v: int32)
    ensures UnZigZag(U32(ZigZag32(v))) == v
  {
    ZigZag32Value(v);
  }

  lemma ZigZag32Injective(a: int32, b: int32)
    requires ZigZag32(a) == ZigZag32(b)
    ensures a == b
  {
    ZigZag32RoundTrip(a);
    ZigZag32RoundTrip(b);
  }

  /** On values whose double fits, zigzag is the plain mapping v -> 2v
      and v -> -2v - 1 (0, -1, 1, -2 give 0, 1, 2, 3). */
  lemma ZigZag32Small(v: int32)
    requires -0x4000_0000 <= v < 0x4000_0000
    ensures ZigZag32(v) == if v >= 0 then 2 * v else -2 * v - 1
  {
    ZigZag32Value(v);
    Wrap32OfU32(ZigZag32(v));
  }

  /** Outside that range the zigzag pattern is at least 2^31, so the
      `int` handed on to `writeVarInt` is negative. */
  lemma ZigZag32Large(v: int32)
    requires !(-0x4000_0000 <= v < 0x4000_0000)
    ensures ZigZag32(v) < 0
  {
    ZigZag32Value(v);
  }
}
