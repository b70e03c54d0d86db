/**
 * The range policy of the stream: what `SignInt` computes for each
 * width, that it inverts reduction modulo 2^bits on the 16- and 24-bit
 * ranges, and what the unsigned branch of `Limit` does to values below,
 * inside and above the table's range.
 */
module LimitProofs {
  import opened CSharpInt
  import opened Bitwise
  import opened Codec

  // ---------------------------------------------------------------------
  // The unsigned branch of limit
  // ---------------------------------------------------------------------

  /** `v & (m - 1)` for a non-negative `v` and `m` = 2^k <= 2^31 keeps the
      low k bits. */
  lemma And32Mask(v: int32, k: nat, m: nat)
    requires 0 <= v && m == Pow2(k) && m <= 0x8000_0000
    ensures And32(v, m - 1) == v % m
  {
    AndLowMask(v, k, m);
  }

  lemma MaskModulusIsPow2(w: Width)
    ensures w.W8? ==> w.MaskModulus() == Pow2(8)
    ensures w.W16? ==> w.MaskModulus() == Pow2(16)
    ensures w.W24? ==> w.MaskModulus() == Pow2(24)
    ensures w.W32? ==> w.MaskModulus() == Pow2(28)
  {
    Pow2Bytes();
  }

  /** Masking with the table's upper bound reduces a non-negative value
      modulo `MaskModulus`. */
  lemma AndUpperBound(value: int32, w: Width)
    requires 0 <= value
    ensures And32(value, Limits(w, false).1) == value % w.MaskModulus()
  {
    MaskModulusIsPow2(w);
    match w
    case W8 => And32Mask(value, 8, w.MaskModulus());
    case W16 => And32Mask(value, 16, w.MaskModulus());
    case W24 => And32Mask(value, 24, w.MaskModulus());
    case W32 => And32Mask(value, 28, w.MaskModulus());
  }

  /** Unsigned: a negative value becomes 0, anything else is reduced
      modulo one more than the table's upper bound (masked, not
      saturated), so in-range values are unchanged. For 32 bits the
      bound is 0xfffffff, so only the low 28 bits survive. */
  lemma LimitUnsigned(value: int32, w: Width)
    ensures 0 <= Limit(value, w, false) < w.MaskModulus()
    ensures value < 0 ==> Limit(value, w, false) == 0
    ensures 0 <= value ==> Limit(value, w, false) == value % w.MaskModulus()
    ensures 0 <= value < w.MaskModulus() ==> Limit(value, w, false) == value
  {
    if value > Limits(w, false).1 {
      AndUpperBound(value, w);
    }
  }

  // ---------------------------------------------------------------------
  // signInt
  // ---------------------------------------------------------------------

  /** Width 8: the result is congruent to the value modulo 256. It is the
      signed byte in [-128, 128) when `value + 128` neither is negative
      nor overflows; otherwise the truncating `%` leaves it in
      (-384, -128]. The two ranges meet at -128. */
  lemma SignInt8(value: int32)
    ensures (SignInt(8, value) - value) % 256 == 0
    ensures -128 <= value <= INT32_MAX - 128 ==> -128 <= SignInt(8, value) < 128
    ensures !(-128 <= value <= INT32_MAX - 128) ==> -384 < SignInt(8, value) <= -128
  {
    var x := Wrap32(value + 128);
    assert (x - (value + 128)) % 256 == 0 by {
      if value > INT32_MAX - 128 {
        DivModUnique(x - (value + 128), 256, -0x100_0000, 0);
      }
    }
    var t := TruncMod(x, 256);
    var q1 := (x - (value + 128)) / 256;
    var q2 := (x - t) / 256;
    DivModUnique(t - 128 - value, 256, q1 - q2, 0);
  }

  /** `signInt(8, 200)` is -56. */
  lemma SignInt8Example()
    ensures SignInt(8, 200) == -56
  {
  }

  /** Widths 16 and 24: values below 2^(bits-1) are kept, the others have
      2^bits subtracted, with no wrap-around. */
  lemma SignIntWide(value: int32, w: Width)
    requires w.W16? || w.W24?
    ensures SignInt(w.Bits() as int32, value)
         == if value < w.Modulus() / 2 then value else value - w.Modulus()
  {
    if w.W16? {
      assert Pow2(15) == 0x8000 && Pow2(16) == 0x1_0000;
      Shl32IsMul(1, 15, 0x8000);
      Shl32IsMul(1, 16, 0x1_0000);
    } else {
      assert Pow2(23) == 0x80_0000 && Pow2(24) == 0x100_0000 by { Pow2Bytes(); }
      Shl32IsMul(1, 23, 0x80_0000);
      Shl32IsMul(1, 24, 0x100_0000);
    }
  }

  /** Width 32: `1 << 31` is int.MinValue, so no value is below it, and
      `1 << 32` is 1 because the shift count is masked, so `signInt`
      subtracts one (wrapping at int.MinValue). */
  lemma SignInt32(value: int32)
    ensures SignInt(32, value) == Wrap32(value - 1)
  {
    assert Shl32(1, 31) == -0x8000_0000 by {
      Pow2Word();
      ShiftLeftIsMul(1, 31, 0x8000_0000);
    }
  }

  /** On the 16- and 24-bit patterns, `signInt` is two's-complement
      decoding: the result lies in [-2^(bits-1), 2^(bits-1)) and is
      congruent to the pattern modulo 2^bits. */
  lemma SignIntDecodes(u: int32, w: Width)
    requires w.W16? || w.W24?
    requires 0 <= u < w.Modulus()
    ensures -(w.Modulus() / 2) <= SignInt(w.Bits() as int32, u) < w.Modulus() / 2
    ensures SignInt(w.Bits() as int32, u) % w.Modulus() == u
  {
    SignIntWide(u, w);
    if u >= w.Modulus() / 2 {
      DivModUnique(u - w.Modulus(), w.Modulus(), -1, u);
    }
  }

  /** ... and it inverts reduction modulo 2^bits on that signed range. */
  lemma SignIntOfPattern(s: int32, w: Width)
    requires w.W16? || w.W24?
    requires -(w.Modulus() / 2) <= s < w.Modulus() / 2
    ensures SignInt(w.Bits() as int32, s % w.Modulus()) == s
  {
    var m := w.Modulus();
    if s < 0 {
      DivModUnique(s, m, -1, s + m);
    } else {
      DivModUnique(s, m, 0, s);
    }
    SignIntWide(s % m, w);
  }
}
