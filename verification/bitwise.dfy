/**
 * The bitwise operators `&`, `|` and `^` of C#'s `int` and `long`,
 * defined bit by bit on natural numbers and lifted to two's complement
 * through the unsigned bit pattern of the operands.
 */
module Bitwise {
  import opened CSharpInt

  function BitAnd(a: nat, b: nat): (r: nat)
    decreases a
  {
    if a == 0 || b == 0 then 0
    else 2 * BitAnd(a / 2, b / 2) + (if a % 2 == 1 && b % 2 == 1 then 1 else 0)
  }

  function BitOr(a: nat, b: nat): (r: nat)
    decreases a
  {
    if a == 0 then b
    else if b == 0 then a
    else 2 * BitOr(a / 2, b / 2) + (if a % 2 == 1 || b % 2 == 1 then 1 else 0)
  }

  function BitXor(a: nat, b: nat): (r: nat)
    decreases a
  {
    if a == 0 then b
    else if b == 0 then a
    else 2 * BitXor(a / 2, b / 2) + (if a % 2 != b % 2 then 1 else 0)
  }

  /** `a & b` on `int`. */
  function And32(a: int32, b: int32): int32
  {
    Wrap32(BitAnd(U32(a), U32(b)))
  }

  /** `a | b` on `int`. */
  function Or32(a: int32, b: int32): int32
  {
    Wrap32(BitOr(U32(a), U32(b)))
  }

  /** `a ^ b` on `int`. */
  function Xor32(a: int32, b: int32): int32
  {
    Wrap32(BitXor(U32(a), U32(b)))
  }

  /** `a & b` on `long`. */
  function And64(a: int64, b: int64): int64
  {
    Wrap64(BitAnd(U64(a), U64(b)))
  }

  /** `a | b` on `long`. */
  function Or64(a: int64, b: int64): int64
  {
    Wrap64(BitOr(U64(a), U64(b)))
  }

  /** One step of the bit-by-bit definitions, for two non-zero operands. */
  lemma BitStep(a: nat, b: nat)
    requires a > 0 && b > 0
    ensures BitAnd(a, b) == 2 * BitAnd(a / 2, b / 2) + (if a % 2 == 1 && b % 2 == 1 then 1 else 0)
    ensures BitXor(a, b) == 2 * BitXor(a / 2, b / 2) + (if a % 2 != b % 2 then 1 else 0)
  {
  }

  /** 2^k - 1, for k > 0, ends in a one bit above which are k - 1 ones. */
  lemma AllOnesHalves(k: nat, p: nat)
    requires k > 0 && p == Pow2(k)
    ensures p / 2 == Pow2(k - 1) && p == 2 * (p / 2)
    ensures (p - 1) / 2 == p / 2 - 1 && (p - 1) % 2 == 1
  {
    var h := Pow2(k - 1);
    assert p == 2 * h;
    DivModUnique(p, 2, h, 0);
    DivModUnique(p - 1, 2, h - 1, 1);
  }

  /** Masking with `p - 1`, where `p` = 2^k, keeps the low k bits. */
  lemma {:induction false} AndLowMask(a: nat, k: nat, p: nat)
    requires p == Pow2(k)
    ensures BitAnd(a, p - 1) == a % p
  {
    if k == 0 || a == 0 {
    } else {
      var h := p / 2;
      AllOnesHalves(k, p);
      AndLowMask(a / 2, k - 1, h);
      BitStep(a, p - 1);
      ModMul(a, 2, h);
    }
  }

  /** Or-ing a multiple of 2^k with a number below 2^k is addition:
      the two have no set bit in common. */
  lemma {:induction false} OrDisjoint(a: nat, b: nat, k: nat)
    requires b < Pow2(k)
    ensures BitOr(a * Pow2(k), b) == a * Pow2(k) + b
  {
    var x := a * Pow2(k);
    if x == 0 || b == 0 {
    } else {
      assert k > 0;
      assert x == 2 * (a * Pow2(k - 1));
      assert x / 2 == a * Pow2(k - 1) && x % 2 == 0;
      OrDisjoint(a, b / 2, k - 1);
    }
  }

  lemma OrDisjointMultiple(x: nat, y: nat, k: nat, p: nat)
    requires p == Pow2(k) && x % p == 0 && y < p
    ensures BitOr(x, y) == x + y
  {
    var a := x / p;
    assert x == a * p;
    OrDisjoint(a, y, k);
  }

  lemma {:induction false} OrCommutes(a: nat, b: nat)
    ensures BitOr(a, b) == BitOr(b, a)
    decreases a
  {
    if a != 0 && b != 0 {
      OrCommutes(a / 2, b / 2);
    }
  }

  /** Xor with `p - 1`, where `p` = 2^k, is the complement within k bits. */
  lemma {:induction false} XorAllOnes(a: nat, k: nat, p: nat)
    requires p == Pow2(k) && a < p
    ensures BitXor(a, p - 1) == p - 1 - a
  {
    if a == 0 || k == 0 {
    } else {
      var h := p / 2;
      AllOnesHalves(k, p);
      DivModUnique(a, 2, a / 2, a % 2);
      XorAllOnes(a / 2, k - 1, h);
      BitStep(a, p - 1);
    }
  }

  /** `v & 0x7F` on `int` is the Euclidean remainder modulo 128,
      whatever the sign of `v`. */
  lemma And32Low7(v: int32)
    ensures And32(v, 0x7F) == v % 0x80
  {
    Pow2Bytes();
    var u := U32(v);
    AndLowMask(u, 7, 0x80);
    ModOfMod(v, 0x80, 0x200_0000);
  }

  /** `v & 0xFFFFFFFF` on `long` keeps the low 32 bits. */
  lemma And64Low32(v: int64)
    ensures And64(v, 0xFFFF_FFFF) == v % 0x1_0000_0000
  {
    Pow2Word();
    var u := U64(v);
    AndLowMask(u, 32, 0x1_0000_0000);
    ModOfMod(v, 0x1_0000_0000, 0x1_0000_0000);
  }

  /** `x | y` on `int` adds two operands whose bit patterns occupy
      disjoint ranges: `x` only bits at or above k, `y` only below k,
      where `p` = 2^k. */
  lemma Or32Disjoint(x: int32, y: int32, k: nat, p: nat)
    requires p == Pow2(k) && U32(x) % p == 0 && U32(y) < p
    ensures Or32(x, y) == Wrap32(U32(x) + U32(y))
    ensures Or32(y, x) == Wrap32(U32(x) + U32(y))
  {
    OrDisjointMultiple(U32(x), U32(y), k, p);
    OrCommutes(U32(x), U32(y));
  }

  /** The 64-bit counterpart of `Or32Disjoint`. */
  lemma Or64Disjoint(x: int64, y: int64, k: nat, p: nat)
    requires p == Pow2(k) && U64(x) % p == 0 && U64(y) < p
    ensures Or64(x, y) == Wrap64(U64(x) + U64(y))
  {
    OrDisjointMultiple(U64(x), U64(y), k, p);
  }

  lemma Xor32Zero(x: int32)
    ensures Xor32(x, 0) == x
  {
  }

  /** `x ^ -1` on `int` is bitwise complement, `-x - 1`. */
  lemma Xor32MinusOne(x: int32)
    ensures Xor32(x, -1) == -(x as int) - 1
  {
    Pow2Word();
    var u := U32(x);
    XorAllOnes(u, 32, 0x1_0000_0000);
    assert BitXor(u, U32(-1)) == 0xFFFF_FFFF - u;
  }
}
