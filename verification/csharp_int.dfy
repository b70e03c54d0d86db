/**
 * C# integer semantics on Dafny's unbounded integers: the `int` (32-bit)
 * and `long` (64-bit) two's-complement wrap of unchecked arithmetic, the
 * shift operators (arithmetic `>>`, shift count masked to 5 or 6 bits),
 * the truncating `%` and the truncating `(byte)` cast.
 */
module CSharpInt {

  /** A C# `int`. */
  type int32 = x: int | -0x8000_0000 <= x < 0x8000_0000

  /** A C# `long`. */
  type int64 = x: int | -0x8000_0000_0000_0000 <= x < 0x8000_0000_0000_0000

  /** A C# `byte`. */
  type uint8 = x: int | 0 <= x < 0x100

  const INT32_MAX: int := 0x7fff_ffff

  function Pow2(n: nat): (r: nat)
    ensures r >= 1
  {
    if n == 0 then 1 else 2 * Pow2(n - 1)
  }

  lemma {:induction false} Pow2Add(a: nat, b: nat)
    ensures Pow2(a + b) == Pow2(a) * Pow2(b)
  {
    if a > 0 {
      Pow2Add(a - 1, b);
      assert Pow2(a + b) == 2 * Pow2(a - 1 + b);
    }
  }

  /** One more byte multiplies a power of two by 256. */
  lemma Pow2Plus8(s: nat)
    ensures Pow2(s + 8) == Pow2(s) * 256
  {
    Pow2Add(s, 8);
    assert Pow2(8) == 256;
  }

  /** The powers of two of the byte widths. */
  lemma Pow2Bytes()
    ensures Pow2(7) == 0x80 && Pow2(8) == 0x100
    ensures Pow2(15) == 0x8000 && Pow2(16) == 0x1_0000
    ensures Pow2(23) == 0x80_0000 && Pow2(24) == 0x100_0000
    ensures Pow2(28) == 0x1000_0000
  {
    assert Pow2(4) == 16;
    assert Pow2(7) == 0x80;
    assert Pow2(8) == 0x100;
    Pow2Add(8, 7);
    Pow2Add(8, 8);
    Pow2Add(16, 7);
    Pow2Add(16, 8);
    Pow2Add(24, 4);
  }

  /** The powers of two of C#'s `int`. */
  lemma Pow2Word()
    ensures Pow2(31) == 0x8000_0000 && Pow2(32) == 0x1_0000_0000
  {
    Pow2Bytes();
    Pow2Add(24, 7);
    Pow2Add(24, 8);
  }

  /** Euclidean division is determined by any quotient/remainder pair. */
  lemma DivModUnique(x: int, d: int, q: int, r: int)
    requires d > 0 && 0 <= r < d && x == q * d + r
    ensures x / d == q && x % d == r
  {
    var q0, r0 := x / d, x % d;
    assert (q - q0) * d == r0 - r;
    if q0 != q {
      MulAtLeastAbs(q - q0, d);
    }
  }

  /** Floor division by a positive number keeps the sign and does not
      grow the magnitude. */
  lemma DivKeepsSign(x: int, p: int)
    requires p >= 1
    ensures 0 <= x ==> 0 <= x / p <= x
    ensures x < 0 ==> x <= x / p < 0
  {
    var q, r := x / p, x % p;
    assert x == q * p + r && 0 <= r < p;
    if q >= 0 {
      MulLeq(1, p, q);
      assert x >= q;
    } else {
      MulLeq(q + 1, 0, p);
      Distrib(q, 1, p);
      MulLeq(1, p, -(q + 1));
      assert x <= q;
    }
  }

  lemma MulAtLeastAbs(a: int, d: int)
    requires a != 0 && d > 0
    ensures a * d >= d || a * d <= -d
  {
  }

  lemma Distrib(a: int, b: int, c: int)
    ensures (a + b) * c == a * c + b * c
  {
  }

  lemma MulAssoc(a: int, b: int, c: int)
    ensures a * (b * c) == (a * b) * c
  {
  }

  lemma MulLeq(a: int, b: int, c: int)
    requires a <= b && c >= 0
    ensures a * c <= b * c
  {
  }

  lemma MulNonNeg(a: int, b: int)
    requires a >= 0 && b >= 0
    ensures a * b >= 0
  {
  }

  lemma MulLess(a: int, b: int, c: int)
    requires a < b && c > 0
    ensures a * c < b * c
  {
  }

  /** Splitting a remainder modulo `m * n` into its low and high parts. */
  lemma ModMul(x: int, m: int, n: int)
    requires m > 0 && n > 0
    ensures m * n > 0
    ensures x % (m * n) == (x / m % n) * m + x % m
    ensures x / (m * n) == x / m / n
  {
    var q, r := x / m, x % m;
    var q2, r2 := q / n, q % n;
    var low := r2 * m + r;
    MulPos(m, n);
    assert x == q2 * (m * n) + low by {
      assert x == q * m + r;
      assert q == q2 * n + r2;
      DistribTwo(q2, n, r2, m);
    }
    assert 0 <= low < m * n by {
      LowPartBound(r2, m, n, r);
    }
    DivModUnique(x, m * n, q2, low);
  }

  lemma MulPos(m: int, n: int)
    requires m > 0 && n > 0
    ensures m * n > 0
  {
  }

  lemma DistribTwo(a: int, n: int, b: int, m: int)
    ensures (a * n + b) * m == a * (m * n) + b * m
  {
  }

  lemma LowPartBound(r2: int, m: int, n: int, r: int)
    requires 0 <= r2 < n && 0 <= r < m
    ensures 0 <= r2 * m + r < m * n
  {
    assert r2 * m <= (n - 1) * m;
    assert (n - 1) * m + m == m * n;
  }

  /** Adding a multiple of `m` to a multiple of `m * n` leaves a
      multiple of `m`. */
  lemma ModSumMultiple(x: int, b: int, m: int, n: int, y: int)
    requires m > 0 && n > 0 && x % (m * n) == 0 && y == x + b * m
    ensures y % m == 0
  {
    MulPos(m, n);
    var q := x / (m * n);
    assert x == q * (m * n);
    assert x + b * m == (q * n + b) * m by {
      MulAssoc(q, n, m);
      Distrib(q * n, b, m);
    }
    DivModUnique(y, m, q * n + b, 0);
  }

  /** A remainder modulo `m` survives reduction modulo a multiple of `m`. */
  lemma ModOfMod(x: int, m: int, n: int)
    requires m > 0 && n > 0
    ensures m * n > 0 && x % (m * n) % m == x % m
  {
    ModMul(x, m, n);
    var r2 := x / m % n;
    DivModUnique(x % (m * n), m, r2, x % m);
  }

  /** `(int)` cast and unchecked `int` arithmetic: reduction into the
      32-bit two's-complement range. */
  function Wrap32(x: int): (r: int32)
    ensures -0x8000_0000 <= x < 0x8000_0000 ==> r == x
  {
    (x + 0x8000_0000) % 0x1_0000_0000 - 0x8000_0000
  }

  /** `(long)` reduction for unchecked `long` arithmetic. */
  function Wrap64(x: int): (r: int64)
    ensures -0x8000_0000_0000_0000 <= x < 0x8000_0000_0000_0000 ==> r == x
  {
    (x + 0x8000_0000_0000_0000) % 0x1_0000_0000_0000_0000 - 0x8000_0000_0000_0000
  }

  /** The 32-bit pattern of a value, read as an unsigned number. */
  function U32(x: int): (r: nat)
    ensures r < 0x1_0000_0000
    ensures 0 <= x < 0x1_0000_0000 ==> r == x
  {
    x % 0x1_0000_0000
  }

  /** The 64-bit pattern of a value, read as an unsigned number. */
  function U64(x: int): (r: nat)
    ensures r < 0x1_0000_0000_0000_0000
    ensures 0 <= x < 0x1_0000_0000_0000_0000 ==> r == x
  {
    x % 0x1_0000_0000_0000_0000
  }

  /** Wrapping an intermediate result does not change the wrapped sum. */
  lemma Wrap32Add(a: int, b: int)
    ensures Wrap32(Wrap32(a) + b) == Wrap32(a + b)
  {
    var q := (a + 0x8000_0000) / 0x1_0000_0000;
    assert Wrap32(a) == a - q * 0x1_0000_0000;
    var r := (a + b + 0x8000_0000) % 0x1_0000_0000;
    DivModUnique(Wrap32(a) + b + 0x8000_0000, 0x1_0000_0000, (a + b + 0x8000_0000) / 0x1_0000_0000 - q, r);
  }

  lemma Wrap32OfU32(x: int32)
    ensures Wrap32(U32(x)) == x
  {
  }

  lemma U32OfWrap32(x: int)
    ensures U32(Wrap32(x)) == U32(x)
  {
  }

  /** Arithmetic shift right by `k`: division by 2^k rounded towards
      negative infinity, which keeps the sign. */
  function Asr(x: int, k: nat): (r: int)
    ensures 0 <= x ==> 0 <= r <= x
    ensures x < 0 ==> x <= r < 0
  {
    DivKeepsSign(x, Pow2(k));
    x / Pow2(k)
  }

  /** Shifting right by `k` divides by `p` = 2^k. */
  lemma AsrIsDiv(x: int, k: nat, p: nat)
    requires p == Pow2(k)
    ensures Asr(x, k) == x / p
  {
  }

  /** Shift left by `k` on unbounded integers: multiplication by 2^k. */
  function ShiftLeft(x: int, k: nat): int
  {
    x * Pow2(k)
  }

  /** Shifting left by `k` multiplies by `p` = 2^k. */
  lemma ShiftLeftIsMul(x: int, k: nat, p: nat)
    requires p == Pow2(k)
    ensures ShiftLeft(x, k) == x * p
  {
  }

  /** `x >> n` on an `int`: the shift count is masked to its low 5 bits. */
  function Shr32(x: int32, n: int): (r: int32)
    ensures 0 <= n < 32 ==> r == Asr(x, n)
  {
    var k := n % 32;
    assert 0 <= n < 32 ==> k == n;
    Asr(x, k)
  }

  /** `x << n` on an `int`: count masked to 5 bits, result wrapped. */
  function Shl32(x: int32, n: int): int32
  {
    Wrap32(ShiftLeft(x, n % 32))
  }

  lemma Shl32IsMul(x: int32, n: int, p: nat)
    requires 0 <= n < 32 && p == Pow2(n)
    ensures Shl32(x, n) == Wrap32(x * p)
  {
    ShiftLeftIsMul(x, n, p);
  }

  /** `x >> n` on a `long`: the shift count is masked to its low 6 bits. */
  function Shr64(x: int64, n: int): (r: int64)
    ensures 0 <= n < 64 ==> r == Asr(x, n)
  {
    var k := n % 64;
    assert 0 <= n < 64 ==> k == n;
    Asr(x, k)
  }

  /** `x << n` on a `long`: count masked to 6 bits, result wrapped. */
  function Shl64(x: int64, n: int): int64
  {
    Wrap64(ShiftLeft(x, n % 64))
  }

  lemma Shl64IsMul(x: int64, n: int, p: nat)
    requires 0 <= n < 64 && p == Pow2(n)
    ensures Shl64(x, n) == Wrap64(x * p)
  {
    ShiftLeftIsMul(x, n, p);
  }

  /** The `(byte)` cast: keep the low eight bits. */
  function LowByte(x: int): (r: uint8)
    ensures (x - r) % 256 == 0
    ensures 0 <= x < 256 ==> r == x
  {
    x % 256
  }

  /** C#'s `%` by a positive divisor: the remainder takes the sign of
      the dividend. */
  function TruncMod(a: int, b: int): (r: int)
    requires b > 0
    ensures (a - r) % b == 0
    ensures 0 <= a ==> 0 <= r < b
    ensures a < 0 ==> -b < r <= 0
  {
    if a >= 0 then
      DivModUnique(a - a % b, b, a / b, 0);
      a % b
    else
      DivModUnique(a + (-a) % b, b, -((-a) / b), 0);
      -((-a) % b)
  }
}
