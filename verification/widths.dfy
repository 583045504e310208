/**
 Fixed-width C++ integer types as bounded mathematical integers.

 The widths are named constants, and the limits, the subset types and the
 wrapping operations are all derived from them. The lemmas `WidthValues` and
 `WidthsNest`, and the lemmas built on them in `Index`, are facts of the 64-bit
 target: for another width they must be restated, and some of them (a
 `uint32_t` lying strictly below `SIZE_MAX`) stop being true. Narrowing conversions and
 unsigned arithmetic are modelled by the operation a C++ compiler performs
 (keeping the low-order bits), so that contracts elsewhere can prove that a
 guarded call never actually loses any of them.
 */
module Widths {

  /** Bit width of `size_t` on a 64-bit target. */
  const SIZE_BITS: nat := 64
  /** Bit width of `uint32_t`. */
  const UINT32_BITS: nat := 32
  /** Bit width of `int` (two's complement, one sign bit). */
  const INT_BITS: nat := 32

  function Pow2(n: nat): (r: nat)
    ensures r >= 1
  {
    if n == 0 then 1 else 2 * Pow2(n - 1)
  }

  lemma {:induction false} Pow2Add(a: nat, b: nat)
    ensures Pow2(a + b) == Pow2(a) * Pow2(b)
  {
    if a > 0 {
      Pow2Add(a - 1, b);
      assert Pow2(a + b) == 2 * Pow2(a - 1 + b);
    }
  }

  /** `std::numeric_limits<size_t>::max()` */
  const SIZE_MAX: nat := Pow2(SIZE_BITS) - 1
  /** `std::numeric_limits<uint32_t>::max()` */
  const UINT32_MAX: nat := Pow2(UINT32_BITS) - 1
  /** `std::numeric_limits<int>::max()` */
  const INT_MAX: nat := Pow2(INT_BITS - 1) - 1
  /** `std::numeric_limits<int>::min()` */
  const INT_MIN: int := -(Pow2(INT_BITS - 1) as int)

  type SizeT = x: nat | x <= SIZE_MAX
  type Uint32 = x: nat | x <= UINT32_MAX
  type Int = x: int | INT_MIN <= x <= INT_MAX

  /** The constants above, evaluated: the widths assumed by the rest of the model. */
  lemma WidthValues()
    ensures SIZE_MAX == 0xFFFF_FFFF_FFFF_FFFF
    ensures UINT32_MAX == 0xFFFF_FFFF
    ensures INT_MAX == 0x7FFF_FFFF
    ensures INT_MIN == -0x8000_0000
  {
    assert Pow2(4) == 16 by {
      assert Pow2(2) == 4;
    }
    Pow2Add(4, 4);
    assert Pow2(8) == 256;
    Pow2Add(8, 8);
    assert Pow2(16) == 0x1_0000;
    Pow2Add(16, 15);
    assert Pow2(15) == 0x8000 by {
      Pow2Add(8, 7);
      Pow2Add(4, 3);
      assert Pow2(3) == 8;
    }
    assert Pow2(31) == 0x8000_0000;
    Pow2Add(16, 16);
    assert Pow2(32) == 0x1_0000_0000;
    Pow2Add(32, 32);
    assert Pow2(64) == 0x1_0000_0000_0000_0000;
  }

  /** The three ranges nest: every non-negative `int` is a `uint32_t`, every
      `uint32_t` is a `size_t`, and a `uint32_t` never reaches `SIZE_MAX`. */
  lemma WidthsNest()
    ensures 0 < INT_MAX < UINT32_MAX < SIZE_MAX
  {
    WidthValues();
  }

  /** The low `n` bits of `v`, read as an unsigned number: what a conversion
      to an `n`-bit unsigned type keeps. */
  function LowBits(v: nat, n: nat): (r: nat)
    ensures r < Pow2(n)
    ensures v < Pow2(n) ==> r == v
    ensures r <= v
  {
    if n == 0 then 0 else v % 2 + 2 * LowBits(v / 2, n - 1)
  }

  /** An `n`-bit unsigned bit pattern read as two's complement. */
  function ToSigned(u: nat, n: nat): (r: int)
    requires 1 <= n && u < Pow2(n)
    ensures -(Pow2(n - 1) as int) <= r < Pow2(n - 1)
    ensures r == u || r == u - Pow2(n)
    ensures u < Pow2(n - 1) <==> r == u
  {
    if u < Pow2(n - 1) then u else u - Pow2(n)
  }

  /** Unsigned `size_t` addition, which wraps modulo `2^SIZE_BITS`. */
  function SizeAdd(a: SizeT, b: SizeT): (r: SizeT)
    ensures a + b <= SIZE_MAX ==> r == a + b
    ensures a + b > SIZE_MAX ==> r == a + b - Pow2(SIZE_BITS)
  {
    LowBitsOfSum(a, b, SIZE_BITS);
    LowBits(a + b, SIZE_BITS)
  }

  /** Unsigned `size_t` subtraction, which wraps modulo `2^SIZE_BITS`. */
  function SizeSub(a: SizeT, b: SizeT): (r: SizeT)
    ensures a >= b ==> r == a - b
    ensures a < b ==> r == a - b + Pow2(SIZE_BITS)
  {
    LowBitsOfSum(a, Pow2(SIZE_BITS) - b, SIZE_BITS);
    LowBits(a + (Pow2(SIZE_BITS) - b), SIZE_BITS)
  }

  /** `static_cast<uint32_t>` from `size_t`. */
  function NarrowToUint32(v: SizeT): (r: Uint32)
    ensures v <= UINT32_MAX ==> r == v
    ensures r == v % Pow2(UINT32_BITS)
  {
    LowBitsIsModulo(v, UINT32_BITS);
    LowBits(v, UINT32_BITS)
  }

  /** `static_cast<int>` from `size_t`: the low `INT_BITS` bits, read as
      two's complement. */
  function NarrowToInt(v: SizeT): (r: Int)
    ensures v <= INT_MAX ==> r == v
    ensures r == v % Pow2(INT_BITS) || r == v % Pow2(INT_BITS) - Pow2(INT_BITS)
  {
    LowBitsIsModulo(v, INT_BITS);
    ToSigned(LowBits(v, INT_BITS), INT_BITS)
  }

  /** `v % d` is pinned down by any decomposition `v == q * d + m` with `m` in range. */
  lemma ModOfDecomposition(v: int, d: int, q: int, m: int)
    requires 0 < d && 0 <= m < d && v == q * d + m
    ensures v % d == m && v / d == q
  {
    var k := v / d - q;
    assert d * k == m - v % d;
    MultipleOutsideDivisor(d, k);
  }

  /** A non-zero multiple of a positive `d` is at least `d` away from zero. */
  lemma MultipleOutsideDivisor(d: int, k: int)
    requires 0 < d
    ensures k >= 1 ==> d * k >= d
    ensures k <= -1 ==> d * k <= -d
  {
  }

  /** Keeping the low `n` bits is reduction modulo `2^n`, the C++ standard's
      definition of a conversion to an `n`-bit unsigned type. */
  lemma {:induction false} LowBitsIsModulo(v: nat, n: nat)
    ensures LowBits(v, n) == v % Pow2(n)
  {
    if n == 0 {
      assert v % 1 == 0;
    } else {
      LowBitsIsModulo(v / 2, n - 1);
      ModOfHalf(v, Pow2(n - 1));
    }
  }

  /** Reducing modulo `2 * p` splits into the lowest bit and the rest reduced modulo `p`. */
  lemma ModOfHalf(v: nat, p: nat)
    requires 0 < p
    ensures v % (2 * p) == v % 2 + 2 * ((v / 2) % p)
  {
    var q := (v / 2) / p;
    var m := (v / 2) % p;
    assert v / 2 == q * p + m;
    assert v == q * (2 * p) + (v % 2 + 2 * m);
    ModOfDecomposition(v, 2 * p, q, v % 2 + 2 * m);
  }

  /** Keeping the low bits of a sum that overflows at most once subtracts the
      modulus at most once. */
  lemma LowBitsOfSum(a: nat, b: nat, n: nat)
    requires a < Pow2(n) && b <= Pow2(n)
    ensures a + b < Pow2(n) ==> LowBits(a + b, n) == a + b
    ensures a + b >= Pow2(n) ==> LowBits(a + b, n) == a + b - Pow2(n)
  {
    LowBitsIsModulo(a + b, n);
    if a + b >= Pow2(n) {
      ModOfDecomposition(a + b, Pow2(n), 1, a + b - Pow2(n));
    }
  }
}
