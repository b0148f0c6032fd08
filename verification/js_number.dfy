/** JavaScript number semantics the library relies on, modelled on
    mathematical integers: ECMAScript ToInt32/ToUint32, the shift and
    bitwise operators (which work on 32-bit two's complement values), the
    truncating `%` operator, Uint8Array element stores, and the 64-bit
    arithmetic of the `Long` class. Everything here is plain integer
    arithmetic; the lemmas turn the bit-level definitions into the
    division/remainder forms the rest of the model reasons with. */
module JsNumber {

  const TWO31: int := 0x8000_0000
  const TWO32: int := 0x1_0000_0000
  const TWO63: int := 0x8000_0000_0000_0000
  const TWO64: int := 0x1_0000_0000_0000_0000

  /** The value range of one Uint8Array element. */
  type Byte = b: int | 0 <= b < 256

  function Pow2(n: nat): (r: int)
    ensures r >= 1
  {
    if n == 0 then 1 else 2 * Pow2(n - 1)
  }

  /** The powers of two the library's constants are built from. */
  lemma Pow2Values()
    ensures Pow2(0) == 1 && Pow2(1) == 2 && Pow2(2) == 4 && Pow2(3) == 8 && Pow2(4) == 16
    ensures Pow2(5) == 32 && Pow2(6) == 64 && Pow2(7) == 128 && Pow2(8) == 256
    ensures Pow2(9) == 512 && Pow2(10) == 1024 && Pow2(11) == 2048 && Pow2(12) == 4096
    ensures Pow2(13) == 8192 && Pow2(14) == 16384 && Pow2(15) == 32768 && Pow2(16) == 65536
    ensures Pow2(17) == 0x2_0000 && Pow2(18) == 0x4_0000 && Pow2(19) == 0x8_0000 && Pow2(20) == 0x10_0000
    ensures Pow2(21) == 0x20_0000 && Pow2(22) == 0x40_0000 && Pow2(23) == 0x80_0000 && Pow2(24) == 0x100_0000
  {
    assert Pow2(8) == 256;
    assert Pow2(16) == 65536 by {
      assert Pow2(9) == 512; assert Pow2(10) == 1024; assert Pow2(11) == 2048; assert Pow2(12) == 4096;
      assert Pow2(13) == 8192; assert Pow2(14) == 16384; assert Pow2(15) == 32768;
    }
    assert Pow2(24) == 0x100_0000 by {
      assert Pow2(17) == 0x2_0000; assert Pow2(18) == 0x4_0000; assert Pow2(19) == 0x8_0000; assert Pow2(20) == 0x10_0000;
      assert Pow2(21) == 0x20_0000; assert Pow2(22) == 0x40_0000; assert Pow2(23) == 0x80_0000;
    }
  }

  /** The word sizes. */
  lemma Pow2Word()
    ensures Pow2(31) == TWO31 && Pow2(32) == TWO32
  {
    Pow2Values();
    assert Pow2(32) == TWO32 by {
      assert Pow2(25) == 0x200_0000; assert Pow2(26) == 0x400_0000; assert Pow2(27) == 0x800_0000;
      assert Pow2(28) == 0x1000_0000; assert Pow2(29) == 0x2000_0000; assert Pow2(30) == 0x4000_0000;
      assert Pow2(31) == TWO31;
    }
  }

  lemma {:induction false} Pow2Add(a: nat, b: nat)
    ensures Pow2(a + b) == Pow2(a) * Pow2(b)
  {
    if b > 0 {
      Pow2Add(a, b - 1);
      assert Pow2(a + b) == 2 * Pow2(a + b - 1);
    }
  }

  // ---------------------------------------------------------------------
  // Division facts the solver does not find on its own

  lemma MulAtLeast(d: int, c: int)
    requires d > 0 && c >= 1
    ensures d * c >= d
  {
    assert d * c == d * (c - 1) + d;
    assert d * (c - 1) >= 0;
  }

  lemma MulStrictMono(d: int, a: int, b: int)
    requires d > 0 && a < b
    ensures d * a < d * b
  {
    assert d * b - d * a == d * (b - a);
    assert d * (b - a) >= d by { MulAtLeast(d, b - a); }
  }

  /** Euclidean division is determined by its defining equation. */
  lemma DivBounds(c: int, p: int)
    requires c >= 0 && p >= 1
    ensures 0 <= c / p <= c
  {
    var q := c / p;
    assert c == p * q + c % p;
    if q < 0 {
      assert q * p <= -1 * p by { MulMono(q, -1, p); }
    }
    if q > c {
      assert p * q >= q by { MulAtLeast(q, p); }
    }
  }

  lemma MulMono(a: int, b: int, p: int)
    requires a <= b && p >= 0
    ensures a * p <= b * p
  {
  }

  lemma DivModUnique(a: int, d: int, q: int, r: int)
    requires d > 0 && a == d * q + r && 0 <= r < d
    ensures a / d == q && a % d == r
  {
    var q0 := a / d;
    var r0 := a % d;
    assert a == d * q0 + r0;
    if q0 < q {
      MulStrictMono(d, q0, q);
      assert d * (q0 + 1) <= d * q by {
        if q0 + 1 < q { MulStrictMono(d, q0 + 1, q); }
      }
      assert false;
    } else if q < q0 {
      assert d * (q + 1) <= d * q0 by {
        if q + 1 < q0 { MulStrictMono(d, q + 1, q0); }
      }
      assert false;
    }
  }

  /** Reads a value written as `lo + m * hi` back into its two fields. */
  lemma Split(x: int, m: int, lo: int, hi: int)
    requires m > 0 && 0 <= lo < m && x == lo + m * hi
    ensures x % m == lo && x / m == hi
  {
    DivModUnique(x, m, hi, lo);
  }

  lemma MultipleMod(m: int, q: int)
    requires m > 0
    ensures (m * q) % m == 0
  {
    DivModUnique(m * q, m, q, 0);
  }

  /** Reducing modulo a multiple of m first does not change the residue modulo m. */
  lemma ModOfMod(x: int, m: int, c: int)
    requires m > 0 && c > 0
    ensures (x % (m * c)) % m == x % m
  {
    var u := x % (m * c);
    var w := x / (m * c);
    assert x == (m * c) * w + u;
    var v := u % m;
    var z := u / m;
    assert u == m * z + v;
    assert x == m * (c * w + z) + v;
    DivModUnique(x, m, c * w + z, v);
  }

  lemma ModDouble(x: int, m: int)
    requires m >= 1
    ensures x % (2 * m) == 2 * ((x / 2) % m) + x % 2
  {
    var h := x / 2;
    var q := h / m;
    var r := h % m;
    assert x == 2 * h + x % 2;
    assert h == m * q + r;
    assert x == (2 * m) * q + (2 * r + x % 2);
    DivModUnique(x, 2 * m, q, 2 * r + x % 2);
  }

  lemma HalfOfMultiple(y: int, m: int)
    requires m >= 1 && y % (2 * m) == 0
    ensures y % 2 == 0 && (y / 2) % m == 0
  {
    var q := y / (2 * m);
    assert y == (2 * m) * q;
    assert y == 2 * (m * q);
    DivModUnique(y, 2, m * q, 0);
    MultipleMod(m, q);
  }

  // ---------------------------------------------------------------------
  // Integer conversions

  predicate IsInt32(x: int) {
    -TWO31 <= x < TWO31
  }

  predicate IsInt64(x: int) {
    -TWO63 <= x < TWO63
  }

  /** ECMAScript ToUint32: the residue modulo 2^32. */
  function ToUint32(x: int): (r: int)
    ensures 0 <= r < TWO32
    ensures (x - r) % TWO32 == 0
    ensures 0 <= x < TWO32 ==> r == x
  {
    MultipleMod(TWO32, x / TWO32);
    x % TWO32
  }

  /** ECMAScript ToInt32 (what `x | 0` computes): the residue modulo 2^32
      taken in the signed range. */
  function ToInt32(x: int): (r: int)
    ensures IsInt32(r)
    ensures (x - r) % TWO32 == 0
    ensures IsInt32(x) ==> r == x
  {
    var u := x % TWO32;
    MultipleMod(TWO32, x / TWO32);
    MultipleMod(TWO32, x / TWO32 + 1);
    if u >= TWO31 then u - TWO32 else u
  }

  /** Two's complement wrap-around of the 64-bit `Long` class. */
  function ToInt64(x: int): (r: int)
    ensures IsInt64(r)
    ensures (x - r) % TWO64 == 0
    ensures IsInt64(x) ==> r == x
  {
    var u := x % TWO64;
    MultipleMod(TWO64, x / TWO64);
    MultipleMod(TWO64, x / TWO64 + 1);
    if u >= TWO63 then u - TWO64 else u
  }

  /** Storing an integer into a Uint8Array element keeps its low eight bits. */
  function ToByte(x: int): (r: Byte)
    ensures (x - r) % 256 == 0
    ensures 0 <= x < 256 ==> r == x
  {
    MultipleMod(256, x / 256);
    x % 256
  }

  /** Reading a Uint8Array element: an index outside the array reads
      `undefined`, which every bitwise operator treats as 0. */
  function ByteAt(buf: seq<Byte>, i: int): (r: Byte)
    ensures 0 <= i < |buf| ==> r == buf[i]
    ensures !(0 <= i < |buf|) ==> r == 0
  {
    if 0 <= i < |buf| then buf[i] else 0
  }

  /** JavaScript `a % m` for a positive modulus: the remainder of the
      division truncated toward zero, so it takes the sign of `a`. */
  function Rem(a: int, m: int): (r: int)
    requires m > 0
    ensures (a - r) % m == 0
    ensures -m < r < m
    ensures a >= 0 ==> 0 <= r
    ensures a <= 0 ==> r <= 0
  {
    RemFacts(a, m);
    if a >= 0 then a % m else -((-a) % m)
  }

  lemma RemFacts(a: int, m: int)
    requires m > 0
    ensures a >= 0 ==> (a - a % m) % m == 0
    ensures a < 0 ==> (a + (-a) % m) % m == 0
  {
    if a >= 0 {
      var q := a / m;
      assert a - a % m == m * q;
      MultipleMod(m, q);
    } else {
      var b := -a;
      var q := b / m;
      assert b == m * q + b % m;
      assert a + b % m == m * (-q);
      MultipleMod(m, -q);
    }
  }

  // ---------------------------------------------------------------------
  // Bitwise operators on 32-bit values

  /** Bitwise or of the low n bits of two naturals. */
  function OrBits(x: nat, y: nat, n: nat): nat
  {
    if n == 0 then 0
    else 2 * OrBits(x / 2, y / 2, n - 1) + (if x % 2 == 1 || y % 2 == 1 then 1 else 0)
  }

  /** Bitwise and of the low n bits of two naturals. */
  function AndBits(x: nat, y: nat, n: nat): nat
  {
    if n == 0 then 0
    else 2 * AndBits(x / 2, y / 2, n - 1) + (if x % 2 == 1 && y % 2 == 1 then 1 else 0)
  }

  /** Bitwise exclusive or of the low n bits of two naturals. */
  function XorBits(x: nat, y: nat, n: nat): nat
  {
    if n == 0 then 0
    else 2 * XorBits(x / 2, y / 2, n - 1) + (if x % 2 != y % 2 then 1 else 0)
  }

  /** JavaScript `x | y`. */
  function Or(x: int, y: int): int {
    ToInt32(OrBits(ToUint32(x), ToUint32(y), 32))
  }

  /** JavaScript `x & y`. */
  function And(x: int, y: int): int {
    ToInt32(AndBits(ToUint32(x), ToUint32(y), 32))
  }

  /** JavaScript `x ^ y`. */
  function Xor(x: int, y: int): int {
    ToInt32(XorBits(ToUint32(x), ToUint32(y), 32))
  }

  /** JavaScript `x << n` for a shift count below 32. */
  function Shl(x: int, n: nat): int
    requires n < 32
  {
    ToInt32(ToInt32(x) * Pow2(n))
  }

  /** JavaScript `x >> n` (arithmetic shift, rounds toward minus infinity). */
  function Sar(x: int, n: nat): int
    requires n < 32
  {
    ToInt32(x) / Pow2(n)
  }

  /** JavaScript `x >>> n` (logical shift of the unsigned value). */
  function Ushr(x: int, n: nat): int
    requires n < 32
  {
    ToUint32(x) / Pow2(n)
  }

  // ---------------------------------------------------------------------
  // Bit-level lemmas

  lemma {:induction false} OrBitsZero(y: nat, n: nat)
    requires y < Pow2(n)
    ensures OrBits(0, y, n) == y
  {
    if n > 0 {
      OrBitsZero(y / 2, n - 1);
    }
  }

  lemma {:induction false} OrBitsDisjoint(x: nat, y: nat, k: nat, n: nat)
    requires k <= n && x < Pow2(k) && y < Pow2(n) && y % Pow2(k) == 0
    ensures OrBits(x, y, n) == x + y
  {
    if k == 0 {
      OrBitsZero(y, n);
    } else {
      var m := Pow2(k - 1);
      HalfOfMultiple(y, m);
      OrBitsDisjoint(x / 2, y / 2, k - 1, n - 1);
      assert OrBits(x, y, n) == 2 * (x / 2 + y / 2) + x % 2;
    }
  }

  /** `x | y` is `x + y` when x lives in the low k bits and y is a
      non-negative 31-bit multiple of 2^k. */
  lemma OrDisjoint(x: int, y: int, k: nat)
    requires k <= 31 && 0 <= x < Pow2(k) && 0 <= y < TWO31 && y % Pow2(k) == 0
    ensures Or(x, y) == x + y
  {
    Pow2Word();
    Pow2Add(k, 31 - k);
    MultipleBelow(y, Pow2(k), Pow2(31 - k));
    OrBitsDisjoint(x, y, k, 32);
  }

  /** A multiple of p below p * r leaves room for one more p. */
  lemma MultipleBelow(y: int, p: int, r: int)
    requires p > 0 && 0 <= y < p * r && y % p == 0
    ensures y + p <= p * r
  {
    var q := y / p;
    assert y == p * q;
    if q >= r {
      if q > r { MulStrictMono(p, r, q); }
      assert false;
    }
    if q + 1 < r { MulStrictMono(p, q + 1, r); }
  }

  lemma {:induction false} AndBitsZero(x: nat, n: nat)
    ensures AndBits(x, 0, n) == 0
  {
    if n > 0 { AndBitsZero(x / 2, n - 1); }
  }

  lemma {:induction false} AndBitsLow(x: nat, k: nat, n: nat)
    requires k <= n
    ensures AndBits(x, Pow2(k) - 1, n) == x % Pow2(k)
  {
    if k == 0 {
      AndBitsZero(x, n);
    } else {
      var m := Pow2(k - 1);
      assert (Pow2(k) - 1) / 2 == m - 1 && (Pow2(k) - 1) % 2 == 1;
      AndBitsLow(x / 2, k - 1, n - 1);
      ModDouble(x, m);
    }
  }

  /** `x & (2^k - 1)` keeps the low k bits: the Euclidean residue, also for
      negative x. */
  lemma AndMask(x: int, k: nat)
    requires k <= 31
    ensures And(x, Pow2(k) - 1) == x % Pow2(k)
  {
    var p := Pow2(k);
    MaskBelowWord(k);
    assert ToUint32(p - 1) == p - 1;
    AndBitsLow(ToUint32(x), k, 32);
    UintResidue(x, k);
  }

  lemma MaskBelowWord(k: nat)
    requires k <= 31
    ensures 1 <= Pow2(k) <= TWO31
  {
    Pow2Word();
    Pow2Add(k, 31 - k);
    MulAtLeast(Pow2(k), Pow2(31 - k));
  }

  lemma UintResidue(x: int, k: nat)
    requires k <= 32
    ensures ToUint32(x) % Pow2(k) == x % Pow2(k)
  {
    Pow2Word();
    Pow2Add(k, 32 - k);
    ModOfMod(x, Pow2(k), Pow2(32 - k));
  }

  lemma {:induction false} AndBitsZeroLeft(y: nat, n: nat)
    ensures AndBits(0, y, n) == 0
  {
    if n > 0 { AndBitsZeroLeft(y / 2, n - 1); }
  }

  lemma {:induction false} AndBitsOnes(y: nat, n: nat)
    requires y < Pow2(n)
    ensures AndBits(Pow2(n) - 1, y, n) == y
  {
    if n > 0 {
      assert (Pow2(n) - 1) / 2 == Pow2(n - 1) - 1 && (Pow2(n) - 1) % 2 == 1;
      AndBitsOnes(y / 2, n - 1);
    }
  }

  /** Masking with the all-zero word. */
  lemma AndZero(y: int)
    ensures And(0, y) == 0
  {
    AndBitsZeroLeft(ToUint32(y), 32);
  }

  lemma ToInt32OfUint32(y: int)
    ensures ToInt32(ToUint32(y)) == ToInt32(y)
  {
    var u := ToUint32(y);
    assert (y - u) % TWO32 == 0;
    var a := (y - u) / TWO32;
    assert y - u == TWO32 * a;
    assert y % TWO32 == u by { DivModUnique(y, TWO32, a, u); }
  }

  /** Masking with the all-one word (`-1`). */
  lemma AndAllOnes(y: int)
    ensures And(-1, y) == ToInt32(y)
  {
    Pow2Word();
    assert ToUint32(-1) == TWO32 - 1;
    AndBitsOnes(ToUint32(y), 32);
    ToInt32OfUint32(y);
  }

  /** `x >> 31` is the sign word: -1 for a negative 32-bit value, else 0. */
  lemma SarSign(x: int)
    ensures Sar(x, 31) == (if ToInt32(x) < 0 then -1 else 0)
  {
    Pow2Word();
  }

  lemma {:induction false} XorBitsZero(x: nat, n: nat)
    requires x < Pow2(n)
    ensures XorBits(x, 0, n) == x
  {
    if n > 0 { XorBitsZero(x / 2, n - 1); }
  }

  lemma {:induction false} XorBitsSelf(x: nat, n: nat)
    ensures XorBits(x, x, n) == 0
  {
    if n > 0 { XorBitsSelf(x / 2, n - 1); }
  }

  lemma XorZero(x: int)
    ensures Xor(x, 0) == ToInt32(x)
  {
    Pow2Word();
    XorBitsZero(ToUint32(x), 32);
    ToInt32OfUint32(x);
  }

  lemma XorSelf(x: int)
    ensures Xor(x, x) == 0
  {
    XorBitsSelf(ToUint32(x), 32);
  }

  /** `x << n` multiplies when the product stays a non-negative 31-bit value. */
  lemma ShlExact(x: int, n: nat)
    requires n < 32 && 0 <= x && x * Pow2(n) < TWO31
    ensures Shl(x, n) == x * Pow2(n)
  {
    assert x <= x * Pow2(n) by { if x > 0 { MulAtLeast(x, Pow2(n)); } }
  }

  /** `x >> n` and `x >>> n` divide a non-negative 31-bit value. */
  lemma ShrExact(x: int, n: nat)
    requires n < 32 && 0 <= x < TWO31
    ensures Sar(x, n) == x / Pow2(n) && Ushr(x, n) == x / Pow2(n)
  {
  }

  /** `b & 0xFF` leaves a byte unchanged. */
  lemma ByteMask(b: int)
    requires 0 <= b < 256
    ensures And(b, 0xFF) == b
  {
    assert Pow2(8) - 1 == 0xFF;
    AndMask(b, 8);
    DivModUnique(b, 256, 0, b);
  }
}
