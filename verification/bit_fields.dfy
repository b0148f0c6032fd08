/** The shift-and-mask identities behind the coefficient packers of
    src/poly.ts. Each lemma turns one JavaScript bit expression over
    non-negative fields into plain arithmetic: an OR of fields that occupy
    disjoint bit ranges is their sum, a mask is a remainder and a shift is
    a product or a quotient. The powers of two come in as parameters
    (`p == Pow2(k)`) so that a caller with literal shift counts gets facts
    about literal numbers. */
module BitFields {
  import opened JsNumber

  /** `b & 0xFF` on an element read from a typed array. The mask never
      changes a byte (`ReadMask`), so the read is the byte itself. */
  function Rd(b: Byte): int {
    b
  }

  lemma ReadMask(b: Byte)
    ensures Rd(b) == And(b, 0xFF)
  {
    ByteMask(b);
  }

  /** `buf[i] |= v` on a typed array: the OR of the stored byte and v, stored. */
  function OrStore(stored: Byte, v: int): Byte {
    ToByte(Or(stored, v))
  }

  // ---------------------------------------------------------------------
  // Shifts and masks of one value

  /** `x >> k` and `x >>> k` on a non-negative 32-bit value. */
  lemma Shr(x: int, k: nat, p: int)
    requires 0 <= x < TWO31 && k < 32 && p == Pow2(k)
    ensures Sar(x, k) == x / p && Ushr(x, k) == x / p
    ensures 0 <= x / p <= x
  {
    ShrExact(x, k);
    DivBounds(x, p);
  }

  /** `x >> 0` on a non-negative 32-bit value. */
  lemma ShrZero(x: int)
    requires 0 <= x < TWO31
    ensures Sar(x, 0) == x && Ushr(x, 0) == x
  {
    Shr(x, 0, 1);
    DivModUnique(x, 1, x, 0);
  }

  /** `x & (m - 1)` for m = 2^k. */
  lemma Mask(x: int, k: nat, m: int)
    requires k <= 31 && m == Pow2(k)
    ensures And(x, m - 1) == x % m
  {
    AndMask(x, k);
  }

  /** The quotient of b by p is below q when b is below p * q. */
  lemma DivBelow(b: int, p: int, q: int)
    requires p > 0 && q > 0 && 0 <= b < p * q
    ensures 0 <= b / p < q
  {
    DivBounds(b, p);
    var d := b / p;
    assert b == p * d + b % p;
    if d >= q {
      MulMono(q, d, p);
    }
  }

  /** `x & 0xFF` stored into a byte: the low byte of x. */
  lemma LowByteOf(x: int)
    ensures ToByte(And(x, 0xFF)) == x % 256
  {
    Mask(x, 8, 256);
  }

  /** `(c >> s) & 0xFF` stored into a byte: the byte of c at bit s. */
  lemma ByteAtBit(c: int, s: nat, p: int)
    requires 0 <= c < TWO31 && s < 32 && p == Pow2(s)
    ensures ToByte(And(Ushr(c, s), 0xFF)) == (c / p) % 256
    ensures ToByte(And(Sar(c, s), 0xFF)) == (c / p) % 256
  {
    Shr(c, s, p);
    Mask(c / p, 8, 256);
  }

  /** `(c >> s) & 0xFF` for a value with nothing above bit s + 8. */
  lemma TopByte(c: int, s: nat, p: int)
    requires 0 <= c < TWO31 && s < 32 && p == Pow2(s) && c < 256 * p
    ensures ToByte(And(Ushr(c, s), 0xFF)) == c / p
    ensures ToByte(And(Sar(c, s), 0xFF)) == c / p
  {
    ByteAtBit(c, s, p);
    DivBelow(c, p, 256);
    DivModUnique(c / p, 256, 0, c / p);
  }

  /** A byte shifted right by s fits in the 8 - s bits left. */
  lemma ByteTail(b: Byte, s: nat, s2: nat, p: int, q: int)
    requires s + s2 == 8 && p == Pow2(s) && q == Pow2(s2)
    ensures Sar(Rd(b), s) == b / p && 0 <= b / p < q
  {
    SplitByte(s, s2, p, q);
    Shr(b, s, p);
    DivBelow(b, p, q);
  }

  // ---------------------------------------------------------------------
  // Disjoint fields

  /** 2^k * 2^(8-k) is the range of a byte. */
  lemma SplitByte(k: nat, k2: nat, p: int, q: int)
    requires k + k2 == 8 && p == Pow2(k) && q == Pow2(k2)
    ensures p * q == 256
  {
    Pow2Add(k, k2);
    assert Pow2(8) == 256;
  }

  /** The field above a byte starts 256 times higher. */
  lemma NextByte(k: nat, k8: nat, q: int, r: int)
    requires k + 8 == k8 && q == Pow2(k) && r == Pow2(k8)
    ensures r == 256 * q
  {
    Pow2Add(k, 8);
    assert Pow2(8) == 256;
  }

  /** x | (y << k) where x fits below bit k: the fields do not overlap. */
  lemma OrShl(x: int, y: int, k: nat, p: int)
    requires k <= 30 && p == Pow2(k) && 0 <= x < p && 0 <= y && y * p < TWO31
    ensures Or(x, Shl(y, k)) == x + y * p
  {
    assert 0 <= y * p by { MulMono(0, y, p); }
    ShlExact(y, k);
    MultipleMod(p, y);
    assert p * y == y * p;
    OrDisjoint(x, y * p, k);
  }

  /** A byte ORed in at bit k <= 16 above a field that fits below bit k. */
  lemma OrByteAt(x: int, b: Byte, k: nat, r: int)
    requires k <= 16 && r == Pow2(k) && 0 <= x < r
    ensures Or(x, Shl(Rd(b), k)) == x + b * r
    ensures 0 <= x + b * r < 256 * r
  {
    assert r <= 65536 by {
      Pow2Add(k, 16 - k);
      assert Pow2(16) == 65536 by { Pow2Values(); }
      MulAtLeast(r, Pow2(16 - k));
    }
    MulMono(b, 255, r);
    MulMono(0, b, r);
    OrShl(x, b, k, r);
  }

  /** The low byte of x + y * p keeps x and the low bits of y. */
  lemma JoinArith(x: int, y: int, p: int, q: int)
    requires p > 0 && q > 0 && p * q == 256 && 0 <= x < p && 0 <= y
    ensures (x + y * p) % 256 == x + (y % q) * p
    ensures 0 <= x + (y % q) * p < 256
    ensures ((y % q) * p) % p == 0
  {
    var lo, hi := y % q, y / q;
    assert y == lo + q * hi;
    assert y * p == lo * p + 256 * hi by {
      assert y * p == (lo + q * hi) * p;
    }
    assert lo * p <= (q - 1) * p by { MulMono(lo, q - 1, p); }
    MulMono(0, lo, p);
    Split(x + y * p, 256, x + lo * p, hi);
    MultipleMod(p, lo);
  }

  /** `(x | (y << k)) & 0xFF` stored into a byte. */
  lemma JoinByte(x: int, y: int, k: nat, k2: nat, p: int, q: int)
    requires 1 <= k <= 7 && k + k2 == 8 && p == Pow2(k) && q == Pow2(k2)
    requires 0 <= x < p && 0 <= y && y * p < TWO31
    ensures ToByte(And(Or(x, Shl(y, k)), 0xFF)) == x + (y % q) * p
  {
    SplitByte(k, k2, p, q);
    OrShl(x, y, k, p);
    Mask(x + y * p, 8, 256);
    JoinArith(x, y, p, q);
  }

  /** `(x | (y << k)) & 0xFF` where both fields fit in the byte. */
  lemma JoinSmall(x: int, y: int, k: nat, k2: nat, p: int, q: int)
    requires 1 <= k <= 7 && k + k2 == 8 && p == Pow2(k) && q == Pow2(k2)
    requires 0 <= x < p && 0 <= y < q
    ensures ToByte(And(Or(x, Shl(y, k)), 0xFF)) == x + y * p
  {
    SplitByte(k, k2, p, q);
    MulMono(y, q, p);
    JoinByte(x, y, k, k2, p, q);
    DivModUnique(y, q, 0, y);
  }

  /** `(y << k) & 0xFF`: the low bits of y moved up by k. */
  lemma ShlByte(y: int, k: nat, k2: nat, p: int, q: int)
    requires 1 <= k <= 7 && k + k2 == 8 && p == Pow2(k) && q == Pow2(k2)
    requires 0 <= y && y * p < TWO31
    ensures And(Shl(y, k), 0xFF) == (y % q) * p
    ensures 0 <= (y % q) * p < 256 && ((y % q) * p) % p == 0
  {
    SplitByte(k, k2, p, q);
    ShlExact(y, k);
    Mask(y * p, 8, 256);
    JoinArith(0, y, p, q);
  }

  /** `buf[i] |= v` where the stored byte fits below bit k and v is a byte
      whose low k bits are clear. */
  lemma OrStoreAbove(x: Byte, v: int, k: nat, p: int)
    requires k <= 8 && p == Pow2(k) && x < p && 0 <= v && x + v < 256 && v % p == 0
    ensures OrStore(x, v) == x + v
  {
    OrDisjoint(x, v, k);
  }

  /** `buf[i] |= (y << k) & 0xFF` where the stored byte fits below bit k. */
  lemma OrStoreShl(x: Byte, y: int, k: nat, k2: nat, p: int, q: int)
    requires 1 <= k <= 7 && k + k2 == 8 && p == Pow2(k) && q == Pow2(k2)
    requires x < p && 0 <= y && y * p < TWO31
    ensures OrStore(x, And(Shl(y, k), 0xFF)) == x + (y % q) * p
  {
    ShlByte(y, k, k2, p, q);
    SplitByte(k, k2, p, q);
    JoinArith(x, y, p, q);
    OrStoreAbove(x, (y % q) * p, k, p);
  }

  // ---------------------------------------------------------------------
  // Coefficient fields read back from consecutive bytes

  /** `(x | (b1 << k)) & (m - 1)` where x fits below bit k. */
  lemma Field2(x: int, b1: Byte, k: nat, q: int, w: nat, m: int)
    requires k <= 16 && q == Pow2(k) && 0 <= x < q && w <= 24 && m == Pow2(w)
    ensures And(Or(x, Shl(Rd(b1), k)), m - 1) == (x + b1 * q) % m
  {
    OrByteAt(x, b1, k, q);
    Mask(x + b1 * q, w, m);
  }

  /** `x | (b1 << k) | (b2 << (k + 8))` where x fits below bit k. */
  lemma OrBytesAt(x: int, b1: Byte, b2: Byte, k: nat, k8: nat, q: int, r: int)
    requires k <= 8 && k + 8 == k8 && q == Pow2(k) && r == Pow2(k8) && 0 <= x < q
    ensures Or(Or(x, Shl(Rd(b1), k)), Shl(Rd(b2), k8)) == x + b1 * q + b2 * r
    ensures 0 <= x + b1 * q + b2 * r < 256 * r
  {
    OrByteAt(x, b1, k, q);
    NextByte(k, k8, q, r);
    OrByteAt(x + b1 * q, b2, k8, r);
  }

  /** `(x | (b1 << k) | (b2 << (k + 8))) & (m - 1)` where x fits below bit k. */
  lemma Field3(x: int, b1: Byte, b2: Byte, k: nat, k8: nat, q: int, r: int, w: nat, m: int)
    requires k <= 8 && k + 8 == k8 && q == Pow2(k) && r == Pow2(k8) && 0 <= x < q
    requires w <= 24 && m == Pow2(w)
    ensures And(Or(Or(x, Shl(Rd(b1), k)), Shl(Rd(b2), k8)), m - 1) == (x + b1 * q + b2 * r) % m
  {
    OrBytesAt(x, b1, b2, k, k8, q, r);
    Mask(x + b1 * q + b2 * r, w, m);
  }

  /** `(b >> s) & (m - 1)` on a byte read from a typed array. */
  lemma ReadBits(b: Byte, s: nat, p: int, w: nat, m: int)
    requires s < 8 && p == Pow2(s) && w <= 8 && m == Pow2(w)
    ensures And(Sar(Rd(b), s), m - 1) == (b / p) % m
  {
    Shr(b, s, p);
    Mask(b / p, w, m);
  }

  /** `((b0 >> s) | (b1 << k)) & (m - 1)` on two bytes read from a typed
      array, where the k = 8 - s bits of b0 above bit s come first. */
  lemma ReadField2(b0: Byte, b1: Byte, s: nat, k: nat, p: int, q: int, w: nat, m: int)
    requires s + k == 8 && p == Pow2(s) && q == Pow2(k) && w <= 24 && m == Pow2(w)
    ensures And(Or(Sar(Rd(b0), s), Shl(Rd(b1), k)), m - 1) == (b0 / p + b1 * q) % m
  {
    ByteTail(b0, s, k, p, q);
    Field2(b0 / p, b1, k, q, w, m);
  }

  /** The constants of a field read from three bytes: shift s into the
      first, k = 8 - s bits taken from it, the third byte at bit k8 = k + 8,
      width w and modulus m = 2^w. */
  predicate Read3Shape(s: nat, k: nat, k8: nat, p: int, q: int, r: int, w: nat, m: int) {
    s + k == 8 && k + 8 == k8 && p == Pow2(s) && q == Pow2(k) && r == Pow2(k8) && w <= 24 && m == Pow2(w)
  }

  /** `((b0 >> s) | (b1 << k) | (b2 << (k + 8))) & (m - 1)` on three bytes
      read from a typed array, where k = 8 - s. */
  lemma ReadField3(b0: Byte, b1: Byte, b2: Byte, s: nat, k: nat, k8: nat, p: int, q: int, r: int, w: nat, m: int)
    requires Read3Shape(s, k, k8, p, q, r, w, m)
    ensures And(Or(Or(Sar(Rd(b0), s), Shl(Rd(b1), k)), Shl(Rd(b2), k8)), m - 1) == (b0 / p + b1 * q + b2 * r) % m
  {
    ByteTail(b0, s, k, p, q);
    Field3(b0 / p, b1, b2, k, k8, q, r, w, m);
  }

  /** The field of width log2(w) at bit log2(p) of lo + f * p + hi * p * w. */
  lemma FieldAt(v: int, lo: int, f: int, hi: int, p: int, w: int)
    requires p > 0 && w > 0 && 0 <= lo < p && 0 <= f < w && v == lo + f * p + hi * (p * w)
    ensures (v / p) % w == f
  {
    assert v == p * (f + w * hi) + lo by {
      assert hi * (p * w) == p * (w * hi);
    }
    DivModUnique(v, p, f + w * hi, lo);
    DivModUnique(f + w * hi, w, hi, f);
  }

  /** A value spread over three bytes: its low log2(q) bits at the top of
      `lo` (above `prev`), its next eight bits in `mid`, and its high bits at
      the bottom of `hi` (below `next`); read back as
      `lo / p + mid * q + hi * r` with r = 256 * q. */
  lemma FieldBack3(c: int, prev: int, next: int, lo: int, mid: int, hi: int, p: int, q: int, r: int, m: int)
    requires p > 0 && q > 0 && r == q * 256 && m > 0 && m % r == 0 && 0 <= prev < p && 0 <= c < m && next >= 0
    requires lo == prev + (c % q) * p && mid == (c / q) % 256 && hi == c / r + next * (m / r)
    ensures (lo / p + mid * q + hi * r) % m == c
  {
    DivModUnique(lo, p, c % q, prev);
    Digits3(c, q, r);
    var rest := c % q + q * ((c / q) % 256);
    DivModUnique(c, r, (c / q) / 256, rest);
    var k := m / r;
    assert m == r * k;
    assert hi * r == r * (c / r) + m * next by {
      assert hi * r == (c / r) * r + (next * k) * r;
    }
    Split(lo / p + mid * q + hi * r, m, c, next);
  }

  /** c written as a digit below q, a byte-sized digit and the rest above
      r = 256 * q. */
  lemma Digits3(c: int, q: int, r: int)
    requires q > 0 && r == q * 256 && c >= 0
    ensures c == c % q + q * ((c / q) % 256) + r * ((c / q) / 256)
    ensures 0 <= c % q + q * ((c / q) % 256) < r
  {
    var a := c / q;
    assert c == c % q + q * a;
    assert a == a % 256 + 256 * (a / 256);
    assert q * a == q * (a % 256) + q * (256 * (a / 256));
    assert q * (256 * (a / 256)) == r * (a / 256);
    MulMono(a % 256, 255, q);
    MulMono(0, a % 256, q);
  }

  /** A value split after its low log2(q) bits into the top of one byte
      (below which sits `prev`, of log2(p) bits) and the bottom of the next
      (which continues with `next`), read back as `lo / p + hi * q` and
      reduced to its width log2(m). */
  lemma FieldBack(c: int, prev: int, next: int, lo: int, hi: int, p: int, q: int, m: int)
    requires p > 0 && q > 0 && m > 0 && 0 <= prev < p && 0 <= c < m
    requires lo == prev + (c % q) * p && hi == c / q + next * (m / q)
    requires m % q == 0 && next >= 0
    ensures (lo / p + hi * q) % m == c
  {
    DivModUnique(lo, p, c % q, prev);
    assert c == c % q + q * (c / q);
    var k := m / q;
    assert m == q * k;
    assert q * hi == q * (c / q) + m * next by {
      assert q * hi == q * (c / q) + q * (k * next);
    }
    Split(lo / p + q * hi, m, c, next);
  }
}
