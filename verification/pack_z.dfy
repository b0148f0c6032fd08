/** The z codec of src/poly.ts (`zpack`, `zunpack`): every coefficient c of
    a masking or signature vector is stored as the offset gamma1 - c, in
    18 bits (four coefficients in 9 bytes) when gamma1 = 2^17 and in 20
    bits (two coefficients in 5 bytes) when gamma1 = 2^19.

    The packer computes on BigInt values. A BigInt `x & 0xFF` keeps the
    low eight bits of the infinite two's-complement form, which is x mod
    256 for every x, and `x >> k` is the floor of x / 2^k; these are
    Dafny's `%` and `/` with a positive divisor. */
module PackZ {
  import opened JsNumber
  import opened BitFields
  import opened Blocks
  import opened Outcomes
  import opened Params
  import opened Polynomial

  /** Bytes of a packed z polynomial for a supported gamma1. */
  function ZPackedBytes(gamma1: int): int {
    if gamma1 == GAMMA1_17 then 576 else 640
  }

  /** A byte whose low bits are the top bits lo of one offset and whose
      high bits are the low bits of the next offset y: the packer's
      `sign[i] |= Number(...)`. */
  lemma Shared(lo: int, y: int, k: nat, k2: nat, p: int, q: int)
    requires 1 <= k <= 7 && k + k2 == 8 && p == Pow2(k) && q == Pow2(k2)
    requires 0 <= lo < p && 0 <= y
    ensures OrStore(lo % 256, (y * p) % 256) == lo + (y % q) * p
  {
    SplitByte(k, k2, p, q);
    MulMono(1, q, p);
    DivModUnique(lo, 256, 0, lo);
    JoinArith(0, y, p, q);
    OrStoreAbove(lo, (y % q) * p, k, p);
  }

  // ---------------------------------------------------------------------
  // gamma1 = 2^17: four 18-bit offsets in nine bytes

  /** `(BigInt(gamma1) - BigInt(c)) & BigInt(0xFFFFFFFF)`. */
  function Z17Offsets(c: seq<int>): (t: seq<int>)
    ensures |t| == |c|
  {
    seq(|c|, k requires 0 <= k < |c| => (GAMMA1_17 - c[k]) % TWO32)
  }

  function Z17Byte0(t: seq<int>): Byte requires |t| == 4 { t[0] % 256 }
  function Z17Byte1(t: seq<int>): Byte requires |t| == 4 { (t[0] / 0x100) % 256 }
  function Z17Byte2(t: seq<int>): Byte requires |t| == 4 { OrStore((t[0] / 0x1_0000) % 256, (t[1] * 4) % 256) }
  function Z17Byte3(t: seq<int>): Byte requires |t| == 4 { (t[1] / 64) % 256 }
  function Z17Byte4(t: seq<int>): Byte requires |t| == 4 { OrStore((t[1] / 0x4000) % 256, (t[2] * 16) % 256) }
  function Z17Byte5(t: seq<int>): Byte requires |t| == 4 { (t[2] / 16) % 256 }
  function Z17Byte6(t: seq<int>): Byte requires |t| == 4 { OrStore((t[2] / 0x1000) % 256, (t[3] * 64) % 256) }
  function Z17Byte7(t: seq<int>): Byte requires |t| == 4 { (t[3] / 4) % 256 }
  function Z17Byte8(t: seq<int>): Byte requires |t| == 4 { (t[3] / 0x400) % 256 }

  /** The nine bytes `zpack` writes for one group when gamma1 = 2^17. */
  function Z17Group(c: seq<int>): (r: seq<Byte>)
    requires |c| == 4
    ensures |r| == 9
  {
    var t := Z17Offsets(c);
    [Z17Byte0(t), Z17Byte1(t), Z17Byte2(t), Z17Byte3(t), Z17Byte4(t),
     Z17Byte5(t), Z17Byte6(t), Z17Byte7(t), Z17Byte8(t)]
  }

  function Z17Field0(b: seq<Byte>): int requires |b| == 9 {
    And(Or(Or(Rd(b[0]), Shl(Rd(b[1]), 8)), Shl(Rd(b[2]), 16)), 0x3FFFF)
  }

  function Z17Field1(b: seq<Byte>): int requires |b| == 9 {
    And(Or(Or(Sar(Rd(b[2]), 2), Shl(Rd(b[3]), 6)), Shl(Rd(b[4]), 14)), 0x3FFFF)
  }

  function Z17Field2(b: seq<Byte>): int requires |b| == 9 {
    And(Or(Or(Sar(Rd(b[4]), 4), Shl(Rd(b[5]), 4)), Shl(Rd(b[6]), 12)), 0x3FFFF)
  }

  function Z17Field3(b: seq<Byte>): int requires |b| == 9 {
    And(Or(Or(Sar(Rd(b[6]), 6), Shl(Rd(b[7]), 2)), Shl(Rd(b[8]), 10)), 0x3FFFF)
  }

  /** `Polynomium.zunpack` on one nine-byte group when gamma1 = 2^17. */
  function Z17Ungroup(b: seq<Byte>): (r: seq<int>)
    requires |b| == 9
    ensures |r| == 4
  {
    [GAMMA1_17 - Z17Field0(b), GAMMA1_17 - Z17Field1(b), GAMMA1_17 - Z17Field2(b), GAMMA1_17 - Z17Field3(b)]
  }

  /** The bytes `Z17Group` writes for 18-bit offsets. */
  predicate Z17Packed(t: seq<int>, b: seq<Byte>)
    requires |t| == 4 && |b| == 9
  {
    && b[0] == t[0] % 256
    && b[1] == (t[0] / 256) % 256
    && b[2] == t[0] / 65536 + (t[1] % 64) * 4
    && b[3] == (t[1] / 64) % 256
    && b[4] == t[1] / 16384 + (t[2] % 16) * 16
    && b[5] == (t[2] / 16) % 256
    && b[6] == t[2] / 4096 + (t[3] % 4) * 64
    && b[7] == (t[3] / 4) % 256
    && b[8] == t[3] / 1024
  }

  lemma Z17Bytes(t: seq<int>, b: seq<Byte>)
    requires |t| == 4 && Within(t, 0, 0x3FFFF) && |b| == 9
    requires b == [Z17Byte0(t), Z17Byte1(t), Z17Byte2(t), Z17Byte3(t), Z17Byte4(t),
                   Z17Byte5(t), Z17Byte6(t), Z17Byte7(t), Z17Byte8(t)]
    ensures Z17Packed(t, b)
  {
    assert b[2] == t[0] / 65536 + (t[1] % 64) * 4 by {
      DivBelow(t[0], 65536, 4);
      Shared(t[0] / 65536, t[1], 2, 6, 4, 64);
    }
    assert b[4] == t[1] / 16384 + (t[2] % 16) * 16 by {
      DivBelow(t[1], 16384, 16);
      Shared(t[1] / 16384, t[2], 4, 4, 16, 16);
    }
    assert b[6] == t[2] / 4096 + (t[3] % 4) * 64 by {
      DivBelow(t[2], 4096, 64);
      Shared(t[2] / 4096, t[3], 6, 2, 64, 4);
    }
    assert b[8] == t[3] / 1024 by {
      DivBelow(t[3], 1024, 256);
      DivModUnique(t[3] / 1024, 256, 0, t[3] / 1024);
    }
  }

  lemma Z17FieldValue0(b: seq<Byte>)
    requires |b| == 9
    ensures Z17Field0(b) == (b[0] + (b[1] as int) * 256 + (b[2] as int) * 65536) % 0x4_0000
  {
    Field3(Rd(b[0]), b[1], b[2], 8, 16, 256, 65536, 18, 0x4_0000);
  }

  lemma Z17FieldValue1(b: seq<Byte>)
    requires |b| == 9
    ensures Z17Field1(b) == (b[2] / 4 + (b[3] as int) * 64 + (b[4] as int) * 16384) % 0x4_0000
  {
    Z17FieldValue1Shape();
    ReadField3(b[2], b[3], b[4], 2, 6, 14, 4, 64, 16384, 18, 0x4_0000);
  }

  lemma Z17FieldValue1Shape()
    ensures Read3Shape(2, 6, 14, 4, 64, 16384, 18, 0x4_0000)
  {
  }

  lemma Z17FieldValue2(b: seq<Byte>)
    requires |b| == 9
    ensures Z17Field2(b) == (b[4] / 16 + (b[5] as int) * 16 + (b[6] as int) * 4096) % 0x4_0000
  {
    Z17FieldValue2Shape();
    ReadField3(b[4], b[5], b[6], 4, 4, 12, 16, 16, 4096, 18, 0x4_0000);
  }

  lemma Z17FieldValue2Shape()
    ensures Read3Shape(4, 4, 12, 16, 16, 4096, 18, 0x4_0000)
  {
  }

  lemma Z17FieldValue3(b: seq<Byte>)
    requires |b| == 9
    ensures Z17Field3(b) == (b[6] / 64 + (b[7] as int) * 4 + (b[8] as int) * 1024) % 0x4_0000
  {
    Z17FieldValue3Shape();
    ReadField3(b[6], b[7], b[8], 6, 2, 10, 64, 4, 1024, 18, 0x4_0000);
  }

  lemma Z17FieldValue3Shape()
    ensures Read3Shape(6, 2, 10, 64, 4, 1024, 18, 0x4_0000)
  {
  }

  /** Every decoded coefficient lies in (-gamma1, gamma1]. */
  lemma Z17Range(b: seq<Byte>)
    requires |b| == 9
    ensures Within(Z17Ungroup(b), 1 - GAMMA1_17, GAMMA1_17)
  {
    Z17FieldValue0(b);
    Z17FieldValue1(b);
    Z17FieldValue2(b);
    Z17FieldValue3(b);
  }

  lemma Z17Recover0(t: seq<int>, b: seq<Byte>)
    requires |t| == 4 && Within(t, 0, 0x3FFFF) && |b| == 9
    requires b[0] == t[0] % 256 && b[1] == (t[0] / 256) % 256 && b[2] == t[0] / 65536 + (t[1] % 64) * 4
    ensures Z17Field0(b) == t[0]
  {
    Z17FieldValue0(b);
    FieldBack3(t[0], 0, t[1] % 64, b[0], b[1], b[2], 1, 256, 65536, 0x4_0000);
  }

  lemma Z17Recover1(t: seq<int>, b: seq<Byte>)
    requires |t| == 4 && Within(t, 0, 0x3FFFF) && |b| == 9
    requires b[2] == t[0] / 65536 + (t[1] % 64) * 4 && b[3] == (t[1] / 64) % 256
    requires b[4] == t[1] / 16384 + (t[2] % 16) * 16
    ensures Z17Field1(b) == t[1]
  {
    Z17FieldValue1(b);
    DivBelow(t[0], 65536, 4);
    FieldBack3(t[1], t[0] / 65536, t[2] % 16, b[2], b[3], b[4], 4, 64, 16384, 0x4_0000);
  }

  lemma Z17Recover2(t: seq<int>, b: seq<Byte>)
    requires |t| == 4 && Within(t, 0, 0x3FFFF) && |b| == 9
    requires b[4] == t[1] / 16384 + (t[2] % 16) * 16 && b[5] == (t[2] / 16) % 256
    requires b[6] == t[2] / 4096 + (t[3] % 4) * 64
    ensures Z17Field2(b) == t[2]
  {
    Z17FieldValue2(b);
    DivBelow(t[1], 16384, 16);
    FieldBack3(t[2], t[1] / 16384, t[3] % 4, b[4], b[5], b[6], 16, 16, 4096, 0x4_0000);
  }

  lemma Z17Recover3(t: seq<int>, b: seq<Byte>)
    requires |t| == 4 && Within(t, 0, 0x3FFFF) && |b| == 9
    requires b[6] == t[2] / 4096 + (t[3] % 4) * 64 && b[7] == (t[3] / 4) % 256 && b[8] == t[3] / 1024
    ensures Z17Field3(b) == t[3]
  {
    Z17FieldValue3(b);
    DivBelow(t[2], 4096, 64);
    FieldBack3(t[3], t[2] / 4096, 0, b[6], b[7], b[8], 64, 4, 1024, 0x4_0000);
  }

  lemma Z17Recover(t: seq<int>, b: seq<Byte>)
    requires |t| == 4 && Within(t, 0, 0x3FFFF) && |b| == 9 && Z17Packed(t, b)
    ensures forall k :: 0 <= k < 4 ==> Z17Ungroup(b)[k] == GAMMA1_17 - t[k]
  {
    Z17Recover0(t, b);
    Z17Recover1(t, b);
    Z17Recover2(t, b);
    Z17Recover3(t, b);
  }

  /** Subtracting the offset from gamma1 undoes it. */
  lemma OffsetsBack(g: int, c: seq<int>, t: seq<int>, d: seq<int>)
    requires |c| == |t| == |d|
    requires forall k :: 0 <= k < |t| ==> t[k] == g - c[k]
    requires forall k :: 0 <= k < |t| ==> d[k] == g - t[k]
    ensures d == c
  {
  }

  lemma Z17Back(c: seq<int>, t: seq<int>, b: seq<Byte>)
    requires |c| == 4 && |t| == 4 && Within(t, 0, 0x3FFFF) && |b| == 9 && Z17Packed(t, b)
    requires forall k :: 0 <= k < 4 ==> t[k] == GAMMA1_17 - c[k]
    ensures Z17Ungroup(b) == c
  {
    Z17Recover(t, b);
    OffsetsBack(GAMMA1_17, c, t, Z17Ungroup(b));
  }

  lemma Z17OffsetsValue(c: seq<int>)
    requires |c| == 4 && Within(c, 1 - GAMMA1_17, GAMMA1_17)
    ensures Within(Z17Offsets(c), 0, 0x3FFFF)
    ensures forall k :: 0 <= k < 4 ==> Z17Offsets(c)[k] == GAMMA1_17 - c[k]
  {
    forall k | 0 <= k < 4
      ensures Z17Offsets(c)[k] == GAMMA1_17 - c[k]
    {
      DivModUnique(GAMMA1_17 - c[k], TWO32, 0, GAMMA1_17 - c[k]);
    }
  }

  /** Four coefficients in (-2^17, 2^17] survive their nine-byte encoding. */
  lemma Z17GroupRoundTrip(c: seq<int>)
    requires |c| == 4 && Within(c, 1 - GAMMA1_17, GAMMA1_17)
    ensures Z17Ungroup(Z17Group(c)) == c
  {
    var t := Z17Offsets(c);
    Z17OffsetsValue(c);
    Z17Bytes(t, Z17Group(c));
    Z17Back(c, t, Z17Group(c));
  }

  // ---------------------------------------------------------------------
  // gamma1 = 2^19: two 20-bit offsets in five bytes

  /** `BigInt(gamma1) - BigInt(c)`, with no mask. */
  function Z19Offsets(c: seq<int>): (t: seq<int>)
    ensures |t| == |c|
  {
    seq(|c|, k requires 0 <= k < |c| => GAMMA1_19 - c[k])
  }

  function Z19Byte0(t: seq<int>): Byte requires |t| == 2 { t[0] % 256 }
  function Z19Byte1(t: seq<int>): Byte requires |t| == 2 { (t[0] / 0x100) % 256 }
  function Z19Byte2(t: seq<int>): Byte requires |t| == 2 { OrStore((t[0] / 0x1_0000) % 256, (t[1] * 16) % 256) }
  function Z19Byte3(t: seq<int>): Byte requires |t| == 2 { (t[1] / 16) % 256 }
  function Z19Byte4(t: seq<int>): Byte requires |t| == 2 { (t[1] / 0x1000) % 256 }

  /** The five bytes `zpack` writes for one group when gamma1 = 2^19. */
  function Z19Group(c: seq<int>): (r: seq<Byte>)
    requires |c| == 2
    ensures |r| == 5
  {
    var t := Z19Offsets(c);
    [Z19Byte0(t), Z19Byte1(t), Z19Byte2(t), Z19Byte3(t), Z19Byte4(t)]
  }

  /** The first field is masked twice (the second mask is written where the
      second field's would be expected). */
  function Z19Field0(b: seq<Byte>): int requires |b| == 5 {
    And(And(Or(Or(Rd(b[0]), Shl(Rd(b[1]), 8)), Shl(Rd(b[2]), 16)), 0xFFFFF), 0xFFFFF)
  }

  /** The second field is not masked. */
  function Z19Field1(b: seq<Byte>): int requires |b| == 5 {
    Or(Or(Sar(Rd(b[2]), 4), Shl(Rd(b[3]), 4)), Shl(Rd(b[4]), 12))
  }

  /** `Polynomium.zunpack` on one five-byte group when gamma1 = 2^19. */
  function Z19Ungroup(b: seq<Byte>): (r: seq<int>)
    requires |b| == 5
    ensures |r| == 2
  {
    [GAMMA1_19 - Z19Field0(b), GAMMA1_19 - Z19Field1(b)]
  }

  predicate Z19Packed(t: seq<int>, b: seq<Byte>)
    requires |t| == 2 && |b| == 5
  {
    && b[0] == t[0] % 256
    && b[1] == (t[0] / 256) % 256
    && b[2] == t[0] / 65536 + (t[1] % 16) * 16
    && b[3] == (t[1] / 16) % 256
    && b[4] == t[1] / 4096
  }

  lemma Z19Bytes(t: seq<int>, b: seq<Byte>)
    requires |t| == 2 && Within(t, 0, 0xFFFFF) && |b| == 5
    requires b == [Z19Byte0(t), Z19Byte1(t), Z19Byte2(t), Z19Byte3(t), Z19Byte4(t)]
    ensures Z19Packed(t, b)
  {
    assert b[2] == t[0] / 65536 + (t[1] % 16) * 16 by {
      DivBelow(t[0], 65536, 16);
      Shared(t[0] / 65536, t[1], 4, 4, 16, 16);
    }
    assert b[4] == t[1] / 4096 by {
      DivBelow(t[1], 4096, 256);
      DivModUnique(t[1] / 4096, 256, 0, t[1] / 4096);
    }
  }

  lemma Z19FieldValue0(b: seq<Byte>)
    requires |b| == 5
    ensures Z19Field0(b) == (b[0] + (b[1] as int) * 256 + (b[2] as int) * 65536) % 0x10_0000
  {
    Z19Low(b[0], b[1], b[2]);
    MaskedAgain((b[0] + (b[1] as int) * 256 + (b[2] as int) * 65536) % 0x10_0000);
  }

  /** The first three bytes, masked once, give the low 20 bits. */
  lemma Z19Low(b0: Byte, b1: Byte, b2: Byte)
    ensures And(Or(Or(Rd(b0), Shl(Rd(b1), 8)), Shl(Rd(b2), 16)), 0xFFFFF) == (b0 + b1 * 256 + b2 * 65536) % 0x10_0000
  {
    Pow2Values();
    Field3(Rd(b0), b1, b2, 8, 16, 256, 65536, 20, 0x10_0000);
  }

  /** Masking a 20-bit value again leaves it unchanged. */
  lemma MaskedAgain(v: int)
    requires 0 <= v < 0x10_0000
    ensures And(v, 0xFFFFF) == v
  {
    Pow2Values();
    Mask(v, 20, 0x10_0000);
    DivModUnique(v, 0x10_0000, 0, v);
  }

  /** The unmasked second field cannot exceed 20 bits anyway. */
  lemma Z19FieldValue1(b: seq<Byte>)
    requires |b| == 5
    ensures Z19Field1(b) == b[2] / 16 + (b[3] as int) * 16 + (b[4] as int) * 4096
    ensures 0 <= Z19Field1(b) < 0x10_0000
  {
    ByteTail(b[2], 4, 4, 16, 16);
    OrBytesAt(b[2] / 16, b[3], b[4], 4, 12, 16, 4096);
  }

  lemma Z19Range(b: seq<Byte>)
    requires |b| == 5
    ensures Within(Z19Ungroup(b), 1 - GAMMA1_19, GAMMA1_19)
  {
    Z19FieldValue0(b);
    Z19FieldValue1(b);
  }

  lemma Z19Recover0(t: seq<int>, b: seq<Byte>)
    requires |t| == 2 && Within(t, 0, 0xFFFFF) && |b| == 5
    requires b[0] == t[0] % 256 && b[1] == (t[0] / 256) % 256 && b[2] == t[0] / 65536 + (t[1] % 16) * 16
    ensures Z19Field0(b) == t[0]
  {
    Z19FieldValue0(b);
    FieldBack3(t[0], 0, t[1] % 16, b[0], b[1], b[2], 1, 256, 65536, 0x10_0000);
  }

  lemma Z19Recover1(t: seq<int>, b: seq<Byte>)
    requires |t| == 2 && Within(t, 0, 0xFFFFF) && |b| == 5
    requires b[2] == t[0] / 65536 + (t[1] % 16) * 16 && b[3] == (t[1] / 16) % 256 && b[4] == t[1] / 4096
    ensures Z19Field1(b) == t[1]
  {
    Z19FieldValue1(b);
    DivBelow(t[0], 65536, 16);
    FieldBack3(t[1], t[0] / 65536, 0, b[2], b[3], b[4], 16, 16, 4096, 0x10_0000);
    DivModUnique(Z19Field1(b), 0x10_0000, 0, Z19Field1(b));
  }

  lemma Z19Back(c: seq<int>, t: seq<int>, b: seq<Byte>)
    requires |c| == 2 && |t| == 2 && Within(t, 0, 0xFFFFF) && |b| == 5 && Z19Packed(t, b)
    requires forall k :: 0 <= k < 2 ==> t[k] == GAMMA1_19 - c[k]
    ensures Z19Ungroup(b) == c
  {
    Z19Recover0(t, b);
    Z19Recover1(t, b);
    OffsetsBack(GAMMA1_19, c, t, Z19Ungroup(b));
  }

  /** Two coefficients in (-2^19, 2^19] survive their five-byte encoding. */
  lemma Z19GroupRoundTrip(c: seq<int>)
    requires |c| == 2 && Within(c, 1 - GAMMA1_19, GAMMA1_19)
    ensures Z19Ungroup(Z19Group(c)) == c
  {
    var t := Z19Offsets(c);
    Z19Bytes(t, Z19Group(c));
    Z19Back(c, t, Z19Group(c));
  }

  // ---------------------------------------------------------------------
  // Whole polynomials

  lemma Codec()
    ensures Encodes(4, 9, Z17Group) && Decodes(9, 4, Z17Ungroup)
    ensures Encodes(2, 5, Z19Group) && Decodes(5, 2, Z19Ungroup)
  {
  }

  /** The encoding of p for a supported gamma1. */
  function ZBytes(gamma1: int, p: Poly): (b: seq<Byte>)
    requires gamma1 == GAMMA1_17 || gamma1 == GAMMA1_19
    ensures |b| == ZPackedBytes(gamma1)
  {
    Codec();
    if gamma1 == GAMMA1_17 then
      EncodeLength(p, 4, 9, Z17Group, 64);
      EncodeGroups(p, 4, 9, Z17Group)
    else
      EncodeLength(p, 2, 5, Z19Group, 128);
      EncodeGroups(p, 2, 5, Z19Group)
  }

  /** `p.zpack(gamma1, sign, off)`: the encoding stored at off, or the
      error the source throws for any other gamma1. */
  function ZPack(gamma1: int, p: Poly, buf: seq<Byte>, off: int): (r: Result<seq<Byte>>)
    ensures r.Success? <==> gamma1 == GAMMA1_17 || gamma1 == GAMMA1_19
    ensures r.Failure? ==> r.error == InvalidGamma1(gamma1)
    ensures r.Success? ==> |r.value| == |buf|
  {
    if gamma1 == GAMMA1_17 || gamma1 == GAMMA1_19 then Success(WriteAt(buf, off, ZBytes(gamma1, p)))
    else Failure(InvalidGamma1(gamma1))
  }

  /** `Polynomium.zunpack(gamma1, sig, off)`. For any other gamma1 the
      source does not throw: it returns the zero polynomial. */
  function ZUnpack(gamma1: int, bytes: seq<Byte>, off: int): (p: Poly)
    ensures gamma1 == GAMMA1_17 || gamma1 == GAMMA1_19 ==> Within(p, 1 - gamma1, gamma1)
    ensures gamma1 != GAMMA1_17 && gamma1 != GAMMA1_19 ==> Within(p, 0, 0)
  {
    Codec();
    if gamma1 == GAMMA1_17 then
      var blk := ReadBlock(bytes, off, 576);
      DecodeLength(blk, 9, 4, Z17Ungroup, 64);
      forall g | |g| == 9
        ensures Within(Z17Ungroup(g), 1 - GAMMA1_17, GAMMA1_17)
      {
        Z17Range(g);
      }
      DecodeWithin(blk, 9, 4, Z17Ungroup, 1 - GAMMA1_17, GAMMA1_17);
      DecodeGroups(blk, 9, 4, Z17Ungroup)
    else if gamma1 == GAMMA1_19 then
      var blk := ReadBlock(bytes, off, 640);
      DecodeLength(blk, 5, 2, Z19Ungroup, 128);
      forall g | |g| == 5
        ensures Within(Z19Ungroup(g), 1 - GAMMA1_19, GAMMA1_19)
      {
        Z19Range(g);
      }
      DecodeWithin(blk, 5, 2, Z19Ungroup, 1 - GAMMA1_19, GAMMA1_19);
      DecodeGroups(blk, 5, 2, Z19Ungroup)
    else
      Zero
  }

  /** Packing a polynomial with coefficients in (-gamma1, gamma1] and
      unpacking it gives it back, and packing writes nothing outside its
      bytes. */
  lemma ZRoundTrip(gamma1: int, p: Poly, buf: seq<Byte>, off: int)
    requires (gamma1 == GAMMA1_17 || gamma1 == GAMMA1_19) && Within(p, 1 - gamma1, gamma1)
    requires 0 <= off && off + ZPackedBytes(gamma1) <= |buf|
    ensures ZPack(gamma1, p, buf, off).Success?
    ensures ZUnpack(gamma1, ZPack(gamma1, p, buf, off).value, off) == p
    ensures forall i :: 0 <= i < |buf| && !(off <= i < off + ZPackedBytes(gamma1)) ==>
              ZPack(gamma1, p, buf, off).value[i] == buf[i]
  {
    Codec();
    var e := ZBytes(gamma1, p);
    ReadWritten(buf, off, e);
    if gamma1 == GAMMA1_17 {
      forall g | |g| == 4 && Within(g, 1 - GAMMA1_17, GAMMA1_17)
        ensures Z17Ungroup(Z17Group(g)) == g
      {
        Z17GroupRoundTrip(g);
      }
      DecodeEncode(p, 4, 9, Z17Group, Z17Ungroup, 1 - GAMMA1_17, GAMMA1_17, 64);
    } else {
      forall g | |g| == 2 && Within(g, 1 - GAMMA1_19, GAMMA1_19)
        ensures Z19Ungroup(Z19Group(g)) == g
      {
        Z19GroupRoundTrip(g);
      }
      DecodeEncode(p, 2, 5, Z19Group, Z19Ungroup, 1 - GAMMA1_19, GAMMA1_19, 128);
    }
  }
}
