/** The t1 codec of src/poly.ts: every 4 coefficients of 10 bits go into 5
    bytes, least significant bits first (`t1pack`, `t1unpack`). A packed
    polynomial takes 320 bytes of the public key. */
module PackT1 {
  import opened JsNumber
  import opened BitFields
  import opened Blocks
  import opened Params
  import opened Polynomial

  // ---------------------------------------------------------------------
  // One group, as the source's loop body writes it

  /** Byte j of the group encoding of c. */
  function T1Byte(c: seq<int>, j: int): Byte
    requires |c| == 4 && 0 <= j < 5
  {
    if j == 0 then ToByte(And(Ushr(c[0], 0), 0xFF))
    else if j == 1 then ToByte(And(Or(Ushr(c[0], 8), Shl(c[1], 2)), 0xFF))
    else if j == 2 then ToByte(And(Or(Ushr(c[1], 6), Shl(c[2], 4)), 0xFF))
    else if j == 3 then ToByte(And(Or(Ushr(c[2], 4), Shl(c[3], 6)), 0xFF))
    else ToByte(And(Ushr(c[3], 2), 0xFF))
  }

  function T1Group(c: seq<int>): (r: seq<Byte>)
    requires |c| == 4
    ensures |r| == 5
  {
    seq<Byte>(5, j requires 0 <= j < 5 => T1Byte(c, j))
  }

  /** Coefficient k decoded from a 5-byte block. */
  function T1Coef(b: seq<Byte>, k: int): int
    requires |b| == 5 && 0 <= k < 4
  {
    if k == 0 then And(Or(Sar(Rd(b[0]), 0), Shl(Rd(b[1]), 8)), 0x3FF)
    else if k == 1 then And(Or(Sar(Rd(b[1]), 2), Shl(Rd(b[2]), 6)), 0x3FF)
    else if k == 2 then And(Or(Sar(Rd(b[2]), 4), Shl(Rd(b[3]), 4)), 0x3FF)
    else And(Or(Sar(Rd(b[3]), 6), Shl(Rd(b[4]), 2)), 0x3FF)
  }

  function T1Ungroup(b: seq<Byte>): (r: seq<int>)
    requires |b| == 5
    ensures |r| == 4
  {
    seq(4, k requires 0 <= k < 4 => T1Coef(b, k))
  }

  // ---------------------------------------------------------------------
  // The bytes of a group of 10-bit values, as arithmetic

  lemma EncodeByte0(c: seq<int>)
    requires |c| == 4 && Within(c, 0, 1023)
    ensures T1Group(c)[0] == c[0] % 256
  {
    ByteAtBit(c[0], 0, 1);
  }

  lemma EncodeByte1(c: seq<int>)
    requires |c| == 4 && Within(c, 0, 1023)
    ensures T1Group(c)[1] == c[0] / 256 + (c[1] % 64) * 4
  {
    Shr(c[0], 8, 256);
    DivBelow(c[0], 256, 4);
    JoinByte(c[0] / 256, c[1], 2, 6, 4, 64);
  }

  lemma EncodeByte2(c: seq<int>)
    requires |c| == 4 && Within(c, 0, 1023)
    ensures T1Group(c)[2] == c[1] / 64 + (c[2] % 16) * 16
  {
    Shr(c[1], 6, 64);
    DivBelow(c[1], 64, 16);
    JoinByte(c[1] / 64, c[2], 4, 4, 16, 16);
  }

  lemma EncodeByte3(c: seq<int>)
    requires |c| == 4 && Within(c, 0, 1023)
    ensures T1Group(c)[3] == c[2] / 16 + (c[3] % 4) * 64
  {
    Shr(c[2], 4, 16);
    DivBelow(c[2], 16, 64);
    JoinByte(c[2] / 16, c[3], 6, 2, 64, 4);
  }

  lemma EncodeByte4(c: seq<int>)
    requires |c| == 4 && Within(c, 0, 1023)
    ensures T1Group(c)[4] == c[3] / 4
  {
    TopByte(c[3], 2, 4);
  }

  // ---------------------------------------------------------------------
  // The coefficients of a block, as arithmetic

  lemma DecodeCoef0(b: seq<Byte>)
    requires |b| == 5
    ensures T1Ungroup(b)[0] == (b[0] + (b[1] as int) * 256) % 1024
  {
    ReadField2(b[0], b[1], 0, 8, 1, 256, 10, 1024);
  }

  lemma DecodeCoef1(b: seq<Byte>)
    requires |b| == 5
    ensures T1Ungroup(b)[1] == (b[1] / 4 + (b[2] as int) * 64) % 1024
  {
    ReadField2(b[1], b[2], 2, 6, 4, 64, 10, 1024);
  }

  lemma DecodeCoef2(b: seq<Byte>)
    requires |b| == 5
    ensures T1Ungroup(b)[2] == (b[2] / 16 + (b[3] as int) * 16) % 1024
  {
    ReadField2(b[2], b[3], 4, 4, 16, 16, 10, 1024);
  }

  lemma DecodeCoef3(b: seq<Byte>)
    requires |b| == 5
    ensures T1Ungroup(b)[3] == (b[3] / 64 + (b[4] as int) * 4) % 1024
  {
    ReadField2(b[3], b[4], 6, 2, 64, 4, 10, 1024);
  }

  // ---------------------------------------------------------------------
  // Pack, then unpack: each coefficient comes back

  // Each coefficient read back from the bytes the encoder wrote around it.

  lemma Back0(c0: int, c1: int, b0: int, b1: int)
    requires 0 <= c0 < 1024 && 0 <= c1 < 1024
    requires b0 == c0 % 256 && b1 == c0 / 256 + (c1 % 64) * 4
    ensures (b0 + b1 * 256) % 1024 == c0
  {
    FieldBack(c0, 0, c1 % 64, b0, b1, 1, 256, 1024);
  }

  lemma Back1(c0: int, c1: int, c2: int, b1: int, b2: int)
    requires 0 <= c0 < 1024 && 0 <= c1 < 1024 && 0 <= c2 < 1024
    requires b1 == c0 / 256 + (c1 % 64) * 4 && b2 == c1 / 64 + (c2 % 16) * 16
    ensures (b1 / 4 + b2 * 64) % 1024 == c1
  {
    DivBelow(c0, 256, 4);
    FieldBack(c1, c0 / 256, c2 % 16, b1, b2, 4, 64, 1024);
  }

  lemma Back2(c1: int, c2: int, c3: int, b2: int, b3: int)
    requires 0 <= c1 < 1024 && 0 <= c2 < 1024 && 0 <= c3 < 1024
    requires b2 == c1 / 64 + (c2 % 16) * 16 && b3 == c2 / 16 + (c3 % 4) * 64
    ensures (b2 / 16 + b3 * 16) % 1024 == c2
  {
    DivBelow(c1, 64, 16);
    FieldBack(c2, c1 / 64, c3 % 4, b2, b3, 16, 16, 1024);
  }

  lemma Back3(c2: int, c3: int, b3: int, b4: int)
    requires 0 <= c2 < 1024 && 0 <= c3 < 1024
    requires b3 == c2 / 16 + (c3 % 4) * 64 && b4 == c3 / 4
    ensures (b3 / 64 + b4 * 4) % 1024 == c3
  {
    DivBelow(c2, 16, 64);
    FieldBack(c3, c2 / 16, 0, b3, b4, 64, 4, 1024);
  }

  lemma Recover0(c: seq<int>, b: seq<Byte>)
    requires |c| == 4 && Within(c, 0, 1023) && |b| == 5
    requires b[0] == c[0] % 256 && b[1] == c[0] / 256 + (c[1] % 64) * 4
    ensures T1Ungroup(b)[0] == c[0]
  {
    DecodeCoef0(b);
    Back0(c[0], c[1], b[0], b[1]);
  }

  lemma Recover1(c: seq<int>, b: seq<Byte>)
    requires |c| == 4 && Within(c, 0, 1023) && |b| == 5
    requires b[1] == c[0] / 256 + (c[1] % 64) * 4 && b[2] == c[1] / 64 + (c[2] % 16) * 16
    ensures T1Ungroup(b)[1] == c[1]
  {
    DecodeCoef1(b);
    Back1(c[0], c[1], c[2], b[1], b[2]);
  }

  lemma Recover2(c: seq<int>, b: seq<Byte>)
    requires |c| == 4 && Within(c, 0, 1023) && |b| == 5
    requires b[2] == c[1] / 64 + (c[2] % 16) * 16 && b[3] == c[2] / 16 + (c[3] % 4) * 64
    ensures T1Ungroup(b)[2] == c[2]
  {
    DecodeCoef2(b);
    Back2(c[1], c[2], c[3], b[2], b[3]);
  }

  lemma Recover3(c: seq<int>, b: seq<Byte>)
    requires |c| == 4 && Within(c, 0, 1023) && |b| == 5
    requires b[3] == c[2] / 16 + (c[3] % 4) * 64 && b[4] == c[3] / 4
    ensures T1Ungroup(b)[3] == c[3]
  {
    DecodeCoef3(b);
    Back3(c[2], c[3], b[3], b[4]);
  }

  /** The coefficients decoded from the bytes the encoder writes for c are c. */
  lemma Recover(c: seq<int>, b: seq<Byte>)
    requires |c| == 4 && Within(c, 0, 1023) && |b| == 5
    requires b[0] == c[0] % 256 && b[1] == c[0] / 256 + (c[1] % 64) * 4
    requires b[2] == c[1] / 64 + (c[2] % 16) * 16 && b[3] == c[2] / 16 + (c[3] % 4) * 64
    requires b[4] == c[3] / 4
    ensures T1Ungroup(b) == c
  {
    Recover0(c, b);
    Recover1(c, b);
    Recover2(c, b);
    Recover3(c, b);
    Same4(T1Ungroup(b), c);
  }

  /** Four 10-bit values survive their 5-byte encoding. */
  lemma GroupRoundTrip(c: seq<int>)
    requires |c| == 4 && Within(c, 0, 1023)
    ensures T1Ungroup(T1Group(c)) == c
  {
    EncodeByte0(c);
    EncodeByte1(c);
    EncodeByte2(c);
    EncodeByte3(c);
    EncodeByte4(c);
    Recover(c, T1Group(c));
  }

  // ---------------------------------------------------------------------
  // Unpack, then pack: each byte comes back

  /** The bits of x below and above bit log2(p) of x + y * p, reduced to
      the width log2(m). */
  lemma FieldSplit(x: int, y: int, p: int, m: int)
    requires p > 0 && m > 0 && m % p == 0 && 0 <= x < p && 0 <= y
    ensures ((x + y * p) % m) % p == x
    ensures ((x + y * p) % m) / p == y % (m / p)
  {
    var k := m / p;
    assert m == p * k;
    var v := (x + y * p) % m;
    assert x + y * p == v + m * ((x + y * p) / m);
    var lo, hi := y % k, y / k;
    assert y * p == lo * p + m * hi by {
      assert y == lo + k * hi;
      assert y * p == (lo + k * hi) * p;
    }
    MulMono(lo, k - 1, p);
    MulMono(0, lo, p);
    Split(x + y * p, m, x + lo * p, hi);
    DivModUnique(x + lo * p, p, lo, x);
  }

  // The byte arithmetic of unpack-then-pack, one byte at a time.

  lemma Rejoin0(b0: Byte, b1: Byte, c0: int)
    requires c0 == (b0 + (b1 as int) * 256) % 1024
    ensures c0 % 256 == b0
  {
    FieldSplit(b0, b1, 256, 1024);
  }

  lemma Rejoin1(b0: Byte, b1: Byte, b2: Byte, c0: int, c1: int)
    requires c0 == (b0 + (b1 as int) * 256) % 1024 && c1 == (b1 / 4 + (b2 as int) * 64) % 1024
    ensures c0 / 256 + (c1 % 64) * 4 == b1
  {
    FieldSplit(b0, b1, 256, 1024);
    DivBelow(b1, 4, 64);
    FieldSplit(b1 / 4, b2, 64, 1024);
  }

  lemma Rejoin2(b1: Byte, b2: Byte, b3: Byte, c1: int, c2: int)
    requires c1 == (b1 / 4 + (b2 as int) * 64) % 1024 && c2 == (b2 / 16 + (b3 as int) * 16) % 1024
    ensures c1 / 64 + (c2 % 16) * 16 == b2
  {
    DivBelow(b1, 4, 64);
    FieldSplit(b1 / 4, b2, 64, 1024);
    DivBelow(b2, 16, 16);
    FieldSplit(b2 / 16, b3, 16, 1024);
  }

  lemma Rejoin3(b2: Byte, b3: Byte, b4: Byte, c2: int, c3: int)
    requires c2 == (b2 / 16 + (b3 as int) * 16) % 1024 && c3 == (b3 / 64 + (b4 as int) * 4) % 1024
    ensures c2 / 16 + (c3 % 4) * 64 == b3
  {
    DivBelow(b2, 16, 16);
    FieldSplit(b2 / 16, b3, 16, 1024);
    DivBelow(b3, 64, 4);
    FieldSplit(b3 / 64, b4, 4, 1024);
  }

  lemma Rejoin4(b3: Byte, b4: Byte, c3: int)
    requires c3 == (b3 / 64 + (b4 as int) * 4) % 1024
    ensures c3 / 4 == b4
  {
    DivBelow(b3, 64, 4);
    FieldSplit(b3 / 64, b4, 4, 1024);
  }

  lemma Refold0(b: seq<Byte>, c: seq<int>)
    requires |b| == 5 && |c| == 4 && Within(c, 0, 1023)
    requires c[0] == (b[0] + (b[1] as int) * 256) % 1024
    ensures T1Group(c)[0] == b[0]
  {
    EncodeByte0(c);
    Rejoin0(b[0], b[1], c[0]);
  }

  lemma Refold1(b: seq<Byte>, c: seq<int>)
    requires |b| == 5 && |c| == 4 && Within(c, 0, 1023)
    requires c[0] == (b[0] + (b[1] as int) * 256) % 1024 && c[1] == (b[1] / 4 + (b[2] as int) * 64) % 1024
    ensures T1Group(c)[1] == b[1]
  {
    EncodeByte1(c);
    Rejoin1(b[0], b[1], b[2], c[0], c[1]);
  }

  lemma Refold2(b: seq<Byte>, c: seq<int>)
    requires |b| == 5 && |c| == 4 && Within(c, 0, 1023)
    requires c[1] == (b[1] / 4 + (b[2] as int) * 64) % 1024 && c[2] == (b[2] / 16 + (b[3] as int) * 16) % 1024
    ensures T1Group(c)[2] == b[2]
  {
    EncodeByte2(c);
    Rejoin2(b[1], b[2], b[3], c[1], c[2]);
  }

  lemma Refold3(b: seq<Byte>, c: seq<int>)
    requires |b| == 5 && |c| == 4 && Within(c, 0, 1023)
    requires c[2] == (b[2] / 16 + (b[3] as int) * 16) % 1024 && c[3] == (b[3] / 64 + (b[4] as int) * 4) % 1024
    ensures T1Group(c)[3] == b[3]
  {
    EncodeByte3(c);
    Rejoin3(b[2], b[3], b[4], c[2], c[3]);
  }

  lemma Refold4(b: seq<Byte>, c: seq<int>)
    requires |b| == 5 && |c| == 4 && Within(c, 0, 1023)
    requires c[3] == (b[3] / 64 + (b[4] as int) * 4) % 1024
    ensures T1Group(c)[4] == b[4]
  {
    EncodeByte4(c);
    Rejoin4(b[3], b[4], c[3]);
  }

  /** The encoding of the coefficients a block decodes to is the block. */
  lemma Refold(b: seq<Byte>, c: seq<int>)
    requires |b| == 5 && |c| == 4 && Within(c, 0, 1023)
    requires c[0] == (b[0] + (b[1] as int) * 256) % 1024
    requires c[1] == (b[1] / 4 + (b[2] as int) * 64) % 1024
    requires c[2] == (b[2] / 16 + (b[3] as int) * 16) % 1024
    requires c[3] == (b[3] / 64 + (b[4] as int) * 4) % 1024
    ensures T1Group(c) == b
  {
    Refold0(b, c);
    Refold1(b, c);
    Refold2(b, c);
    Refold3(b, c);
    Refold4(b, c);
    Same5(T1Group(c), b);
  }

  /** Every 5-byte block is the encoding of what it decodes to. */
  lemma BlockRoundTrip(b: seq<Byte>)
    requires |b| == 5
    ensures T1Group(T1Ungroup(b)) == b
  {
    DecodedRange(b);
    DecodeCoef0(b);
    DecodeCoef1(b);
    DecodeCoef2(b);
    DecodeCoef3(b);
    Refold(b, T1Ungroup(b));
  }

  // ---------------------------------------------------------------------
  // Whole polynomials

  lemma Codec()
    ensures Encodes(4, 5, T1Group) && Decodes(5, 4, T1Ungroup)
  {
  }

  /** Every decoded coefficient has 10 bits. */
  lemma DecodedRange(b: seq<Byte>)
    requires |b| == 5
    ensures Within(T1Ungroup(b), 0, 1023)
  {
    DecodeCoef0(b);
    DecodeCoef1(b);
    DecodeCoef2(b);
    DecodeCoef3(b);
  }

  /** `p.t1pack(r, off)`: the 320-byte encoding of p stored at off. */
  function T1Pack(p: Poly, r: seq<Byte>, off: int): (out: seq<Byte>)
    ensures |out| == |r|
  {
    Codec();
    WriteAt(r, off, EncodeGroups(p, 4, 5, T1Group))
  }

  /** `Polynomium.t1unpack(bytes, off)`: the 320 bytes at off decoded. */
  function T1Unpack(bytes: seq<Byte>, off: int): (p: Poly)
    ensures Within(p, 0, 1023)
  {
    Codec();
    DecodeLength(ReadBlock(bytes, off, POLYT1_PACKEDBYTES), 5, 4, T1Ungroup, 64);
    forall blk | |blk| == 5
      ensures Within(T1Ungroup(blk), 0, 1023)
    {
      DecodedRange(blk);
    }
    DecodeWithin(ReadBlock(bytes, off, POLYT1_PACKEDBYTES), 5, 4, T1Ungroup, 0, 1023);
    DecodeGroups(ReadBlock(bytes, off, POLYT1_PACKEDBYTES), 5, 4, T1Ungroup)
  }

  /** The packed form of p, on its own. */
  function T1Bytes(p: Poly): (b: seq<Byte>)
    ensures |b| == POLYT1_PACKEDBYTES
  {
    Codec();
    EncodeLength(p, 4, 5, T1Group, 64);
    EncodeGroups(p, 4, 5, T1Group)
  }

  /** t1 packing writes exactly the 320 bytes at off, and unpacking them
      gives back every polynomial with 10-bit coefficients. */
  lemma T1RoundTrip(p: Poly, r: seq<Byte>, off: int)
    requires Within(p, 0, 1023) && 0 <= off && off + POLYT1_PACKEDBYTES <= |r|
    ensures T1Unpack(T1Pack(p, r, off), off) == p
    ensures forall i :: 0 <= i < |r| && !(off <= i < off + POLYT1_PACKEDBYTES) ==> T1Pack(p, r, off)[i] == r[i]
  {
    Codec();
    var e := T1Bytes(p);
    ReadWritten(r, off, e);
    forall g | |g| == 4 && Within(g, 0, 1023)
      ensures T1Ungroup(T1Group(g)) == g
    {
      GroupRoundTrip(g);
    }
    DecodeEncode(p, 4, 5, T1Group, T1Ungroup, 0, 1023, 64);
  }

  /** Unpacking then packing reproduces the 320 bytes: every byte string is
      the encoding of some polynomial. */
  lemma T1BytesRoundTrip(bytes: seq<Byte>, off: int)
    ensures T1Bytes(T1Unpack(bytes, off)) == ReadBlock(bytes, off, POLYT1_PACKEDBYTES)
  {
    Codec();
    forall blk | |blk| == 5
      ensures T1Group(T1Ungroup(blk)) == blk
    {
      BlockRoundTrip(blk);
    }
    EncodeDecode(ReadBlock(bytes, off, POLYT1_PACKEDBYTES), 5, 4, T1Ungroup, T1Group, 64);
  }
}
