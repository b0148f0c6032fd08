/** The w1 packer of src/poly.ts (`w1pack`): the high parts w1 of the
    commitment are written as 6-bit fields, four coefficients in three
    bytes, when gamma2 = (Q - 1) / 88, and as 4-bit fields, two
    coefficients in one byte, when gamma2 = (Q - 1) / 32. The library has
    no w1 unpacker; `W1Fields88` and `W1Fields32` read the fields back by
    plain arithmetic on the little-endian value of each block, and serve as
    the reference the packer is checked against. */
module PackW1 {
  import opened JsNumber
  import opened BitFields
  import opened Blocks
  import opened Outcomes
  import opened Params
  import opened Polynomial

  /** Bytes of a packed w1 polynomial for a supported gamma2. */
  function W1PackedBytes(gamma2: int): int {
    if gamma2 == GAMMA2_88 then 192 else 128
  }

  // ---------------------------------------------------------------------
  // gamma2 = (Q - 1) / 88: four 6-bit fields in three bytes

  function W1Byte0(c: seq<int>): Byte requires |c| == 4 {
    OrStore(ToByte(And(c[0], 0xFF)), And(Shl(c[1], 6), 0xFF))
  }

  function W1Byte1(c: seq<int>): Byte requires |c| == 4 {
    OrStore(ToByte(And(Sar(c[1], 2), 0xFF)), And(Shl(c[2], 4), 0xFF))
  }

  function W1Byte2(c: seq<int>): Byte requires |c| == 4 {
    OrStore(ToByte(And(Sar(c[2], 4), 0xFF)), And(Shl(c[3], 2), 0xFF))
  }

  /** The three bytes `w1pack` writes for one group when gamma2 = (Q - 1) / 88. */
  function W1Group88(c: seq<int>): (r: seq<Byte>)
    requires |c| == 4
    ensures |r| == 3
  {
    [W1Byte0(c), W1Byte1(c), W1Byte2(c)]
  }

  /** The four 6-bit fields of the 24-bit little-endian value of a block. */
  function W1Fields88(b: seq<Byte>): (r: seq<int>)
    requires |b| == 3
    ensures |r| == 4 && Within(r, 0, 63)
  {
    var v := b[0] + (b[1] as int) * 256 + (b[2] as int) * 65536;
    [v % 64, (v / 64) % 64, (v / 4096) % 64, (v / 262144) % 64]
  }

  lemma W1Low(c0: int, c1: int)
    requires 0 <= c0 < 64 && 0 <= c1 < 64
    ensures OrStore(ToByte(And(c0, 0xFF)), And(Shl(c1, 6), 0xFF)) == c0 + (c1 % 4) * 64
  {
    LowByteOf(c0);
    DivModUnique(c0, 256, 0, c0);
    OrStoreShl(c0, c1, 6, 2, 64, 4);
  }

  lemma W1Mid(c1: int, c2: int)
    requires 0 <= c1 < 64 && 0 <= c2 < 64
    ensures OrStore(ToByte(And(Sar(c1, 2), 0xFF)), And(Shl(c2, 4), 0xFF)) == c1 / 4 + (c2 % 16) * 16
  {
    TopByte(c1, 2, 4);
    OrStoreShl(c1 / 4, c2, 4, 4, 16, 16);
  }

  lemma W1High(c2: int, c3: int)
    requires 0 <= c2 < 64 && 0 <= c3 < 64
    ensures OrStore(ToByte(And(Sar(c2, 4), 0xFF)), And(Shl(c3, 2), 0xFF)) == c2 / 16 + c3 * 4
  {
    TopByte(c2, 4, 16);
    OrStoreShl(c2 / 16, c3, 2, 6, 4, 64);
    DivModUnique(c3, 64, 0, c3);
  }

  /** The block's little-endian value is the fields side by side. */
  lemma W1Value(c0: int, c1: int, c2: int, c3: int, b0: int, b1: int, b2: int)
    requires 0 <= c1 < 64 && 0 <= c2 < 64
    requires b0 == c0 + (c1 % 4) * 64 && b1 == c1 / 4 + (c2 % 16) * 16 && b2 == c2 / 16 + c3 * 4
    ensures b0 + b1 * 256 + b2 * 65536 == c0 + c1 * 64 + c2 * 4096 + c3 * 262144
  {
    assert c1 == (c1 / 4) * 4 + c1 % 4;
    assert c2 == (c2 / 16) * 16 + c2 % 16;
  }

  lemma W1Split(v: int, c0: int, c1: int, c2: int, c3: int)
    requires 0 <= c0 < 64 && 0 <= c1 < 64 && 0 <= c2 < 64 && 0 <= c3 < 64
    requires v == c0 + c1 * 64 + c2 * 4096 + c3 * 262144
    ensures v % 64 == c0 && (v / 64) % 64 == c1 && (v / 4096) % 64 == c2 && (v / 262144) % 64 == c3
  {
    FieldAt(v, 0, c0, c1 + c2 * 64 + c3 * 4096, 1, 64);
    FieldAt(v, c0, c1, c2 + c3 * 64, 64, 64);
    FieldAt(v, c0 + c1 * 64, c2, c3, 4096, 64);
    FieldAt(v, c0 + c1 * 64 + c2 * 4096, c3, 0, 262144, 64);
  }

  lemma W1Back88(c: seq<int>, b: seq<Byte>)
    requires |c| == 4 && Within(c, 0, 63) && |b| == 3
    requires b[0] == c[0] + (c[1] % 4) * 64 && b[1] == c[1] / 4 + (c[2] % 16) * 16 && b[2] == c[2] / 16 + c[3] * 4
    ensures W1Fields88(b) == c
  {
    W1Value(c[0], c[1], c[2], c[3], b[0], b[1], b[2]);
    W1Split(b[0] + (b[1] as int) * 256 + (b[2] as int) * 65536, c[0], c[1], c[2], c[3]);
    Same4(W1Fields88(b), c);
  }

  /** Coefficient k of a group of 6-bit values lands in 6-bit field k. */
  lemma W1Group88Fields(c: seq<int>)
    requires |c| == 4 && Within(c, 0, 63)
    ensures W1Fields88(W1Group88(c)) == c
  {
    var b := W1Group88(c);
    W1Low(c[0], c[1]);
    W1Mid(c[1], c[2]);
    W1High(c[2], c[3]);
    W1Back88(c, b);
  }

  // ---------------------------------------------------------------------
  // gamma2 = (Q - 1) / 32: two 4-bit fields in one byte

  /** The byte `w1pack` writes for one pair when gamma2 = (Q - 1) / 32. */
  function W1Group32(c: seq<int>): (r: seq<Byte>)
    requires |c| == 2
    ensures |r| == 1
  {
    [ToByte(And(Or(c[0], Shl(c[1], 4)), 0xFF))]
  }

  /** The two 4-bit fields of a byte. */
  function W1Fields32(b: seq<Byte>): (r: seq<int>)
    requires |b| == 1
    ensures |r| == 2 && Within(r, 0, 15)
  {
    [b[0] % 16, b[0] / 16]
  }

  lemma W1Back32(c: seq<int>, b: seq<Byte>)
    requires |c| == 2 && Within(c, 0, 15) && |b| == 1 && b[0] == c[0] + c[1] * 16
    ensures W1Fields32(b) == c
  {
    DivModUnique(b[0], 16, c[1], c[0]);
    Same2(W1Fields32(b), c);
  }

  /** Coefficient k of a pair of 4-bit values lands in 4-bit field k. */
  lemma W1Group32Fields(c: seq<int>)
    requires |c| == 2 && Within(c, 0, 15)
    ensures W1Fields32(W1Group32(c)) == c
  {
    JoinSmall(c[0], c[1], 4, 4, 16, 16);
    W1Back32(c, W1Group32(c));
  }

  // ---------------------------------------------------------------------
  // Whole polynomials

  lemma Codec()
    ensures Encodes(4, 3, W1Group88) && Decodes(3, 4, W1Fields88)
    ensures Encodes(2, 1, W1Group32) && Decodes(1, 2, W1Fields32)
  {
  }

  /** The encoding of p for a supported gamma2. */
  function W1Bytes(gamma2: int, p: Poly): (b: seq<Byte>)
    requires gamma2 == GAMMA2_88 || gamma2 == GAMMA2_32
    ensures |b| == W1PackedBytes(gamma2)
  {
    Codec();
    if gamma2 == GAMMA2_88 then
      EncodeLength(p, 4, 3, W1Group88, 64);
      EncodeGroups(p, 4, 3, W1Group88)
    else
      EncodeLength(p, 2, 1, W1Group32, 128);
      EncodeGroups(p, 2, 1, W1Group32)
  }

  /** `p.w1pack(gamma2, buf, off)`: the encoding stored at off, or the
      error the source throws for any other gamma2. */
  function W1Pack(gamma2: int, p: Poly, buf: seq<Byte>, off: int): (r: Result<seq<Byte>>)
    ensures r.Success? <==> gamma2 == GAMMA2_88 || gamma2 == GAMMA2_32
    ensures r.Failure? ==> r.error == InvalidGamma2(gamma2)
    ensures r.Success? ==> |r.value| == |buf|
  {
    if gamma2 == GAMMA2_88 || gamma2 == GAMMA2_32 then Success(WriteAt(buf, off, W1Bytes(gamma2, p)))
    else Failure(InvalidGamma2(gamma2))
  }

  /** The fields of the packed block at off, read by arithmetic. */
  function W1Fields(gamma2: int, bytes: seq<Byte>, off: int): (p: seq<int>)
    requires gamma2 == GAMMA2_88 || gamma2 == GAMMA2_32
    ensures gamma2 == GAMMA2_88 ==> Within(p, 0, 63)
    ensures gamma2 == GAMMA2_32 ==> Within(p, 0, 15)
  {
    Codec();
    if gamma2 == GAMMA2_88 then
      var blk := ReadBlock(bytes, off, 192);
      DecodeWithin(blk, 3, 4, W1Fields88, 0, 63);
      DecodeGroups(blk, 3, 4, W1Fields88)
    else
      var blk := ReadBlock(bytes, off, 128);
      DecodeWithin(blk, 1, 2, W1Fields32, 0, 15);
      DecodeGroups(blk, 1, 2, W1Fields32)
  }

  /** `w1pack` puts coefficient i of a polynomial with 6-bit (4-bit)
      coefficients into 6-bit (4-bit) field i of its 192 (128) bytes, and
      writes nothing else. */
  lemma W1PackFields(gamma2: int, p: Poly, buf: seq<Byte>, off: int)
    requires gamma2 == GAMMA2_88 || gamma2 == GAMMA2_32
    requires gamma2 == GAMMA2_88 ==> Within(p, 0, 63)
    requires gamma2 == GAMMA2_32 ==> Within(p, 0, 15)
    requires 0 <= off && off + W1PackedBytes(gamma2) <= |buf|
    ensures W1Pack(gamma2, p, buf, off).Success?
    ensures W1Fields(gamma2, W1Pack(gamma2, p, buf, off).value, off) == p
    ensures forall i :: 0 <= i < |buf| && !(off <= i < off + W1PackedBytes(gamma2)) ==>
              W1Pack(gamma2, p, buf, off).value[i] == buf[i]
  {
    Codec();
    var e := W1Bytes(gamma2, p);
    ReadWritten(buf, off, e);
    if gamma2 == GAMMA2_88 {
      forall g | |g| == 4 && Within(g, 0, 63)
        ensures W1Fields88(W1Group88(g)) == g
      {
        W1Group88Fields(g);
      }
      DecodeEncode(p, 4, 3, W1Group88, W1Fields88, 0, 63, 64);
    } else {
      forall g | |g| == 2 && Within(g, 0, 15)
        ensures W1Fields32(W1Group32(g)) == g
      {
        W1Group32Fields(g);
      }
      DecodeEncode(p, 2, 1, W1Group32, W1Fields32, 0, 15, 128);
    }
  }
}
