/** The eta codec of src/poly.ts (`etapack`, `etaunpack`): each coefficient
    c of a secret polynomial is stored as the offset eta - c. For eta = 2
    eight 3-bit offsets go into 3 bytes; for eta = 4 two 4-bit offsets go
    into one byte. Any other eta is an error. */
module PackEta {
  import opened JsNumber
  import opened BitFields
  import opened Blocks
  import opened Outcomes
  import opened Polynomial

  /** Packed size of one polynomial: 96 bytes for eta = 2, 128 for eta = 4. */
  function EtaPackedBytes(eta: int): nat {
    if eta == 2 then 96 else 128
  }

  // ---------------------------------------------------------------------
  // Offsets

  /** `(eta - c) & 0xFF` stored into the Uint8Array `t`. */
  function Offset(eta: int, x: int): Byte {
    ToByte(And(eta - x, 0xFF))
  }

  function Offsets(eta: int, c: seq<int>): (t: seq<Byte>)
    ensures |t| == |c|
  {
    seq<Byte>(|c|, k requires 0 <= k < |c| => Offset(eta, c[k]))
  }

  lemma OffsetValue(eta: int, x: int)
    requires 0 <= eta - x < 256
    ensures Offset(eta, x) == eta - x
  {
    LowByteOf(eta - x);
    DivModUnique(eta - x, 256, 0, eta - x);
  }

  /** A coefficient in [-eta, eta] has offset eta - c, in [0, 2 * eta]. */
  lemma OffsetsValue(eta: int, c: seq<int>)
    requires 0 <= eta <= 127 && Within(c, -eta, eta)
    ensures forall k :: 0 <= k < |c| ==> Offsets(eta, c)[k] == eta - c[k]
    ensures Within(Offsets(eta, c), 0, 2 * eta)
  {
    forall k | 0 <= k < |c|
      ensures Offsets(eta, c)[k] == eta - c[k]
    {
      OffsetValue(eta, c[k]);
    }
  }

  // ---------------------------------------------------------------------
  // eta = 2: eight 3-bit offsets in three bytes

  function Eta2Byte(t: seq<int>, j: int): Byte
    requires |t| == 8 && 0 <= j < 3
  {
    if j == 0 then ToByte(And(Or(Or(Sar(t[0], 0), Shl(t[1], 3)), Shl(t[2], 6)), 0xFF))
    else if j == 1 then ToByte(And(Or(Or(Or(Sar(t[2], 2), Shl(t[3], 1)), Shl(t[4], 4)), Shl(t[5], 7)), 0xFF))
    else ToByte(And(Or(Or(Sar(t[5], 1), Shl(t[6], 2)), Shl(t[7], 5)), 0xFF))
  }

  function Eta2Bits(t: seq<int>): (r: seq<Byte>)
    requires |t| == 8
    ensures |r| == 3
  {
    seq<Byte>(3, j requires 0 <= j < 3 => Eta2Byte(t, j))
  }

  /** The group encoding of eight coefficients. */
  function Eta2Group(c: seq<int>): (r: seq<Byte>)
    requires |c| == 8
    ensures |r| == 3
  {
    Eta2Bits(Offsets(2, c))
  }

  /** The 3-bit field k of a 3-byte block. */
  function Eta2Field(b: seq<Byte>, k: int): int
    requires |b| == 3 && 0 <= k < 8
  {
    if k == 0 then And(Sar(Rd(b[0]), 0), 7)
    else if k == 1 then And(Sar(Rd(b[0]), 3), 7)
    else if k == 2 then And(Or(Sar(Rd(b[0]), 6), Shl(Rd(b[1]), 2)), 7)
    else if k == 3 then And(Sar(Rd(b[1]), 1), 7)
    else if k == 4 then And(Sar(Rd(b[1]), 4), 7)
    else if k == 5 then And(Or(Sar(Rd(b[1]), 7), Shl(Rd(b[2]), 1)), 7)
    else if k == 6 then And(Sar(Rd(b[2]), 2), 7)
    else And(Sar(Rd(b[2]), 5), 7)
  }

  /** The group decoding of a 3-byte block: eta minus each field. */
  function Eta2Ungroup(b: seq<Byte>): (r: seq<int>)
    requires |b| == 3
    ensures |r| == 8
  {
    seq(8, k requires 0 <= k < 8 => 2 - Eta2Field(b, k))
  }

  // The three bytes of eight 3-bit offsets.

  lemma Or01(t0: int, t1: int)
    requires 0 <= t0 < 8 && 0 <= t1 < 8
    ensures Or(Sar(t0, 0), Shl(t1, 3)) == t0 + t1 * 8
  {
    ShrZero(t0);
    OrShl(t0, t1, 3, 8);
  }

  lemma Bits0(t0: int, t1: int, t2: int)
    requires 0 <= t0 < 8 && 0 <= t1 < 8 && 0 <= t2 < 8
    ensures ToByte(And(Or(Or(Sar(t0, 0), Shl(t1, 3)), Shl(t2, 6)), 0xFF)) == t0 + t1 * 8 + (t2 % 4) * 64
  {
    Or01(t0, t1);
    JoinByte(t0 + t1 * 8, t2, 6, 2, 64, 4);
  }

  lemma Or23(t2: int, t3: int)
    requires 0 <= t2 < 8 && 0 <= t3 < 8
    ensures Or(Sar(t2, 2), Shl(t3, 1)) == t2 / 4 + t3 * 2 && 0 <= t2 / 4 + t3 * 2 < 16
  {
    Shr(t2, 2, 4);
    OrShl(t2 / 4, t3, 1, 2);
  }

  lemma Or234(x: int, t4: int)
    requires 0 <= x < 16 && 0 <= t4 < 8
    ensures Or(x, Shl(t4, 4)) == x + t4 * 16
  {
    OrShl(x, t4, 4, 16);
  }

  lemma Bits1(t2: int, t3: int, t4: int, t5: int)
    requires 0 <= t2 < 8 && 0 <= t3 < 8 && 0 <= t4 < 8 && 0 <= t5 < 8
    ensures ToByte(And(Or(Or(Or(Sar(t2, 2), Shl(t3, 1)), Shl(t4, 4)), Shl(t5, 7)), 0xFF))
         == t2 / 4 + t3 * 2 + t4 * 16 + (t5 % 2) * 128
  {
    Or23(t2, t3);
    Or234(t2 / 4 + t3 * 2, t4);
    JoinByte(t2 / 4 + t3 * 2 + t4 * 16, t5, 7, 1, 128, 2);
  }

  lemma Or56(t5: int, t6: int)
    requires 0 <= t5 < 8 && 0 <= t6 < 8
    ensures Or(Sar(t5, 1), Shl(t6, 2)) == t5 / 2 + t6 * 4 && 0 <= t5 / 2 + t6 * 4 < 32
  {
    Shr(t5, 1, 2);
    OrShl(t5 / 2, t6, 2, 4);
  }

  lemma Bits2(t5: int, t6: int, t7: int)
    requires 0 <= t5 < 8 && 0 <= t6 < 8 && 0 <= t7 < 8
    ensures ToByte(And(Or(Or(Sar(t5, 1), Shl(t6, 2)), Shl(t7, 5)), 0xFF)) == t5 / 2 + t6 * 4 + t7 * 32
  {
    Or56(t5, t6);
    JoinSmall(t5 / 2 + t6 * 4, t7, 5, 3, 32, 8);
  }

  lemma Eta2Bytes(t: seq<int>)
    requires |t| == 8 && Within(t, 0, 7)
    ensures Eta2Packed(t, Eta2Bits(t))
  {
    Bits0(t[0], t[1], t[2]);
    Bits1(t[2], t[3], t[4], t[5]);
    Bits2(t[5], t[6], t[7]);
  }

  // The eight fields of a block, as arithmetic.

  lemma Eta2Field0(b: seq<Byte>)
    requires |b| == 3
    ensures Eta2Ungroup(b)[0] == 2 - (b[0] as int) % 8
  {
    ReadBits(b[0], 0, 1, 3, 8);
  }

  lemma Eta2Field1(b: seq<Byte>)
    requires |b| == 3
    ensures Eta2Ungroup(b)[1] == 2 - ((b[0] as int) / 8) % 8
  {
    ReadBits(b[0], 3, 8, 3, 8);
  }

  lemma Eta2Field2(b: seq<Byte>)
    requires |b| == 3
    ensures Eta2Ungroup(b)[2] == 2 - (b[0] / 64 + (b[1] as int) * 4) % 8
  {
    ReadField2(b[0], b[1], 6, 2, 64, 4, 3, 8);
  }

  lemma Eta2Field3(b: seq<Byte>)
    requires |b| == 3
    ensures Eta2Ungroup(b)[3] == 2 - ((b[1] as int) / 2) % 8
  {
    ReadBits(b[1], 1, 2, 3, 8);
  }

  lemma Eta2Field4(b: seq<Byte>)
    requires |b| == 3
    ensures Eta2Ungroup(b)[4] == 2 - ((b[1] as int) / 16) % 8
  {
    ReadBits(b[1], 4, 16, 3, 8);
  }

  lemma Eta2Field5(b: seq<Byte>)
    requires |b| == 3
    ensures Eta2Ungroup(b)[5] == 2 - (b[1] / 128 + (b[2] as int) * 2) % 8
  {
    ReadField2(b[1], b[2], 7, 1, 128, 2, 3, 8);
  }

  lemma Eta2Field6(b: seq<Byte>)
    requires |b| == 3
    ensures Eta2Ungroup(b)[6] == 2 - ((b[2] as int) / 4) % 8
  {
    ReadBits(b[2], 2, 4, 3, 8);
  }

  lemma Eta2Field7(b: seq<Byte>)
    requires |b| == 3
    ensures Eta2Ungroup(b)[7] == 2 - ((b[2] as int) / 32) % 8
  {
    ReadBits(b[2], 5, 32, 3, 8);
  }

  /** Every decoded coefficient lies in [2 - 7, 2]. */
  lemma Eta2Range(b: seq<Byte>)
    requires |b| == 3
    ensures Within(Eta2Ungroup(b), -5, 2)
  {
    Eta2Field0(b);
    Eta2Field1(b);
    Eta2Field2(b);
    Eta2Field3(b);
    Eta2Field4(b);
    Eta2Field5(b);
    Eta2Field6(b);
    Eta2Field7(b);
  }

  // Each offset read back from the bytes the encoder wrote around it.

  lemma Eta2Back0(t0: int, t1: int, t2: int, b0: int)
    requires 0 <= t0 < 8 && 0 <= t1 < 8 && 0 <= t2 < 8
    requires b0 == t0 + t1 * 8 + (t2 % 4) * 64
    ensures b0 % 8 == t0
  {
    FieldAt(b0, 0, t0, t1 + (t2 % 4) * 8, 1, 8);
  }

  lemma Eta2Back1(t0: int, t1: int, t2: int, b0: int)
    requires 0 <= t0 < 8 && 0 <= t1 < 8 && 0 <= t2 < 8
    requires b0 == t0 + t1 * 8 + (t2 % 4) * 64
    ensures (b0 / 8) % 8 == t1
  {
    FieldAt(b0, t0, t1, t2 % 4, 8, 8);
  }

  lemma Eta2Back2(t0: int, t1: int, t2: int, t3: int, t4: int, t5: int, b0: int, b1: int)
    requires 0 <= t0 < 8 && 0 <= t1 < 8 && 0 <= t2 < 8 && 0 <= t3 < 8 && 0 <= t4 < 8 && 0 <= t5 < 8
    requires b0 == t0 + t1 * 8 + (t2 % 4) * 64
    requires b1 == t2 / 4 + t3 * 2 + t4 * 16 + (t5 % 2) * 128
    ensures (b0 / 64 + b1 * 4) % 8 == t2
  {
    FieldBack(t2, t0 + t1 * 8, t3 + t4 * 8 + (t5 % 2) * 64, b0, b1, 64, 4, 8);
  }

  lemma Eta2Back3(t2: int, t3: int, t4: int, t5: int, b1: int)
    requires 0 <= t2 < 8 && 0 <= t3 < 8 && 0 <= t4 < 8 && 0 <= t5 < 8
    requires b1 == t2 / 4 + t3 * 2 + t4 * 16 + (t5 % 2) * 128
    ensures (b1 / 2) % 8 == t3
  {
    FieldAt(b1, t2 / 4, t3, t4 + (t5 % 2) * 8, 2, 8);
  }

  lemma Eta2Back4(t2: int, t3: int, t4: int, t5: int, b1: int)
    requires 0 <= t2 < 8 && 0 <= t3 < 8 && 0 <= t4 < 8 && 0 <= t5 < 8
    requires b1 == t2 / 4 + t3 * 2 + t4 * 16 + (t5 % 2) * 128
    ensures (b1 / 16) % 8 == t4
  {
    FieldAt(b1, t2 / 4 + t3 * 2, t4, t5 % 2, 16, 8);
  }

  lemma Eta2Back5(t2: int, t3: int, t4: int, t5: int, t6: int, t7: int, b1: int, b2: int)
    requires 0 <= t2 < 8 && 0 <= t3 < 8 && 0 <= t4 < 8 && 0 <= t5 < 8 && 0 <= t6 < 8 && 0 <= t7 < 8
    requires b1 == t2 / 4 + t3 * 2 + t4 * 16 + (t5 % 2) * 128
    requires b2 == t5 / 2 + t6 * 4 + t7 * 32
    ensures (b1 / 128 + b2 * 2) % 8 == t5
  {
    FieldBack(t5, t2 / 4 + t3 * 2 + t4 * 16, t6 + t7 * 8, b1, b2, 128, 2, 8);
  }

  lemma Eta2Back6(t5: int, t6: int, t7: int, b2: int)
    requires 0 <= t5 < 8 && 0 <= t6 < 8 && 0 <= t7 < 8
    requires b2 == t5 / 2 + t6 * 4 + t7 * 32
    ensures (b2 / 4) % 8 == t6
  {
    FieldAt(b2, t5 / 2, t6, t7, 4, 8);
  }

  lemma Eta2Back7(t5: int, t6: int, t7: int, b2: int)
    requires 0 <= t5 < 8 && 0 <= t6 < 8 && 0 <= t7 < 8
    requires b2 == t5 / 2 + t6 * 4 + t7 * 32
    ensures (b2 / 32) % 8 == t7
  {
    FieldAt(b2, t5 / 2 + t6 * 4, t7, 0, 32, 8);
  }

  /** The bytes `Eta2Byte0` .. `Eta2Byte2` state for offsets t. */
  predicate Eta2Packed(t: seq<int>, b: seq<Byte>)
    requires |t| == 8 && |b| == 3
  {
    && b[0] == t[0] + t[1] * 8 + (t[2] % 4) * 64
    && b[1] == t[2] / 4 + t[3] * 2 + t[4] * 16 + (t[5] % 2) * 128
    && b[2] == t[5] / 2 + t[6] * 4 + t[7] * 32
  }

  lemma Eta2Recover0(t: seq<int>, b: seq<Byte>)
    requires |t| == 8 && Within(t, 0, 7) && |b| == 3 && Eta2Packed(t, b)
    ensures Eta2Ungroup(b)[0] == 2 - t[0] && Eta2Ungroup(b)[1] == 2 - t[1]
  {
    Eta2Field0(b);
    Eta2Field1(b);
    Eta2Back0(t[0], t[1], t[2], b[0]);
    Eta2Back1(t[0], t[1], t[2], b[0]);
  }

  lemma Eta2Recover2(t: seq<int>, b: seq<Byte>)
    requires |t| == 8 && Within(t, 0, 7) && |b| == 3 && Eta2Packed(t, b)
    ensures Eta2Ungroup(b)[2] == 2 - t[2]
  {
    Eta2Field2(b);
    Eta2Back2(t[0], t[1], t[2], t[3], t[4], t[5], b[0], b[1]);
  }

  lemma Eta2Recover3(t: seq<int>, b: seq<Byte>)
    requires |t| == 8 && Within(t, 0, 7) && |b| == 3 && Eta2Packed(t, b)
    ensures Eta2Ungroup(b)[3] == 2 - t[3] && Eta2Ungroup(b)[4] == 2 - t[4]
  {
    Eta2Field3(b);
    Eta2Field4(b);
    Eta2Back3(t[2], t[3], t[4], t[5], b[1]);
    Eta2Back4(t[2], t[3], t[4], t[5], b[1]);
  }

  lemma Eta2Recover5(t: seq<int>, b: seq<Byte>)
    requires |t| == 8 && Within(t, 0, 7) && |b| == 3 && Eta2Packed(t, b)
    ensures Eta2Ungroup(b)[5] == 2 - t[5]
  {
    Eta2Field5(b);
    Eta2Back5(t[2], t[3], t[4], t[5], t[6], t[7], b[1], b[2]);
  }

  lemma Eta2Recover6(t: seq<int>, b: seq<Byte>)
    requires |t| == 8 && Within(t, 0, 7) && |b| == 3 && Eta2Packed(t, b)
    ensures Eta2Ungroup(b)[6] == 2 - t[6] && Eta2Ungroup(b)[7] == 2 - t[7]
  {
    Eta2Field6(b);
    Eta2Field7(b);
    Eta2Back6(t[5], t[6], t[7], b[2]);
    Eta2Back7(t[5], t[6], t[7], b[2]);
  }

  /** The coefficients decoded from the bytes the encoder writes for the
      offsets t of c are c. */
  lemma Eta2Recover(c: seq<int>, t: seq<int>, b: seq<Byte>)
    requires |c| == 8 && |t| == 8 && Within(t, 0, 7) && |b| == 3 && Eta2Packed(t, b)
    requires t[0] == 2 - c[0] && t[1] == 2 - c[1] && t[2] == 2 - c[2] && t[3] == 2 - c[3]
    requires t[4] == 2 - c[4] && t[5] == 2 - c[5] && t[6] == 2 - c[6] && t[7] == 2 - c[7]
    ensures Eta2Ungroup(b) == c
  {
    var d := Eta2Ungroup(b);
    assert d[0] == c[0] && d[1] == c[1] by { Eta2Recover0(t, b); }
    assert d[2] == c[2] by { Eta2Recover2(t, b); }
    assert d[3] == c[3] && d[4] == c[4] by { Eta2Recover3(t, b); }
    assert d[5] == c[5] by { Eta2Recover5(t, b); }
    assert d[6] == c[6] && d[7] == c[7] by { Eta2Recover6(t, b); }
    Same8(d, c);
  }

  /** Eight coefficients in [-2, 2] survive their 3-byte encoding. */
  lemma Eta2GroupRoundTrip(c: seq<int>)
    requires |c| == 8 && Within(c, -2, 2)
    ensures Eta2Ungroup(Eta2Group(c)) == c
  {
    var t := Offsets(2, c);
    OffsetsValue(2, c);
    Eta2Bytes(t);
    Eta2Recover(c, t, Eta2Bits(t));
  }

  // ---------------------------------------------------------------------
  // eta = 4: two 4-bit offsets in one byte

  function Eta4Group(c: seq<int>): (r: seq<Byte>)
    requires |c| == 2
    ensures |r| == 1
  {
    var t := Offsets(4, c);
    [ToByte(And(Or(t[0], Shl(t[1], 4)), 0xFF))]
  }

  function Eta4Ungroup(b: seq<Byte>): (r: seq<int>)
    requires |b| == 1
    ensures |r| == 2
  {
    [4 - And(Rd(b[0]), 0x0F), 4 - Sar(Rd(b[0]), 4)]
  }

  lemma Eta4Byte(c: seq<int>)
    requires |c| == 2 && Within(c, -4, 4)
    ensures Eta4Group(c)[0] == (4 - c[0]) + (4 - c[1]) * 16
  {
    OffsetsValue(4, c);
    var t := Offsets(4, c);
    JoinSmall(t[0], t[1], 4, 4, 16, 16);
  }

  lemma Eta4Fields(b: seq<Byte>)
    requires |b| == 1
    ensures Eta4Ungroup(b) == [4 - (b[0] as int) % 16, 4 - (b[0] as int) / 16]
    ensures Within(Eta4Ungroup(b), -11, 4)
  {
    Mask(b[0], 4, 16);
    Shr(b[0], 4, 16);
    DivBelow(b[0], 16, 16);
  }

  /** Two coefficients in [-4, 4] survive their 1-byte encoding. */
  lemma Eta4GroupRoundTrip(c: seq<int>)
    requires |c| == 2 && Within(c, -4, 4)
    ensures Eta4Ungroup(Eta4Group(c)) == c
  {
    var b := Eta4Group(c);
    Eta4Byte(c);
    Eta4Fields(b);
    DivModUnique(b[0], 16, 4 - c[1], 4 - c[0]);
  }

  // ---------------------------------------------------------------------
  // Whole polynomials

  lemma Codec()
    ensures Encodes(8, 3, Eta2Group) && Decodes(3, 8, Eta2Ungroup)
    ensures Encodes(2, 1, Eta4Group) && Decodes(1, 2, Eta4Ungroup)
  {
  }

  /** The encoding of p for a supported eta. */
  function EtaBytes(eta: int, p: Poly): (b: seq<Byte>)
    requires eta == 2 || eta == 4
    ensures |b| == EtaPackedBytes(eta)
  {
    Codec();
    if eta == 2 then
      EncodeLength(p, 8, 3, Eta2Group, 32);
      EncodeGroups(p, 8, 3, Eta2Group)
    else
      EncodeLength(p, 2, 1, Eta4Group, 128);
      EncodeGroups(p, 2, 1, Eta4Group)
  }

  /** `p.etapack(eta, buf, off)`: the encoding stored at off, or the error
      the source throws for an eta other than 2 and 4. */
  function EtaPack(eta: int, p: Poly, buf: seq<Byte>, off: int): (r: Result<seq<Byte>>)
    ensures r.Success? <==> eta == 2 || eta == 4
    ensures r.Failure? ==> r.error == IllegalEta(eta)
    ensures r.Success? ==> |r.value| == |buf|
  {
    if eta == 2 || eta == 4 then Success(WriteAt(buf, off, EtaBytes(eta, p)))
    else Failure(IllegalEta(eta))
  }

  /** `Polynomium.etaunpack(eta, bytes, off)`. The decoder does not check
      that the offsets it reads are at most 2 * eta, so its coefficients
      lie in [eta - 7, eta] or [eta - 15, eta]. */
  function EtaUnpack(eta: int, bytes: seq<Byte>, off: int): (r: Result<Poly>)
    ensures r.Success? <==> eta == 2 || eta == 4
    ensures r.Failure? ==> r.error == UnknownEta(eta)
    ensures r.Success? && eta == 2 ==> Within(r.value, -5, 2)
    ensures r.Success? && eta == 4 ==> Within(r.value, -11, 4)
  {
    Codec();
    if eta == 2 then
      var blk := ReadBlock(bytes, off, 96);
      DecodeLength(blk, 3, 8, Eta2Ungroup, 32);
      forall g | |g| == 3
        ensures Within(Eta2Ungroup(g), -5, 2)
      {
        Eta2Range(g);
      }
      DecodeWithin(blk, 3, 8, Eta2Ungroup, -5, 2);
      Success(DecodeGroups(blk, 3, 8, Eta2Ungroup))
    else if eta == 4 then
      var blk := ReadBlock(bytes, off, 128);
      DecodeLength(blk, 1, 2, Eta4Ungroup, 128);
      forall g | |g| == 1
        ensures Within(Eta4Ungroup(g), -11, 4)
      {
        Eta4Fields(g);
      }
      DecodeWithin(blk, 1, 2, Eta4Ungroup, -11, 4);
      Success(DecodeGroups(blk, 1, 2, Eta4Ungroup))
    else
      Failure(UnknownEta(eta))
  }

  /** Packing a polynomial with coefficients in [-eta, eta] and unpacking
      it gives it back, and packing writes nothing outside its bytes. */
  lemma EtaRoundTrip(eta: int, p: Poly, buf: seq<Byte>, off: int)
    requires (eta == 2 || eta == 4) && Within(p, -eta, eta)
    requires 0 <= off && off + EtaPackedBytes(eta) <= |buf|
    ensures EtaPack(eta, p, buf, off).Success?
    ensures EtaUnpack(eta, EtaPack(eta, p, buf, off).value, off) == Success(p)
    ensures forall i :: 0 <= i < |buf| && !(off <= i < off + EtaPackedBytes(eta)) ==>
              EtaPack(eta, p, buf, off).value[i] == buf[i]
  {
    Codec();
    var e := EtaBytes(eta, p);
    ReadWritten(buf, off, e);
    if eta == 2 {
      forall g | |g| == 8 && Within(g, -2, 2)
        ensures Eta2Ungroup(Eta2Group(g)) == g
      {
        Eta2GroupRoundTrip(g);
      }
      DecodeEncode(p, 8, 3, Eta2Group, Eta2Ungroup, -2, 2, 32);
    } else {
      forall g | |g| == 2 && Within(g, -4, 4)
        ensures Eta4Ungroup(Eta4Group(g)) == g
      {
        Eta4GroupRoundTrip(g);
      }
      DecodeEncode(p, 2, 1, Eta4Group, Eta4Ungroup, -4, 4, 128);
    }
  }
}
