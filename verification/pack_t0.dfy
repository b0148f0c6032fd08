/** The t0 codec of src/poly.ts (`t0pack`, `t0unpack`): every coefficient c
    of the low part t0 of the public vector t is stored as the 13-bit offset
    2^12 - c, and every 8 offsets go into 13 bytes.

    The packer keeps the offsets of a group in a Uint8Array, so each offset
    loses all but its low eight bits before it is split into bytes. The
    corrected packer `T0Pack` keeps the full 13 bits; `T0PackAsWritten`
    is the packer as the source writes it. */
module PackT0 {
  import opened JsNumber
  import opened BitFields
  import opened Blocks
  import opened Params
  import opened Polynomial

  /** `1 << (D - 1)`, the centre of the 13-bit offset range. */
  const HALF: int := 4096

  // ---------------------------------------------------------------------
  // Offsets to bytes and back

  // The thirteen bytes written for eight offsets t; `buf[i] |= v` is `OrStore`.

  function T0Byte0(t: seq<int>): Byte requires |t| == 8 {
    ToByte(And(t[0], 0xFF))
  }

  function T0Byte1(t: seq<int>): Byte requires |t| == 8 {
    OrStore(ToByte(And(Sar(t[0], 8), 0xFF)), And(Shl(t[1], 5), 0xFF))
  }

  function T0Byte2(t: seq<int>): Byte requires |t| == 8 {
    ToByte(And(Sar(t[1], 3), 0xFF))
  }

  function T0Byte3(t: seq<int>): Byte requires |t| == 8 {
    OrStore(ToByte(And(Sar(t[1], 11), 0xFF)), And(Shl(t[2], 2), 0xFF))
  }

  function T0Byte4(t: seq<int>): Byte requires |t| == 8 {
    OrStore(ToByte(And(Sar(t[2], 6), 0xFF)), And(Shl(t[3], 7), 0xFF))
  }

  function T0Byte5(t: seq<int>): Byte requires |t| == 8 {
    ToByte(And(Sar(t[3], 1), 0xFF))
  }

  function T0Byte6(t: seq<int>): Byte requires |t| == 8 {
    OrStore(ToByte(And(Sar(t[3], 9), 0xFF)), And(Shl(t[4], 4), 0xFF))
  }

  function T0Byte7(t: seq<int>): Byte requires |t| == 8 {
    ToByte(And(Sar(t[4], 4), 0xFF))
  }

  function T0Byte8(t: seq<int>): Byte requires |t| == 8 {
    OrStore(ToByte(And(Sar(t[4], 12), 0xFF)), And(Shl(t[5], 1), 0xFF))
  }

  function T0Byte9(t: seq<int>): Byte requires |t| == 8 {
    OrStore(ToByte(And(Sar(t[5], 7), 0xFF)), And(Shl(t[6], 6), 0xFF))
  }

  function T0Byte10(t: seq<int>): Byte requires |t| == 8 {
    ToByte(And(Sar(t[6], 2), 0xFF))
  }

  function T0Byte11(t: seq<int>): Byte requires |t| == 8 {
    OrStore(ToByte(And(Sar(t[6], 10), 0xFF)), And(Shl(t[7], 3), 0xFF))
  }

  function T0Byte12(t: seq<int>): Byte requires |t| == 8 {
    ToByte(And(Sar(t[7], 5), 0xFF))
  }

  function T0Bits(t: seq<int>): (r: seq<Byte>)
    requires |t| == 8
    ensures |r| == 13
  {
    [T0Byte0(t), T0Byte1(t), T0Byte2(t), T0Byte3(t), T0Byte4(t), T0Byte5(t), T0Byte6(t),
     T0Byte7(t), T0Byte8(t), T0Byte9(t), T0Byte10(t), T0Byte11(t), T0Byte12(t)]
  }

  // The 13-bit fields of a 13-byte block, each built up with `|=` and masked.

  function T0Field0(b: seq<Byte>): int requires |b| == 13 {
    And(Or(Rd(b[0]), Shl(Rd(b[1]), 8)), 0x1FFF)
  }

  function T0Field1(b: seq<Byte>): int requires |b| == 13 {
    And(Or(Or(Sar(Rd(b[1]), 5), Shl(Rd(b[2]), 3)), Shl(Rd(b[3]), 11)), 0x1FFF)
  }

  function T0Field2(b: seq<Byte>): int requires |b| == 13 {
    And(Or(Sar(Rd(b[3]), 2), Shl(Rd(b[4]), 6)), 0x1FFF)
  }

  function T0Field3(b: seq<Byte>): int requires |b| == 13 {
    And(Or(Or(Sar(Rd(b[4]), 7), Shl(Rd(b[5]), 1)), Shl(Rd(b[6]), 9)), 0x1FFF)
  }

  function T0Field4(b: seq<Byte>): int requires |b| == 13 {
    And(Or(Or(Sar(Rd(b[6]), 4), Shl(Rd(b[7]), 4)), Shl(Rd(b[8]), 12)), 0x1FFF)
  }

  function T0Field5(b: seq<Byte>): int requires |b| == 13 {
    And(Or(Sar(Rd(b[8]), 1), Shl(Rd(b[9]), 7)), 0x1FFF)
  }

  function T0Field6(b: seq<Byte>): int requires |b| == 13 {
    And(Or(Or(Sar(Rd(b[9]), 6), Shl(Rd(b[10]), 2)), Shl(Rd(b[11]), 10)), 0x1FFF)
  }

  function T0Field7(b: seq<Byte>): int requires |b| == 13 {
    And(Or(Sar(Rd(b[11]), 3), Shl(Rd(b[12]), 5)), 0x1FFF)
  }

  /** `Polynomium.t0unpack` on one 13-byte block. */
  function T0Ungroup(b: seq<Byte>): (r: seq<int>)
    requires |b| == 13
    ensures |r| == 8
  {
    [HALF - T0Field0(b), HALF - T0Field1(b), HALF - T0Field2(b), HALF - T0Field3(b),
     HALF - T0Field4(b), HALF - T0Field5(b), HALF - T0Field6(b), HALF - T0Field7(b)]
  }

  // ---------------------------------------------------------------------
  // The thirteen bytes of eight 13-bit offsets

  lemma Low0(t0: int)
    requires 0 <= t0 < 8192
    ensures ToByte(And(t0, 0xFF)) == t0 % 256
  {
    LowByteOf(t0);
  }

  lemma Mid(t: int, s: nat, p: int)
    requires 0 <= t < 8192 && s < 32 && p == Pow2(s)
    ensures ToByte(And(Sar(t, s), 0xFF)) == (t / p) % 256
  {
    ByteAtBit(t, s, p);
  }

  // Each shared byte: the top bits of one offset below the low bits of the next.

  lemma Join1(t: int, u: int)
    requires 0 <= t < 8192 && 0 <= u < 8192
    ensures OrStore(ToByte(And(Sar(t, 8), 0xFF)), And(Shl(u, 5), 0xFF)) == t / 256 + (u % 8) * 32
  {
    TopByte(t, 8, 256);
    DivBelow(t, 256, 32);
    OrStoreShl(t / 256, u, 5, 3, 32, 8);
  }

  lemma Join3(t: int, u: int)
    requires 0 <= t < 8192 && 0 <= u < 8192
    ensures OrStore(ToByte(And(Sar(t, 11), 0xFF)), And(Shl(u, 2), 0xFF)) == t / 2048 + (u % 64) * 4
  {
    TopByte(t, 11, 2048);
    DivBelow(t, 2048, 4);
    OrStoreShl(t / 2048, u, 2, 6, 4, 64);
  }

  lemma Join4(t: int, u: int)
    requires 0 <= t < 8192 && 0 <= u < 8192
    ensures OrStore(ToByte(And(Sar(t, 6), 0xFF)), And(Shl(u, 7), 0xFF)) == t / 64 + (u % 2) * 128
  {
    TopByte(t, 6, 64);
    DivBelow(t, 64, 128);
    OrStoreShl(t / 64, u, 7, 1, 128, 2);
  }

  lemma Join6(t: int, u: int)
    requires 0 <= t < 8192 && 0 <= u < 8192
    ensures OrStore(ToByte(And(Sar(t, 9), 0xFF)), And(Shl(u, 4), 0xFF)) == t / 512 + (u % 16) * 16
  {
    TopByte(t, 9, 512);
    DivBelow(t, 512, 16);
    OrStoreShl(t / 512, u, 4, 4, 16, 16);
  }

  lemma Join8(t: int, u: int)
    requires 0 <= t < 8192 && 0 <= u < 8192
    ensures OrStore(ToByte(And(Sar(t, 12), 0xFF)), And(Shl(u, 1), 0xFF)) == t / 4096 + (u % 128) * 2
  {
    TopByte(t, 12, 4096);
    DivBelow(t, 4096, 2);
    OrStoreShl(t / 4096, u, 1, 7, 2, 128);
  }

  lemma Join9(t: int, u: int)
    requires 0 <= t < 8192 && 0 <= u < 8192
    ensures OrStore(ToByte(And(Sar(t, 7), 0xFF)), And(Shl(u, 6), 0xFF)) == t / 128 + (u % 4) * 64
  {
    TopByte(t, 7, 128);
    DivBelow(t, 128, 64);
    OrStoreShl(t / 128, u, 6, 2, 64, 4);
  }

  lemma Join11(t: int, u: int)
    requires 0 <= t < 8192 && 0 <= u < 8192
    ensures OrStore(ToByte(And(Sar(t, 10), 0xFF)), And(Shl(u, 3), 0xFF)) == t / 1024 + (u % 32) * 8
  {
    TopByte(t, 10, 1024);
    DivBelow(t, 1024, 8);
    OrStoreShl(t / 1024, u, 3, 5, 8, 32);
  }

  lemma Top12(t7: int)
    requires 0 <= t7 < 8192
    ensures ToByte(And(Sar(t7, 5), 0xFF)) == t7 / 32
  {
    TopByte(t7, 5, 32);
  }

  /** The bytes `T0Bits` writes for offsets of 13 bits. */
  predicate T0Packed(t: seq<int>, b: seq<Byte>)
    requires |t| == 8 && |b| == 13
  {
    && b[0] == t[0] % 256
    && b[1] == t[0] / 256 + (t[1] % 8) * 32
    && b[2] == (t[1] / 8) % 256
    && b[3] == t[1] / 2048 + (t[2] % 64) * 4
    && b[4] == t[2] / 64 + (t[3] % 2) * 128
    && b[5] == (t[3] / 2) % 256
    && b[6] == t[3] / 512 + (t[4] % 16) * 16
    && b[7] == (t[4] / 16) % 256
    && b[8] == t[4] / 4096 + (t[5] % 128) * 2
    && b[9] == t[5] / 128 + (t[6] % 4) * 64
    && b[10] == (t[6] / 4) % 256
    && b[11] == t[6] / 1024 + (t[7] % 32) * 8
    && b[12] == t[7] / 32
  }

  lemma T0Bytes(t: seq<int>)
    requires |t| == 8 && Within(t, 0, 8191)
    ensures T0Packed(t, T0Bits(t))
  {
    var b := T0Bits(t);
    assert b[0] == t[0] % 256 by { Low0(t[0]); }
    assert b[1] == t[0] / 256 + (t[1] % 8) * 32 by { Join1(t[0], t[1]); }
    assert b[2] == (t[1] / 8) % 256 by { Mid(t[1], 3, 8); }
    assert b[3] == t[1] / 2048 + (t[2] % 64) * 4 by { Join3(t[1], t[2]); }
    assert b[4] == t[2] / 64 + (t[3] % 2) * 128 by { Join4(t[2], t[3]); }
    assert b[5] == (t[3] / 2) % 256 by { Mid(t[3], 1, 2); }
    assert b[6] == t[3] / 512 + (t[4] % 16) * 16 by { Join6(t[3], t[4]); }
    assert b[7] == (t[4] / 16) % 256 by { Mid(t[4], 4, 16); }
    assert b[8] == t[4] / 4096 + (t[5] % 128) * 2 by { Join8(t[4], t[5]); }
    assert b[9] == t[5] / 128 + (t[6] % 4) * 64 by { Join9(t[5], t[6]); }
    assert b[10] == (t[6] / 4) % 256 by { Mid(t[6], 2, 4); }
    assert b[11] == t[6] / 1024 + (t[7] % 32) * 8 by { Join11(t[6], t[7]); }
    assert b[12] == t[7] / 32 by { Top12(t[7]); }
  }

  // ---------------------------------------------------------------------
  // The eight fields of a block, as arithmetic

  lemma FieldValue0(b: seq<Byte>)
    requires |b| == 13
    ensures T0Field0(b) == (b[0] + (b[1] as int) * 256) % 8192
  {
    Field2(Rd(b[0]), b[1], 8, 256, 13, 8192);
  }

  lemma FieldValue1(b: seq<Byte>)
    requires |b| == 13
    ensures T0Field1(b) == (b[1] / 32 + (b[2] as int) * 8 + (b[3] as int) * 2048) % 8192
  {
    FieldValue1Shape();
    ReadField3(b[1], b[2], b[3], 5, 3, 11, 32, 8, 2048, 13, 8192);
  }

  lemma FieldValue1Shape()
    ensures Read3Shape(5, 3, 11, 32, 8, 2048, 13, 8192)
  {
  }

  lemma FieldValue2(b: seq<Byte>)
    requires |b| == 13
    ensures T0Field2(b) == (b[3] / 4 + (b[4] as int) * 64) % 8192
  {
    ReadField2(b[3], b[4], 2, 6, 4, 64, 13, 8192);
  }

  lemma FieldValue3(b: seq<Byte>)
    requires |b| == 13
    ensures T0Field3(b) == (b[4] / 128 + (b[5] as int) * 2 + (b[6] as int) * 512) % 8192
  {
    FieldValue3Shape();
    ReadField3(b[4], b[5], b[6], 7, 1, 9, 128, 2, 512, 13, 8192);
  }

  lemma FieldValue3Shape()
    ensures Read3Shape(7, 1, 9, 128, 2, 512, 13, 8192)
  {
  }

  lemma FieldValue4(b: seq<Byte>)
    requires |b| == 13
    ensures T0Field4(b) == (b[6] / 16 + (b[7] as int) * 16 + (b[8] as int) * 4096) % 8192
  {
    FieldValue4Shape();
    ReadField3(b[6], b[7], b[8], 4, 4, 12, 16, 16, 4096, 13, 8192);
  }

  lemma FieldValue4Shape()
    ensures Read3Shape(4, 4, 12, 16, 16, 4096, 13, 8192)
  {
  }

  lemma FieldValue5(b: seq<Byte>)
    requires |b| == 13
    ensures T0Field5(b) == (b[8] / 2 + (b[9] as int) * 128) % 8192
  {
    ReadField2(b[8], b[9], 1, 7, 2, 128, 13, 8192);
  }

  lemma FieldValue6(b: seq<Byte>)
    requires |b| == 13
    ensures T0Field6(b) == (b[9] / 64 + (b[10] as int) * 4 + (b[11] as int) * 1024) % 8192
  {
    FieldValue6Shape();
    ReadField3(b[9], b[10], b[11], 6, 2, 10, 64, 4, 1024, 13, 8192);
  }

  lemma FieldValue6Shape()
    ensures Read3Shape(6, 2, 10, 64, 4, 1024, 13, 8192)
  {
  }

  lemma FieldValue7(b: seq<Byte>)
    requires |b| == 13
    ensures T0Field7(b) == (b[11] / 8 + (b[12] as int) * 32) % 8192
  {
    ReadField2(b[11], b[12], 3, 5, 8, 32, 13, 8192);
  }

  /** Every decoded coefficient lies in [2^12 - (2^13 - 1), 2^12]. */
  lemma T0Range(b: seq<Byte>)
    requires |b| == 13
    ensures Within(T0Ungroup(b), -4095, 4096)
  {
    FieldValue0(b);
    FieldValue1(b);
    FieldValue2(b);
    FieldValue3(b);
    FieldValue4(b);
    FieldValue5(b);
    FieldValue6(b);
    FieldValue7(b);
  }

  // ---------------------------------------------------------------------
  // Each offset read back from the bytes written around it

  lemma Back0(t0: int, t1: int, b0: int, b1: int)
    requires 0 <= t0 < 8192 && 0 <= t1 < 8192
    requires b0 == t0 % 256 && b1 == t0 / 256 + (t1 % 8) * 32
    ensures (b0 + b1 * 256) % 8192 == t0
  {
    FieldBack(t0, 0, t1 % 8, b0, b1, 1, 256, 8192);
  }

  lemma Back1(t0: int, t1: int, t2: int, b1: int, b2: int, b3: int)
    requires 0 <= t0 < 8192 && 0 <= t1 < 8192 && 0 <= t2 < 8192
    requires b1 == t0 / 256 + (t1 % 8) * 32 && b2 == (t1 / 8) % 256 && b3 == t1 / 2048 + (t2 % 64) * 4
    ensures (b1 / 32 + b2 * 8 + b3 * 2048) % 8192 == t1
  {
    DivBelow(t0, 256, 32);
    FieldBack3(t1, t0 / 256, t2 % 64, b1, b2, b3, 32, 8, 2048, 8192);
  }

  lemma Back2(t1: int, t2: int, t3: int, b3: int, b4: int)
    requires 0 <= t1 < 8192 && 0 <= t2 < 8192 && 0 <= t3 < 8192
    requires b3 == t1 / 2048 + (t2 % 64) * 4 && b4 == t2 / 64 + (t3 % 2) * 128
    ensures (b3 / 4 + b4 * 64) % 8192 == t2
  {
    DivBelow(t1, 2048, 4);
    FieldBack(t2, t1 / 2048, t3 % 2, b3, b4, 4, 64, 8192);
  }

  lemma Back3(t2: int, t3: int, t4: int, b4: int, b5: int, b6: int)
    requires 0 <= t2 < 8192 && 0 <= t3 < 8192 && 0 <= t4 < 8192
    requires b4 == t2 / 64 + (t3 % 2) * 128 && b5 == (t3 / 2) % 256 && b6 == t3 / 512 + (t4 % 16) * 16
    ensures (b4 / 128 + b5 * 2 + b6 * 512) % 8192 == t3
  {
    DivBelow(t2, 64, 128);
    FieldBack3(t3, t2 / 64, t4 % 16, b4, b5, b6, 128, 2, 512, 8192);
  }

  lemma Back4(t3: int, t4: int, t5: int, b6: int, b7: int, b8: int)
    requires 0 <= t3 < 8192 && 0 <= t4 < 8192 && 0 <= t5 < 8192
    requires b6 == t3 / 512 + (t4 % 16) * 16 && b7 == (t4 / 16) % 256 && b8 == t4 / 4096 + (t5 % 128) * 2
    ensures (b6 / 16 + b7 * 16 + b8 * 4096) % 8192 == t4
  {
    DivBelow(t3, 512, 16);
    FieldBack3(t4, t3 / 512, t5 % 128, b6, b7, b8, 16, 16, 4096, 8192);
  }

  lemma Back5(t4: int, t5: int, t6: int, b8: int, b9: int)
    requires 0 <= t4 < 8192 && 0 <= t5 < 8192 && 0 <= t6 < 8192
    requires b8 == t4 / 4096 + (t5 % 128) * 2 && b9 == t5 / 128 + (t6 % 4) * 64
    ensures (b8 / 2 + b9 * 128) % 8192 == t5
  {
    DivBelow(t4, 4096, 2);
    FieldBack(t5, t4 / 4096, t6 % 4, b8, b9, 2, 128, 8192);
  }

  lemma Back6(t5: int, t6: int, t7: int, b9: int, b10: int, b11: int)
    requires 0 <= t5 < 8192 && 0 <= t6 < 8192 && 0 <= t7 < 8192
    requires b9 == t5 / 128 + (t6 % 4) * 64 && b10 == (t6 / 4) % 256 && b11 == t6 / 1024 + (t7 % 32) * 8
    ensures (b9 / 64 + b10 * 4 + b11 * 1024) % 8192 == t6
  {
    DivBelow(t5, 128, 64);
    FieldBack3(t6, t5 / 128, t7 % 32, b9, b10, b11, 64, 4, 1024, 8192);
  }

  lemma Back7(t6: int, t7: int, b11: int, b12: int)
    requires 0 <= t6 < 8192 && 0 <= t7 < 8192
    requires b11 == t6 / 1024 + (t7 % 32) * 8 && b12 == t7 / 32
    ensures (b11 / 8 + b12 * 32) % 8192 == t7
  {
    DivBelow(t6, 1024, 8);
    FieldBack(t7, t6 / 1024, 0, b11, b12, 8, 32, 8192);
  }

  lemma Recover0(t: seq<int>, b: seq<Byte>)
    requires |t| == 8 && Within(t, 0, 8191) && |b| == 13
    requires b[0] == t[0] % 256 && b[1] == t[0] / 256 + (t[1] % 8) * 32
    ensures T0Field0(b) == t[0]
  {
    FieldValue0(b);
    Back0(t[0], t[1], b[0], b[1]);
  }

  lemma Recover1(t: seq<int>, b: seq<Byte>)
    requires |t| == 8 && Within(t, 0, 8191) && |b| == 13
    requires b[1] == t[0] / 256 + (t[1] % 8) * 32 && b[2] == (t[1] / 8) % 256
    requires b[3] == t[1] / 2048 + (t[2] % 64) * 4
    ensures T0Field1(b) == t[1]
  {
    FieldValue1(b);
    Back1(t[0], t[1], t[2], b[1], b[2], b[3]);
  }

  lemma Recover2(t: seq<int>, b: seq<Byte>)
    requires |t| == 8 && Within(t, 0, 8191) && |b| == 13
    requires b[3] == t[1] / 2048 + (t[2] % 64) * 4 && b[4] == t[2] / 64 + (t[3] % 2) * 128
    ensures T0Field2(b) == t[2]
  {
    FieldValue2(b);
    Back2(t[1], t[2], t[3], b[3], b[4]);
  }

  lemma Recover3(t: seq<int>, b: seq<Byte>)
    requires |t| == 8 && Within(t, 0, 8191) && |b| == 13
    requires b[4] == t[2] / 64 + (t[3] % 2) * 128 && b[5] == (t[3] / 2) % 256
    requires b[6] == t[3] / 512 + (t[4] % 16) * 16
    ensures T0Field3(b) == t[3]
  {
    FieldValue3(b);
    Back3(t[2], t[3], t[4], b[4], b[5], b[6]);
  }

  lemma Recover4(t: seq<int>, b: seq<Byte>)
    requires |t| == 8 && Within(t, 0, 8191) && |b| == 13
    requires b[6] == t[3] / 512 + (t[4] % 16) * 16 && b[7] == (t[4] / 16) % 256
    requires b[8] == t[4] / 4096 + (t[5] % 128) * 2
    ensures T0Field4(b) == t[4]
  {
    FieldValue4(b);
    Back4(t[3], t[4], t[5], b[6], b[7], b[8]);
  }

  lemma Recover5(t: seq<int>, b: seq<Byte>)
    requires |t| == 8 && Within(t, 0, 8191) && |b| == 13
    requires b[8] == t[4] / 4096 + (t[5] % 128) * 2 && b[9] == t[5] / 128 + (t[6] % 4) * 64
    ensures T0Field5(b) == t[5]
  {
    FieldValue5(b);
    Back5(t[4], t[5], t[6], b[8], b[9]);
  }

  lemma Recover6(t: seq<int>, b: seq<Byte>)
    requires |t| == 8 && Within(t, 0, 8191) && |b| == 13
    requires b[9] == t[5] / 128 + (t[6] % 4) * 64 && b[10] == (t[6] / 4) % 256
    requires b[11] == t[6] / 1024 + (t[7] % 32) * 8
    ensures T0Field6(b) == t[6]
  {
    FieldValue6(b);
    Back6(t[5], t[6], t[7], b[9], b[10], b[11]);
  }

  lemma Recover7(t: seq<int>, b: seq<Byte>)
    requires |t| == 8 && Within(t, 0, 8191) && |b| == 13
    requires b[11] == t[6] / 1024 + (t[7] % 32) * 8 && b[12] == t[7] / 32
    ensures T0Field7(b) == t[7]
  {
    FieldValue7(b);
    Back7(t[6], t[7], b[11], b[12]);
  }

  lemma Recover(t: seq<int>, b: seq<Byte>)
    requires |t| == 8 && Within(t, 0, 8191) && |b| == 13 && T0Packed(t, b)
    ensures forall k :: 0 <= k < 8 ==> T0Ungroup(b)[k] == HALF - t[k]
  {
    Recover0(t, b);
    Recover1(t, b);
    Recover2(t, b);
    Recover3(t, b);
    Recover4(t, b);
    Recover5(t, b);
    Recover6(t, b);
    Recover7(t, b);
  }

  /** Eight 13-bit offsets survive the byte layout: decoding gives back
      2^12 minus each offset. */
  lemma OffsetRoundTrip(t: seq<int>)
    requires |t| == 8 && Within(t, 0, 8191)
    ensures forall k :: 0 <= k < 8 ==> T0Ungroup(T0Bits(t))[k] == HALF - t[k]
  {
    T0Bytes(t);
    Recover(t, T0Bits(t));
  }

  // ---------------------------------------------------------------------
  // The corrected packer

  /** The offsets 2^12 - c, kept at full width. */
  function T0Offsets(c: seq<int>): (t: seq<int>)
    ensures |t| == |c|
  {
    seq(|c|, k requires 0 <= k < |c| => HALF - c[k])
  }

  function T0Group(c: seq<int>): (r: seq<Byte>)
    requires |c| == 8
    ensures |r| == 13
  {
    T0Bits(T0Offsets(c))
  }

  /** Eight coefficients in [-(2^12 - 1), 2^12] survive their 13-byte encoding. */
  lemma GroupRoundTrip(c: seq<int>)
    requires |c| == 8 && Within(c, -4095, 4096)
    ensures T0Ungroup(T0Group(c)) == c
  {
    var t := T0Offsets(c);
    T0Bytes(t);
    GroupBack(c, t, T0Group(c));
  }

  lemma GroupBack(c: seq<int>, t: seq<int>, b: seq<Byte>)
    requires |c| == 8 && |t| == 8 && |b| == 13 && Within(t, 0, 8191) && T0Packed(t, b)
    requires forall k :: 0 <= k < 8 ==> t[k] == HALF - c[k]
    ensures T0Ungroup(b) == c
  {
    Recover(t, b);
    OffsetsBack(c, t, T0Ungroup(b));
  }

  lemma OffsetsBack(c: seq<int>, t: seq<int>, d: seq<int>)
    requires |c| == 8 && |t| == 8 && |d| == 8
    requires forall k :: 0 <= k < 8 ==> t[k] == HALF - c[k]
    requires forall k :: 0 <= k < 8 ==> d[k] == HALF - t[k]
    ensures d == c
  {
    Same8(d, c);
  }

  // ---------------------------------------------------------------------
  // The packer as written: offsets stored in a Uint8Array

  /** `t[k] = (1 << (D - 1)) - c` with t a Uint8Array. */
  function T0ByteOffsets(c: seq<int>): (t: seq<int>)
    ensures |t| == |c|
  {
    seq(|c|, k requires 0 <= k < |c| => ToByte(HALF - c[k]) as int)
  }

  function T0GroupAsWritten(c: seq<int>): (r: seq<Byte>)
    requires |c| == 8
    ensures |r| == 13
  {
    T0Bits(T0ByteOffsets(c))
  }

  /** What the source's packer keeps of a coefficient c: 2^12 minus the
      low eight bits of its offset. */
  function LowBitsKept(c: int): int {
    HALF - (HALF - c) % 256
  }

  /** Decoding what the source's packer writes keeps only the low eight
      bits of each offset. */
  lemma GroupAsWrittenLosesHighBits(c: seq<int>)
    requires |c| == 8
    ensures T0Ungroup(T0GroupAsWritten(c)) == Map(LowBitsKept, c)
  {
    var t := T0ByteOffsets(c);
    ByteOffsets(c);
    assert Within(t, 0, 8191);
    OffsetRoundTrip(t);
    LowBitsBack(c, t, T0Ungroup(T0Bits(t)));
  }

  lemma LowBitsBack(c: seq<int>, t: seq<int>, d: seq<int>)
    requires |c| == 8 && |t| == 8 && |d| == 8
    requires forall k :: 0 <= k < 8 ==> t[k] == (HALF - c[k]) % 256
    requires forall k :: 0 <= k < 8 ==> d[k] == HALF - t[k]
    ensures d == Map(LowBitsKept, c)
  {
    Same8(d, Map(LowBitsKept, c));
  }

  lemma ByteOffsets(c: seq<int>)
    ensures forall k :: 0 <= k < |c| ==> T0ByteOffsets(c)[k] == (HALF - c[k]) % 256
  {
  }

  // ---------------------------------------------------------------------
  // Whole polynomials

  lemma Codec()
    ensures Encodes(8, 13, T0Group) && Encodes(8, 13, T0GroupAsWritten) && Decodes(13, 8, T0Ungroup)
  {
  }

  /** The 416-byte encoding of p. */
  function T0Bytes416(p: Poly): (b: seq<Byte>)
    ensures |b| == POLYT0_PACKEDBYTES
  {
    Codec();
    EncodeLength(p, 8, 13, T0Group, 32);
    EncodeGroups(p, 8, 13, T0Group)
  }

  /** `p.t0pack(buf, off)` with full-width offsets. */
  function T0Pack(p: Poly, buf: seq<Byte>, off: int): (r: seq<Byte>)
    ensures |r| == |buf|
  {
    WriteAt(buf, off, T0Bytes416(p))
  }

  /** The 416 bytes the source's packer writes for p. */
  function T0BytesAsWritten(p: Poly): (b: seq<Byte>)
    ensures |b| == POLYT0_PACKEDBYTES
  {
    Codec();
    EncodeLength(p, 8, 13, T0GroupAsWritten, 32);
    EncodeGroups(p, 8, 13, T0GroupAsWritten)
  }

  /** `p.t0pack(buf, off)` as the source writes it. */
  function T0PackAsWritten(p: Poly, buf: seq<Byte>, off: int): (r: seq<Byte>)
    ensures |r| == |buf|
  {
    WriteAt(buf, off, T0BytesAsWritten(p))
  }

  /** `Polynomium.t0unpack(bytes, off)`. */
  function T0Unpack(bytes: seq<Byte>, off: int): (p: Poly)
    ensures Within(p, -4095, 4096)
  {
    Codec();
    var blk := ReadBlock(bytes, off, POLYT0_PACKEDBYTES);
    DecodeLength(blk, 13, 8, T0Ungroup, 32);
    forall g | |g| == 13
      ensures Within(T0Ungroup(g), -4095, 4096)
    {
      T0Range(g);
    }
    DecodeWithin(blk, 13, 8, T0Ungroup, -4095, 4096);
    DecodeGroups(blk, 13, 8, T0Ungroup)
  }

  /** The corrected packer round-trips every t0 polynomial and writes
      nothing outside its 416 bytes. */
  lemma T0RoundTrip(p: Poly, buf: seq<Byte>, off: int)
    requires Within(p, -4095, 4096) && 0 <= off && off + POLYT0_PACKEDBYTES <= |buf|
    ensures T0Unpack(T0Pack(p, buf, off), off) == p
    ensures forall i :: 0 <= i < |buf| && !(off <= i < off + POLYT0_PACKEDBYTES) ==> T0Pack(p, buf, off)[i] == buf[i]
  {
    Codec();
    ReadWritten(buf, off, T0Bytes416(p));
    forall g | |g| == 8 && Within(g, -4095, 4096)
      ensures T0Ungroup(T0Group(g)) == g
    {
      GroupRoundTrip(g);
    }
    DecodeEncode(p, 8, 13, T0Group, T0Ungroup, -4095, 4096, 32);
  }

  /** The packer as written keeps only the low eight bits of every offset,
    whatever the polynomial. */
  lemma T0AsWrittenRoundTrip(p: Poly, buf: seq<Byte>, off: int)
    requires 0 <= off && off + POLYT0_PACKEDBYTES <= |buf|
    ensures T0Unpack(T0PackAsWritten(p, buf, off), off) == Map(LowBitsKept, p)
  {
    Codec();
    var e := T0BytesAsWritten(p);
    ReadWritten(buf, off, e);
    GroupsAsWritten(p);
    UnpackBlock(T0PackAsWritten(p, buf, off), off, e);
  }

  lemma GroupsAsWritten(p: Poly)
    ensures Encodes(8, 13, T0GroupAsWritten) && Decodes(13, 8, T0Ungroup)
    ensures DecodeGroups(EncodeGroups(p, 8, 13, T0GroupAsWritten), 13, 8, T0Ungroup) == Map(LowBitsKept, p)
  {
    Codec();
    forall g | |g| == 8
      ensures T0Ungroup(T0GroupAsWritten(g)) == Map(LowBitsKept, g)
    {
      GroupAsWrittenLosesHighBits(g);
    }
    DecodeEncodeMap(p, 8, 13, T0GroupAsWritten, T0Ungroup, LowBitsKept, 32);
  }

  lemma UnpackBlock(bytes: seq<Byte>, off: int, e: seq<Byte>)
    requires ReadBlock(bytes, off, POLYT0_PACKEDBYTES) == e
    ensures Decodes(13, 8, T0Ungroup)
    ensures T0Unpack(bytes, off) == DecodeGroups(e, 13, 8, T0Ungroup)
  {
    Codec();
  }

  /** So the packer as written does not round-trip: a coefficient 0 comes
      back as 2^12. */
  lemma T0AsWrittenZero(p: Poly, buf: seq<Byte>, off: int)
    requires 0 <= off && off + POLYT0_PACKEDBYTES <= |buf| && p[0] == 0
    ensures T0Unpack(T0PackAsWritten(p, buf, off), off)[0] == HALF != p[0]
  {
    T0AsWrittenRoundTrip(p, buf, off);
  }
}
