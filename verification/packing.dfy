/** The key and signature packers of src/util.ts: `packPubKey`,
    `packPrvKey`, `packSig` and `packw1`. Each writes fixed-size blocks one
    after the other into a buffer; the loops here do the same and their
    contracts give the result as one concatenation of blocks. The readers
    of the other side (`DilithiumPublicKey.fromBytes`,
    `DilithiumPrivateKey.fromBytes`, the parsing half of `verify`) read a
    block back at its offset; `T1At`, `EtaAt`, `T0At` and `ZAt` say that
    such a read recovers the polynomial packed there. */
module Packing {
  import opened JsNumber
  import opened Blocks
  import opened Outcomes
  import opened Params
  import opened Polynomial
  import opened Layout
  import PackT1
  import PackEta
  import PackT0
  import PackZ
  import W1 = PackW1
  import HintCodec

  // ---------------------------------------------------------------------
  // Writing a run of blocks

  /** Writing a block right after an earlier write from 0 extends it. */
  lemma WriteAfter(buf: seq<Byte>, x: seq<Byte>, b: seq<Byte>)
    ensures WriteAt(WriteAt(buf, 0, x), |x|, b) == WriteAt(buf, 0, x + b)
  {
    var l := WriteAt(WriteAt(buf, 0, x), |x|, b);
    var r := WriteAt(buf, 0, x + b);
    forall i | 0 <= i < |buf|
      ensures l[i] == r[i]
    {
    }
  }

  /** A write from 0 that covers the whole buffer replaces it. */
  lemma WriteWhole(buf: seq<Byte>, x: seq<Byte>)
    requires |x| == |buf|
    ensures WriteAt(buf, 0, x) == x
  {
  }

  lemma WriteNothing(buf: seq<Byte>)
    ensures WriteAt(buf, 0, []) == buf
  {
  }

  /** One step of a packing loop: block i of a run of m-byte blocks goes
      right after the head and blocks 0 .. i - 1. */
  lemma Extend(buf: seq<Byte>, head: seq<Byte>, bs: seq<seq<Byte>>, m: nat, i: nat)
    requires Uniform(bs, m) && i < |bs|
    ensures |head + Concat(bs[..i])| == |head| + i * m
    ensures WriteAt(WriteAt(buf, 0, head + Concat(bs[..i])), |head| + i * m, bs[i]) == WriteAt(buf, 0, head + Concat(bs[..i + 1]))
  {
    UniformOffsets(bs, m, i);
    ConcatLength(bs[..i]);
    assert bs[..i + 1] == bs[..i] + [bs[i]];
    ConcatAppend(bs[..i], bs[i]);
    WriteAfter(buf, head + Concat(bs[..i]), bs[i]);
    assert head + Concat(bs[..i]) + bs[i] == head + Concat(bs[..i + 1]);
  }

  /** `Extend` with the running offset in place of i * m. */
  lemma Next(buf: seq<Byte>, head: seq<Byte>, bs: seq<seq<Byte>>, m: nat, i: nat)
    requires Uniform(bs, m) && i < |bs|
    ensures |head + Concat(bs[..i + 1])| == |head + Concat(bs[..i])| + m
    ensures WriteAt(WriteAt(buf, 0, head + Concat(bs[..i])), |head + Concat(bs[..i])|, bs[i]) == WriteAt(buf, 0, head + Concat(bs[..i + 1]))
  {
    assert bs[..i + 1] == bs[..i] + [bs[i]];
    ConcatAppend(bs[..i], bs[i]);
    WriteAfter(buf, head + Concat(bs[..i]), bs[i]);
    assert head + Concat(bs[..i]) + bs[i] == head + Concat(bs[..i + 1]);
  }

  /** The start of a packing loop: no block written yet. */
  lemma Start(head: seq<Byte>, bs: seq<seq<Byte>>)
    ensures head + Concat(bs[..0]) == head
  {
    assert bs[..0] == [];
  }

  /** `Extend` for a run written from the start of the buffer. */
  lemma ExtendFront(buf: seq<Byte>, bs: seq<seq<Byte>>, m: nat, i: nat)
    requires Uniform(bs, m) && i < |bs|
    ensures WriteAt(WriteAt(buf, 0, Concat(bs[..i])), i * m, bs[i]) == WriteAt(buf, 0, Concat(bs[..i + 1]))
  {
    Extend(buf, [], bs, m, i);
    assert [] + Concat(bs[..i]) == Concat(bs[..i]);
    assert [] + Concat(bs[..i + 1]) == Concat(bs[..i + 1]);
  }

  /** A head and a section that together fill the buffer replace it. */
  lemma Fill(buf: seq<Byte>, head: seq<Byte>, section: seq<Byte>)
    requires |buf| == |head| + |section|
    ensures WriteAt(WriteAt(buf, 0, head), |head|, section) == head + section
  {
    WriteAfter(buf, head, section);
    WriteWhole(buf, head + section);
  }

  /** The end of a packing loop: all blocks written. */
  lemma Complete(head: seq<Byte>, bs: seq<seq<Byte>>, m: nat)
    requires Uniform(bs, m)
    ensures bs[..|bs|] == bs
    ensures |head + Concat(bs)| == |head| + |bs| * m
  {
    assert bs[..|bs|] == bs;
    UniformOffsets(bs, m, |bs|);
    ConcatLength(bs);
  }

  // ---------------------------------------------------------------------
  // The block runs

  function T1Blocks(t: seq<Poly>): (bs: seq<seq<Byte>>)
    ensures |bs| == |t| && Uniform(bs, POLYT1_PACKEDBYTES)
  {
    seq(|t|, i requires 0 <= i < |t| => PackT1.T1Bytes(t[i]))
  }

  function EtaBlocks(eta: int, s: seq<Poly>): (bs: seq<seq<Byte>>)
    requires eta == 2 || eta == 4
    ensures |bs| == |s| && Uniform(bs, PackEta.EtaPackedBytes(eta))
  {
    seq(|s|, i requires 0 <= i < |s| => PackEta.EtaBytes(eta, s[i]))
  }

  function T0Blocks(t0: seq<Poly>): (bs: seq<seq<Byte>>)
    ensures |bs| == |t0| && Uniform(bs, POLYT0_PACKEDBYTES)
  {
    seq(|t0|, i requires 0 <= i < |t0| => PackT0.T0Bytes416(t0[i]))
  }

  function ZBlocks(gamma1: int, z: seq<Poly>): (bs: seq<seq<Byte>>)
    requires gamma1 == GAMMA1_17 || gamma1 == GAMMA1_19
    ensures |bs| == |z| && Uniform(bs, PackZ.ZPackedBytes(gamma1))
  {
    seq(|z|, i requires 0 <= i < |z| => PackZ.ZBytes(gamma1, z[i]))
  }

  function W1Blocks(gamma2: int, w: seq<Poly>): (bs: seq<seq<Byte>>)
    requires ValidGamma2(gamma2)
    ensures |bs| == |w| && Uniform(bs, W1.W1PackedBytes(gamma2))
  {
    seq(|w|, i requires 0 <= i < |w| => W1.W1Bytes(gamma2, w[i]))
  }

  // ---------------------------------------------------------------------
  // packPubKey

  /** The public key bytes: rho, then the packed t1 polynomials. */
  function PubKeyBytes(rho: seq<Byte>, t: seq<Poly>): seq<Byte> {
    ReadBlock(rho, 0, SEEDBYTES) + Concat(T1Blocks(t))
  }

  /** `packPubKey(rho, t)`: rho copied to the front of a fresh buffer of
      32 + 320 k bytes, t[i] packed at 32 + 320 i. */
  method PackPubKey(rho: seq<Byte>, t: seq<Poly>) returns (pk: seq<Byte>)
    ensures |pk| == SEEDBYTES + |t| * 320
    ensures pk == PubKeyBytes(rho, t)
  {
    var size := SEEDBYTES + |t| * 320;
    var zeros := Zeros(size);
    var seed := ReadBlock(rho, 0, SEEDBYTES);
    WriteNothing(zeros);
    WriteAfter(zeros, [], seed);
    assert [] + seed == seed;
    pk := WriteAt(zeros, 0, seed);
    var bs := T1Blocks(t);
    var i := 0;
    while i < |t|
      invariant i <= |t| && pk == WriteAt(zeros, 0, seed + Concat(bs[..i]))
    {
      Extend(zeros, seed, bs, POLYT1_PACKEDBYTES, i);
      pk := PackT1.T1Pack(t[i], pk, SEEDBYTES + i * 320);
      i := i + 1;
    }
    Complete(seed, bs, POLYT1_PACKEDBYTES);
    WriteWhole(zeros, seed + Concat(bs));
  }

  /** The t1 block at off decodes to p when it is p's encoding and p has
      10-bit coefficients. */
  lemma T1At(bytes: seq<Byte>, off: int, p: Poly)
    requires 0 <= off && off + POLYT1_PACKEDBYTES <= |bytes| && Within(p, 0, 1023)
    requires bytes[off .. off + POLYT1_PACKEDBYTES] == PackT1.T1Bytes(p)
    ensures PackT1.T1Unpack(bytes, off) == p
  {
    var y := PackT1.T1Pack(p, Zeros(POLYT1_PACKEDBYTES), 0);
    PackT1.T1RoundTrip(p, Zeros(POLYT1_PACKEDBYTES), 0);
    ReadSlice(bytes, off, POLYT1_PACKEDBYTES, PackT1.T1Bytes(p));
    ReadWritten(Zeros(POLYT1_PACKEDBYTES), 0, PackT1.T1Bytes(p));
    assert ReadBlock(y, 0, POLYT1_PACKEDBYTES) == ReadBlock(bytes, off, POLYT1_PACKEDBYTES);
  }

  /** A run of n blocks of m bytes has n * m bytes. */
  lemma RunLength(bs: seq<seq<Byte>>, m: nat)
    requires Uniform(bs, m)
    ensures |Concat(bs)| == |bs| * m
  {
    assert bs[..|bs|] == bs;
    UniformOffsets(bs, m, |bs|);
    ConcatLength(bs);
  }

  /** Block i of a uniform run is found at i * m in its concatenation. */
  lemma RunSlice(bs: seq<seq<Byte>>, m: nat, i: nat, at: nat)
    requires Uniform(bs, m) && i < |bs| && at == i * m
    ensures at + m <= |Concat(bs)|
    ensures Concat(bs)[at .. at + m] == bs[i]
  {
    ConcatPlaces(bs, i);
    UniformOffsets(bs, m, i);
  }

  /** A slice of b at j is found at off == |a| + j in a + b + ..., whatever
      follows. */
  lemma Shift2(a: seq<Byte>, b: seq<Byte>, j: nat, n: nat, blk: seq<Byte>, off: nat)
    requires j + n <= |b| && b[j .. j + n] == blk && off == |a| + j
    ensures off + n <= |a + b| && (a + b)[off .. off + n] == blk
  {
    assert (a + b)[off .. off + n] == b[j .. j + n];
  }

  /** A read inside the buffer is a slice. */
  lemma ReadSlice(bytes: seq<Byte>, off: nat, n: nat, b: seq<Byte>)
    requires off + n <= |bytes| && bytes[off .. off + n] == b
    ensures ReadBlock(bytes, off, n) == b
  {
  }

  /** The public key bytes start with rho. */
  lemma PubKeySeed(rho: seq<Byte>, t: seq<Poly>)
    ensures ReadBlock(PubKeyBytes(rho, t), 0, SEEDBYTES) == ReadBlock(rho, 0, SEEDBYTES)
  {
    var seed := ReadBlock(rho, 0, SEEDBYTES);
    ReadLeft(seed, Concat(T1Blocks(t)), 0, SEEDBYTES);
  }

  /** The t1 block i of the public key bytes decodes to t[i]. */
  lemma PubKeyT1(rho: seq<Byte>, t: seq<Poly>, i: nat)
    requires i < |t| && Within(t[i], 0, 1023)
    ensures PackT1.T1Unpack(PubKeyBytes(rho, t), SEEDBYTES + i * 320) == t[i]
  {
    var seed := ReadBlock(rho, 0, SEEDBYTES);
    var bs := T1Blocks(t);
    RunSlice(bs, POLYT1_PACKEDBYTES, i, i * 320);
    Shift2(seed, Concat(bs), i * 320, POLYT1_PACKEDBYTES, bs[i], SEEDBYTES + i * 320);
    T1At(PubKeyBytes(rho, t), SEEDBYTES + i * 320, t[i]);
  }

  // ---------------------------------------------------------------------
  // packPrvKey

  /** The head of the private key: rho, K and tr. */
  function Seeds(rho: seq<Byte>, tr: seq<Byte>, key: seq<Byte>): (r: seq<Byte>)
    ensures |r| == 2 * SEEDBYTES + CRHBYTES
  {
    ReadBlock(rho, 0, SEEDBYTES) + ReadBlock(key, 0, SEEDBYTES) + ReadBlock(tr, 0, CRHBYTES)
  }

  /** The private key bytes with a given t0 area: rho, K, tr, the packed
      s1 and s2, then the area. */
  function PrvKeyLayout(eta: int, rho: seq<Byte>, tr: seq<Byte>, key: seq<Byte>, s1: seq<Poly>, s2: seq<Poly>,
                        area: seq<Byte>): seq<Byte>
    requires eta == 2 || eta == 4
  {
    PrvKeyHead(eta, rho, tr, key, s1, s2) + area
  }

  /** Everything before the t0 area: rho, K, tr and the packed s1 and s2. */
  function PrvKeyHead(eta: int, rho: seq<Byte>, tr: seq<Byte>, key: seq<Byte>, s1: seq<Poly>, s2: seq<Poly>): seq<Byte>
    requires eta == 2 || eta == 4
  {
    Seeds(rho, tr, key) + Concat(EtaBlocks(eta, s1)) + Concat(EtaBlocks(eta, s2))
  }

  /** Where the t0 area starts: right after the packed s2. */
  function T0Start(eta: int, s1: seq<Poly>, s2: seq<Poly>): int
    requires eta == 2 || eta == 4
  {
    2 * SEEDBYTES + CRHBYTES + |Concat(EtaBlocks(eta, s1))| + |Concat(EtaBlocks(eta, s2))|
  }

  /** The t0 blocks `t0pack` writes: only the low eight bits of each
      coefficient's offset survive. */
  function T0BlocksAsWritten(t0: seq<Poly>): (bs: seq<seq<Byte>>)
    ensures |bs| == |t0| && Uniform(bs, POLYT0_PACKEDBYTES)
  {
    seq(|t0|, i requires 0 <= i < |t0| => PackT0.T0BytesAsWritten(t0[i]))
  }

  /** The private key bytes `packPrvKey` produces. */
  function PrvKeyBytesAsWritten(eta: int, rho: seq<Byte>, tr: seq<Byte>, key: seq<Byte>, t0: seq<Poly>, s1: seq<Poly>,
                                s2: seq<Poly>): seq<Byte>
    requires eta == 2 || eta == 4
  {
    PrvKeyLayout(eta, rho, tr, key, s1, s2, Concat(T0BlocksAsWritten(t0)))
  }

  /** The private key bytes with t0 packed at full width, which is what
      `t0unpack` expects. */
  function PrvKeyBytes(eta: int, rho: seq<Byte>, tr: seq<Byte>, key: seq<Byte>, t0: seq<Poly>, s1: seq<Poly>,
                       s2: seq<Poly>): seq<Byte>
    requires eta == 2 || eta == 4
  {
    PrvKeyLayout(eta, rho, tr, key, s1, s2, Concat(T0Blocks(t0)))
  }

  /** A slice inside the left operand of a concatenation. */
  lemma Prefix(x: seq<Byte>, y: seq<Byte>, a: nat, b: nat)
    requires a <= b <= |x|
    ensures (x + y)[a .. b] == x[a .. b]
  {
  }

  /** The right operand of a concatenation is the slice after the left. */
  lemma Suffix(x: seq<Byte>, y: seq<Byte>)
    ensures (x + y)[|x| .. |x| + |y|] == y
  {
  }

  /** The first `b` bytes of the private key are the first `b` bytes of
      any of its prefixes. */
  lemma PrvKeyPrefix(head: seq<Byte>, c1: seq<Byte>, c2: seq<Byte>, c3: seq<Byte>, a: nat, b: nat)
    requires a <= b <= |head|
    ensures (head + c1 + c2 + c3)[a .. b] == head[a .. b]
  {
    Prefix(head + c1 + c2, c3, a, b);
    Prefix(head + c1, c2, a, b);
    Prefix(head, c1, a, b);
  }

  /** The private key bytes start with rho, K and tr, in that order,
      whatever the t0 area holds. */
  lemma LayoutSeeds(eta: int, rho: seq<Byte>, tr: seq<Byte>, key: seq<Byte>, s1: seq<Poly>, s2: seq<Poly>, area: seq<Byte>)
    requires eta == 2 || eta == 4
    ensures ReadBlock(PrvKeyLayout(eta, rho, tr, key, s1, s2, area), 0, SEEDBYTES) == ReadBlock(rho, 0, SEEDBYTES)
    ensures ReadBlock(PrvKeyLayout(eta, rho, tr, key, s1, s2, area), SEEDBYTES, SEEDBYTES) == ReadBlock(key, 0, SEEDBYTES)
    ensures ReadBlock(PrvKeyLayout(eta, rho, tr, key, s1, s2, area), 2 * SEEDBYTES, CRHBYTES) == ReadBlock(tr, 0, CRHBYTES)
  {
    var r, k, t := ReadBlock(rho, 0, SEEDBYTES), ReadBlock(key, 0, SEEDBYTES), ReadBlock(tr, 0, CRHBYTES);
    var c1, c2 := Concat(EtaBlocks(eta, s1)), Concat(EtaBlocks(eta, s2));
    var bytes := PrvKeyLayout(eta, rho, tr, key, s1, s2, area);
    assert bytes == r + k + t + c1 + c2 + area;
    PrvKeyPrefix(r + k + t, c1, c2, area, 0, SEEDBYTES);
    PrvKeyPrefix(r + k + t, c1, c2, area, SEEDBYTES, 2 * SEEDBYTES);
    PrvKeyPrefix(r + k + t, c1, c2, area, 2 * SEEDBYTES, 2 * SEEDBYTES + CRHBYTES);
    Prefix(r + k, t, 0, SEEDBYTES);
    Prefix(r, k, 0, SEEDBYTES);
    assert r[0 .. SEEDBYTES] == r;
    Prefix(r + k, t, SEEDBYTES, 2 * SEEDBYTES);
    Suffix(r, k);
    Suffix(r + k, t);
    ReadSlice(bytes, 0, SEEDBYTES, r);
    ReadSlice(bytes, SEEDBYTES, SEEDBYTES, k);
    ReadSlice(bytes, 2 * SEEDBYTES, CRHBYTES, t);
  }

  /** The two halves of a block lie one after the other. */
  lemma BlockSplit(bytes: seq<Byte>, off: int, a: seq<Byte>, b: seq<Byte>)
    requires BlockAt(bytes, off, a + b)
    ensures BlockAt(bytes, off, a) && BlockAt(bytes, off + |a|, b)
  {
    var whole := ReadBlock(bytes, off, |a + b|);
    assert forall j :: 0 <= j < |a| ==> ReadBlock(bytes, off, |a|)[j] == whole[j];
    var right := ReadBlock(bytes, off + |a|, |b|);
    forall j | 0 <= j < |b|
      ensures right[j] == b[j]
    {
      assert right[j] == whole[|a| + j] == (a + b)[|a| + j];
    }
  }

  /** A buffer lies in itself. */
  lemma BlockWhole(bytes: seq<Byte>)
    ensures BlockAt(bytes, 0, bytes)
  {
    assert forall j :: 0 <= j < |bytes| ==> ReadBlock(bytes, 0, |bytes|)[j] == bytes[j];
  }

  /** Where the packed s1, the packed s2 and the t0 area lie in the
      private key layout. */
  lemma LayoutAreas(eta: int, rho: seq<Byte>, tr: seq<Byte>, key: seq<Byte>, s1: seq<Poly>, s2: seq<Poly>, area: seq<Byte>)
    requires eta == 2 || eta == 4
    ensures var bytes := PrvKeyLayout(eta, rho, tr, key, s1, s2, area);
      var c1, c2 := Concat(EtaBlocks(eta, s1)), Concat(EtaBlocks(eta, s2));
      && BlockAt(bytes, 2 * SEEDBYTES + CRHBYTES, c1)
      && BlockAt(bytes, 2 * SEEDBYTES + CRHBYTES + |c1|, c2)
      && BlockAt(bytes, 2 * SEEDBYTES + CRHBYTES + |c1| + |c2|, area)
  {
    var bytes := PrvKeyLayout(eta, rho, tr, key, s1, s2, area);
    var head, c1, c2 := Seeds(rho, tr, key), Concat(EtaBlocks(eta, s1)), Concat(EtaBlocks(eta, s2));
    BlockWhole(bytes);
    BlockSplit(bytes, 0, head + c1 + c2, area);
    BlockSplit(bytes, 0, head + c1, c2);
    BlockSplit(bytes, 0, head, c1);
  }

  /** A run of blocks is its first block followed by the others. */
  lemma {:induction false} ConcatFront(bs: seq<seq<Byte>>)
    requires |bs| > 0
    ensures Concat(bs) == bs[0] + Concat(bs[1..])
  {
    if |bs| > 1 {
      var n := |bs| - 1;
      assert bs[..n][1..] == bs[1..][..|bs[1..]| - 1];
      ConcatFront(bs[..n]);
      assert bs[..n][0] == bs[0];
      assert bs[1..][|bs[1..]| - 1] == bs[n];
    } else {
      assert bs[1..] == [];
      assert bs[..0] == [];
    }
  }

  /** The size `packPrvKey` allocates, with 96 bytes per eta polynomial
      for eta 2 and 128 for eta 4. The t0 area is sized by s2. */
  function PrvKeySize(eta: int, s1: seq<Poly>, s2: seq<Poly>): int
    requires eta == 2 || eta == 4
  {
    if eta == 2 then 2 * SEEDBYTES + CRHBYTES + |s1| * 96 + |s2| * 96 + |s2| * 416
    else 2 * SEEDBYTES + CRHBYTES + |s1| * 128 + |s2| * 128 + |s2| * 416
  }

  /** `packPrvKey(eta, rho, tr, K, t0, s1, s2)`: "Illegal eta" unless eta
      is 2 or 4; otherwise rho, K and tr (in that order, although the
      arguments come as tr, K), then s1, s2 and t0 packed one block after
      the other, t0 by `t0pack` as it is written. The t0 area is sized by
      s2, so the layout is exact when t0 and s2 have the same number of
      polynomials. */
  method PackPrvKey(eta: int, rho: seq<Byte>, tr: seq<Byte>, key: seq<Byte>, t0: seq<Poly>, s1: seq<Poly>, s2: seq<Poly>)
    returns (r: Result<seq<Byte>>)
    ensures r.Failure? <==> eta != 2 && eta != 4
    ensures r.Failure? ==> r.error == IllegalEta(eta)
    ensures r.Success? ==> |r.value| == PrvKeySize(eta, s1, s2)
    ensures r.Success? && |t0| == |s2| ==> r.value == PrvKeyBytesAsWritten(eta, rho, tr, key, t0, s1, s2)
  {
    if eta != 2 && eta != 4 {
      return Failure(IllegalEta(eta));
    }
    var pkbytes := PackEta.EtaPackedBytes(eta);
    var size := PrvKeySize(eta, s1, s2);
    var zeros := Zeros(size);
    var head := Seeds(rho, tr, key);
    WriteNothing(zeros);
    WriteAfter(zeros, [], head);
    assert [] + head == head;
    var buf := WriteAt(zeros, 0, head);
    buf := PackEtas(eta, s1, zeros, head, buf);
    var b1 := EtaBlocks(eta, s1);
    Complete(head, b1, pkbytes);
    var head1 := head + Concat(b1);
    buf := PackEtas(eta, s2, zeros, head1, buf);
    var b2 := EtaBlocks(eta, s2);
    Complete(head1, b2, pkbytes);
    var head2 := head1 + Concat(b2);
    buf := PackT0s(t0, zeros, head2, buf);
    if |t0| == |s2| {
      var b0 := T0BlocksAsWritten(t0);
      Complete(head2, b0, POLYT0_PACKEDBYTES);
      WriteWhole(zeros, head2 + Concat(b0));
    }
    return Success(buf);
  }

  /** The s1 or s2 loop of `packPrvKey`: s[i] packed at |head| + i * pkbytes. */
  method PackEtas(eta: int, s: seq<Poly>, zeros: seq<Byte>, head: seq<Byte>, buf: seq<Byte>) returns (buf': seq<Byte>)
    requires eta == 2 || eta == 4
    requires buf == WriteAt(zeros, 0, head)
    ensures buf' == WriteAt(zeros, 0, head + Concat(EtaBlocks(eta, s)))
  {
    var pkbytes := PackEta.EtaPackedBytes(eta);
    var bs := EtaBlocks(eta, s);
    Start(head, bs);
    buf' := buf;
    var i := 0;
    while i < |s|
      invariant i <= |s|
      invariant buf' == WriteAt(zeros, 0, head + Concat(bs[..i]))
    {
      Extend(zeros, head, bs, pkbytes, i);
      var packed := PackEta.EtaPack(eta, s[i], buf', |head| + i * pkbytes);
      buf' := packed.value;
      i := i + 1;
    }
    assert bs[..i] == bs;
  }

  /** The t0 loop of `packPrvKey`, with `t0pack` as it is written. */
  method PackT0s(t0: seq<Poly>, zeros: seq<Byte>, head: seq<Byte>, buf: seq<Byte>) returns (buf': seq<Byte>)
    requires buf == WriteAt(zeros, 0, head)
    ensures buf' == WriteAt(zeros, 0, head + Concat(T0BlocksAsWritten(t0)))
  {
    var m: nat := POLYT0_PACKEDBYTES;
    var bs := T0BlocksAsWritten(t0);
    Start(head, bs);
    buf' := buf;
    var i := 0;
    while i < |t0|
      invariant i <= |t0|
      invariant buf' == WriteAt(zeros, 0, head + Concat(bs[..i]))
    {
      Extend(zeros, head, bs, m, i);
      buf' := PackT0.T0PackAsWritten(t0[i], buf', |head| + i * m);
      i := i + 1;
    }
    assert bs[..i] == bs;
  }

  /** The eta block at off decodes to p when it is p's encoding and p has
      coefficients in [-eta, eta]. */
  lemma EtaAt(eta: int, bytes: seq<Byte>, off: int, p: Poly)
    requires (eta == 2 || eta == 4) && Within(p, -eta, eta)
    requires BlockAt(bytes, off, PackEta.EtaBytes(eta, p))
    ensures PackEta.EtaUnpack(eta, bytes, off) == Success(p)
  {
    var m := PackEta.EtaPackedBytes(eta);
    var y := PackEta.EtaPack(eta, p, Zeros(m), 0).value;
    PackEta.EtaRoundTrip(eta, p, Zeros(m), 0);
    ReadWritten(Zeros(m), 0, PackEta.EtaBytes(eta, p));
    assert ReadBlock(y, 0, m) == ReadBlock(bytes, off, m);
  }

  /** The t0 block at off decodes to p when it is p's full-width encoding
      and p has coefficients in (-2^12, 2^12]. */
  lemma T0At(bytes: seq<Byte>, off: int, p: Poly)
    requires Within(p, -4095, 4096) && BlockAt(bytes, off, PackT0.T0Bytes416(p))
    ensures PackT0.T0Unpack(bytes, off) == p
  {
    var y := PackT0.T0Pack(p, Zeros(POLYT0_PACKEDBYTES), 0);
    PackT0.T0RoundTrip(p, Zeros(POLYT0_PACKEDBYTES), 0);
    ReadWritten(Zeros(POLYT0_PACKEDBYTES), 0, PackT0.T0Bytes416(p));
    assert ReadBlock(y, 0, POLYT0_PACKEDBYTES) == ReadBlock(bytes, off, POLYT0_PACKEDBYTES);
  }

  /** The t0 block `t0pack` writes for p decodes to p with only the low
      eight bits of each offset kept, whatever p is. */
  lemma T0AtAsWritten(bytes: seq<Byte>, off: int, p: Poly)
    requires BlockAt(bytes, off, PackT0.T0BytesAsWritten(p))
    ensures PackT0.T0Unpack(bytes, off) == Map(PackT0.LowBitsKept, p)
  {
    var y := PackT0.T0PackAsWritten(p, Zeros(POLYT0_PACKEDBYTES), 0);
    PackT0.T0AsWrittenRoundTrip(p, Zeros(POLYT0_PACKEDBYTES), 0);
    ReadWritten(Zeros(POLYT0_PACKEDBYTES), 0, PackT0.T0BytesAsWritten(p));
    assert ReadBlock(y, 0, POLYT0_PACKEDBYTES) == ReadBlock(bytes, off, POLYT0_PACKEDBYTES);
  }

  /** The public key bytes have the length `packPubKey` allocates. */
  lemma PubKeyLength(rho: seq<Byte>, t: seq<Poly>)
    ensures |PubKeyBytes(rho, t)| == SEEDBYTES + |t| * 320
  {
    RunLength(T1Blocks(t), POLYT1_PACKEDBYTES);
  }

  /** Both private key layouts have the length `packPrvKey` allocates when
      t0 and s2 have the same number of polynomials. */
  lemma PrvKeyLength(eta: int, rho: seq<Byte>, tr: seq<Byte>, key: seq<Byte>, t0: seq<Poly>, s1: seq<Poly>, s2: seq<Poly>)
    requires (eta == 2 || eta == 4) && |t0| == |s2|
    ensures |PrvKeyBytes(eta, rho, tr, key, t0, s1, s2)| == PrvKeySize(eta, s1, s2)
    ensures |PrvKeyBytesAsWritten(eta, rho, tr, key, t0, s1, s2)| == PrvKeySize(eta, s1, s2)
  {
    RunLength(EtaBlocks(eta, s1), PackEta.EtaPackedBytes(eta));
    RunLength(EtaBlocks(eta, s2), PackEta.EtaPackedBytes(eta));
    RunLength(T0Blocks(t0), POLYT0_PACKEDBYTES);
    RunLength(T0BlocksAsWritten(t0), POLYT0_PACKEDBYTES);
  }

  /** The size `packPrvKey` allocates for l and k polynomials is
      `getPrivateKeyByteLength`. */
  lemma PrvKeySizeIsByteLength(spec: ParameterSpec, s1: seq<Poly>, s2: seq<Poly>)
    requires spec.eta == 2 || spec.eta == 4
    requires |s1| == spec.l && |s2| == spec.k
    ensures PrivateKeyByteLength(spec) == Success(PrvKeySize(spec.eta, s1, s2))
  {
  }

  // ---------------------------------------------------------------------
  // packSig

  /** The signature bytes before the hint section: c, then the packed z. */
  function SigHead(gamma1: int, c: seq<Byte>, z: seq<Poly>): seq<Byte>
    requires gamma1 == GAMMA1_17 || gamma1 == GAMMA1_19
  {
    ReadBlock(c, 0, SEEDBYTES) + Concat(ZBlocks(gamma1, z))
  }

  /** The head of a signature has 32 bytes for c and one packed block per
      z polynomial. */
  lemma SigHeadLength(gamma1: int, c: seq<Byte>, z: seq<Poly>)
    requires gamma1 == GAMMA1_17 || gamma1 == GAMMA1_19
    ensures |SigHead(gamma1, c, z)| == SEEDBYTES + |z| * PackZ.ZPackedBytes(gamma1)
  {
    RunLength(ZBlocks(gamma1, z), PackZ.ZPackedBytes(gamma1));
  }

  /** `packSig(gamma1, omega, sig, c, z, h)`: "Invalid gamma1" unless
      gamma1 is 2^17 or 2^19; otherwise c at 0, z[i] packed after it one
      block after the other (`SigHeadLength` gives the size), then the hint
      section (`HintCodec.EncodeHints`). The section is encoded into a
      buffer of its own and stored at its offset, which is the same as the
      source's stores when the signature ends with the section. When sig
      has exactly that size, every byte is written: the result does not
      depend on what sig held. */
  method PackSig(gamma1: int, omega: nat, sig: seq<Byte>, c: seq<Byte>, z: seq<Poly>, h: seq<Poly>) returns (r: Result<seq<Byte>>)
    ensures r.Failure? <==> gamma1 != GAMMA1_17 && gamma1 != GAMMA1_19
    ensures r.Failure? ==> r.error == InvalidGamma1(gamma1)
    ensures r.Success? ==> |r.value| == |sig|
    ensures r.Success? && |sig| == |SigHead(gamma1, c, z)| + omega + |h| ==>
      r.value[..|SigHead(gamma1, c, z)|] == SigHead(gamma1, c, z)
    ensures r.Success? && |sig| == |SigHead(gamma1, c, z)| + omega + |h| && HintCodec.Cum(h, |h|) <= omega ==>
      r.value == SigHead(gamma1, c, z) + HintCodec.HintBytes(omega, h)
  {
    if gamma1 != GAMMA1_17 && gamma1 != GAMMA1_19 {
      return Failure(InvalidGamma1(gamma1));
    }
    var seed := ReadBlock(c, 0, SEEDBYTES);
    SeedFirst(sig, seed);
    var buf := WriteAt(sig, 0, seed);
    var off;
    buf, off := PackZs(gamma1, z, sig, seed, buf);
    var section := HintCodec.EncodeHints(omega, h);
    buf := WriteAt(buf, off, section);
    SigLayout(gamma1, omega, sig, c, z, h, section);
    return Success(buf);
  }

  /** Writing the seed first is writing it over an empty head. */
  lemma SeedFirst(sig: seq<Byte>, seed: seq<Byte>)
    ensures WriteAt(sig, 0, seed) == WriteAt(WriteAt(sig, 0, []), 0, [] + seed)
  {
    WriteNothing(sig);
    WriteAfter(sig, [], seed);
    assert [] + seed == seed;
  }

  /** The buffer `packSig` returns: the head written at 0 and the hint
      section after it. */
  lemma SigLayout(gamma1: int, omega: nat, sig: seq<Byte>, c: seq<Byte>, z: seq<Poly>, h: seq<Poly>, section: seq<Byte>)
    requires gamma1 == GAMMA1_17 || gamma1 == GAMMA1_19
    requires |section| == omega + |h|
    requires HintCodec.Cum(h, |h|) <= omega ==> section == HintCodec.HintBytes(omega, h)
    ensures var head := SigHead(gamma1, c, z);
      var buf := WriteAt(WriteAt(sig, 0, head), |head|, section);
      && |buf| == |sig|
      && (|sig| == |head| + omega + |h| ==> buf[..|head|] == head)
      && (|sig| == |head| + omega + |h| && HintCodec.Cum(h, |h|) <= omega ==> buf == head + HintCodec.HintBytes(omega, h))
  {
    var head := SigHead(gamma1, c, z);
    if |sig| == |head| + |section| {
      Fill(sig, head, section);
      assert (head + section)[..|head|] == head;
    }
  }

  /** The z loop of `packSig`: z[i] packed at the running offset, which
      ends after the last block. */
  method PackZs(gamma1: int, z: seq<Poly>, sig: seq<Byte>, head: seq<Byte>, buf: seq<Byte>) returns (buf': seq<Byte>, off: int)
    requires gamma1 == GAMMA1_17 || gamma1 == GAMMA1_19
    requires buf == WriteAt(sig, 0, head)
    ensures buf' == WriteAt(sig, 0, head + Concat(ZBlocks(gamma1, z)))
    ensures off == |head + Concat(ZBlocks(gamma1, z))|
  {
    var pkbytes := PackZ.ZPackedBytes(gamma1);
    var bs := ZBlocks(gamma1, z);
    Start(head, bs);
    buf' := buf;
    off := |head|;
    var i := 0;
    while i < |z|
      invariant i <= |z|
      invariant buf' == WriteAt(sig, 0, head + Concat(bs[..i]))
      invariant off == |head + Concat(bs[..i])|
    {
      Next(sig, head, bs, pkbytes, i);
      var packed := PackZ.ZPack(gamma1, z[i], buf', off);
      buf' := packed.value;
      off := off + pkbytes;
      i := i + 1;
    }
    assert bs[..i] == bs;
  }

  /** The z block at off decodes to p when it is p's encoding and p has
      coefficients in (-gamma1, gamma1]. */
  lemma ZAt(gamma1: int, bytes: seq<Byte>, off: int, p: Poly)
    requires (gamma1 == GAMMA1_17 || gamma1 == GAMMA1_19) && Within(p, 1 - gamma1, gamma1)
    requires 0 <= off && off + PackZ.ZPackedBytes(gamma1) <= |bytes|
    requires bytes[off .. off + PackZ.ZPackedBytes(gamma1)] == PackZ.ZBytes(gamma1, p)
    ensures PackZ.ZUnpack(gamma1, bytes, off) == p
  {
    var m := PackZ.ZPackedBytes(gamma1);
    var y := PackZ.ZPack(gamma1, p, Zeros(m), 0).value;
    PackZ.ZRoundTrip(gamma1, p, Zeros(m), 0);
    ReadSlice(bytes, off, m, PackZ.ZBytes(gamma1, p));
    ReadWritten(Zeros(m), 0, PackZ.ZBytes(gamma1, p));
    assert ReadBlock(y, 0, m) == ReadBlock(bytes, off, m);
  }

  // ---------------------------------------------------------------------
  // packw1

  /** `packw1(gamma2, w, sig)`: "Invalid gamma2" unless gamma2 is one of
      the two supported values; otherwise w[i] packed at i * w1bytes from
      the start of sig, k consecutive blocks. Bytes past them keep what sig
      held; in a buffer of exactly k * w1bytes bytes the result is the
      blocks alone. */
  method PackW1(gamma2: int, w: seq<Poly>, sig: seq<Byte>) returns (r: Result<seq<Byte>>)
    ensures r.Failure? <==> !ValidGamma2(gamma2)
    ensures r.Failure? ==> r.error == InvalidGamma2(gamma2)
    ensures r.Success? ==> r.value == WriteAt(sig, 0, Concat(W1Blocks(gamma2, w)))
    ensures r.Success? ==> |Concat(W1Blocks(gamma2, w))| == |w| * W1.W1PackedBytes(gamma2)
    ensures r.Success? && |sig| == |w| * W1.W1PackedBytes(gamma2) ==> r.value == Concat(W1Blocks(gamma2, w))
  {
    if !ValidGamma2(gamma2) {
      return Failure(InvalidGamma2(gamma2));
    }
    var pkbytes := W1.W1PackedBytes(gamma2);
    WriteNothing(sig);
    var buf := PackW1s(gamma2, w, sig);
    var bs := W1Blocks(gamma2, w);
    Complete([], bs, pkbytes);
    if |sig| == |w| * pkbytes {
      WriteWhole(sig, Concat(bs));
    }
    return Success(buf);
  }

  /** The loop of `packw1`: w[i] packed at i * w1bytes. */
  method PackW1s(gamma2: int, w: seq<Poly>, sig: seq<Byte>) returns (buf: seq<Byte>)
    requires ValidGamma2(gamma2)
    ensures buf == WriteAt(sig, 0, Concat(W1Blocks(gamma2, w)))
  {
    var pkbytes := W1.W1PackedBytes(gamma2);
    var bs := W1Blocks(gamma2, w);
    assert bs[..0] == [];
    WriteNothing(sig);
    buf := sig;
    var i := 0;
    while i < |w|
      invariant i <= |w|
      invariant buf == WriteAt(sig, 0, Concat(bs[..i]))
    {
      ExtendFront(sig, bs, pkbytes, i);
      var packed := W1.W1Pack(gamma2, w[i], buf, i * pkbytes);
      buf := packed.value;
      i := i + 1;
    }
    assert bs[..i] == bs;
  }

  /** In a buffer of at least k * w1bytes bytes, the first k * w1bytes
      bytes after `packw1` are the packed blocks. */
  lemma PackW1Prefix(gamma2: int, w: seq<Poly>, sig: seq<Byte>)
    requires ValidGamma2(gamma2) && |w| * W1.W1PackedBytes(gamma2) <= |sig|
    ensures ReadBlock(WriteAt(sig, 0, Concat(W1Blocks(gamma2, w))), 0, |w| * W1.W1PackedBytes(gamma2)) == Concat(W1Blocks(gamma2, w))
  {
    Complete([], W1Blocks(gamma2, w), W1.W1PackedBytes(gamma2));
    ReadWritten(sig, 0, Concat(W1Blocks(gamma2, w)));
  }
}
