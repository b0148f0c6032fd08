/** Byte layouts of src/util.ts: `mergeArrays`, the packed-size and
    byte-length formulas, and the facts about runs of consecutive blocks
    that the key and signature packers rely on. A packer that writes
    blocks one after the other into a fresh buffer of exactly their total
    size produces their concatenation; `Concat` is that concatenation, and
    `ReadBlock` at a block's offset reads the block back. */
module Layout {
  import opened JsNumber
  import opened Blocks
  import opened Outcomes
  import opened Params
  import opened Polynomial
  import PackEta
  import PackZ
  import PackW1

  // ---------------------------------------------------------------------
  // Concatenation

  /** The blocks one after the other. */
  function Concat(bs: seq<seq<Byte>>): seq<Byte> {
    if |bs| == 0 then [] else Concat(bs[..|bs| - 1]) + bs[|bs| - 1]
  }

  /** The sum of the block lengths. */
  function TotalLength(bs: seq<seq<Byte>>): nat {
    if |bs| == 0 then 0 else TotalLength(bs[..|bs| - 1]) + |bs[|bs| - 1]|
  }

  /** Where block i starts in the concatenation. */
  function Offset(bs: seq<seq<Byte>>, i: nat): nat
    requires i <= |bs|
  {
    TotalLength(bs[..i])
  }

  lemma {:induction false} ConcatLength(bs: seq<seq<Byte>>)
    ensures |Concat(bs)| == TotalLength(bs)
  {
    if |bs| > 0 {
      ConcatLength(bs[..|bs| - 1]);
    }
  }

  lemma ConcatAppend(bs: seq<seq<Byte>>, b: seq<Byte>)
    ensures Concat(bs + [b]) == Concat(bs) + b
    ensures TotalLength(bs + [b]) == TotalLength(bs) + |b|
  {
    assert (bs + [b])[..|bs|] == bs;
  }

  /** Block i of the concatenation sits at its offset, whole. */
  lemma {:induction false} ConcatPlaces(bs: seq<seq<Byte>>, i: nat)
    requires i < |bs|
    ensures Offset(bs, i) + |bs[i]| <= |Concat(bs)|
    ensures Concat(bs)[Offset(bs, i) .. Offset(bs, i) + |bs[i]|] == bs[i]
  {
    var n := |bs| - 1;
    var init := bs[..n];
    ConcatLength(init);
    if i == n {
      assert bs[..i] == init;
    } else {
      assert init[..i] == bs[..i];
      ConcatPlaces(init, i);
      ConcatLength(bs);
      assert Concat(bs) == Concat(init) + bs[n];
    }
  }

  /** `mergeArrays(arrays)`: the total length is summed first, then every
      array is copied at the running offset. */
  method MergeArrays(arrays: seq<seq<Byte>>) returns (merged: seq<Byte>)
    ensures |merged| == TotalLength(arrays)
    ensures merged == Concat(arrays)
  {
    var totalLength := 0;
    var i := 0;
    while i < |arrays|
      invariant i <= |arrays| && totalLength == TotalLength(arrays[..i])
    {
      assert arrays[..i + 1] == arrays[..i] + [arrays[i]];
      ConcatAppend(arrays[..i], arrays[i]);
      totalLength := totalLength + |arrays[i]|;
      i := i + 1;
    }
    assert arrays[..i] == arrays;
    merged := Zeros(totalLength);
    var cp := 0;
    i := 0;
    while i < |arrays|
      invariant i <= |arrays| && cp == TotalLength(arrays[..i]) && cp <= totalLength
      invariant merged == Concat(arrays[..i]) + Zeros(totalLength - cp)
    {
      CopyNext(arrays, i, totalLength);
      WriteNext(Concat(arrays[..i]), totalLength - cp, arrays[i]);
      merged := WriteAt(merged, cp, arrays[i]);
      cp := cp + |arrays[i]|;
      i := i + 1;
    }
    ConcatLength(arrays);
    assert arrays[..i] == arrays;
  }

  /** The bookkeeping of one copy step of `MergeArrays`. */
  lemma CopyNext(arrays: seq<seq<Byte>>, i: nat, total: nat)
    requires i < |arrays| && total == TotalLength(arrays)
    ensures arrays[..i + 1] == arrays[..i] + [arrays[i]]
    ensures |Concat(arrays[..i])| == TotalLength(arrays[..i])
    ensures Concat(arrays[..i + 1]) == Concat(arrays[..i]) + arrays[i]
    ensures TotalLength(arrays[..i + 1]) == TotalLength(arrays[..i]) + |arrays[i]| <= total
  {
    assert arrays[..i + 1] == arrays[..i] + [arrays[i]];
    ConcatLength(arrays[..i]);
    ConcatAppend(arrays[..i], arrays[i]);
    ConcatLength(arrays[..i + 1]);
    PrefixShorter(arrays, i + 1);
  }

  lemma {:induction false} PrefixShorter(bs: seq<seq<Byte>>, i: nat)
    requires i <= |bs|
    ensures TotalLength(bs[..i]) <= TotalLength(bs)
    decreases |bs|
  {
    if i < |bs| {
      assert bs[..|bs| - 1][..i] == bs[..i];
      PrefixShorter(bs[..|bs| - 1], i);
    } else {
      assert bs[..i] == bs;
    }
  }

  // ---------------------------------------------------------------------
  // Writing consecutive blocks into a fresh buffer

  /** A fresh `Uint8Array(n)`. */
  function Zeros(n: nat): (r: seq<Byte>)
    ensures |r| == n && forall i :: 0 <= i < n ==> r[i] == 0
  {
    seq<Byte>(n, _ => 0)
  }

  /** Writing a block right after the filled prefix of a buffer whose rest
      is still zero extends the prefix by the block. */
  lemma WriteNext(prefix: seq<Byte>, rest: nat, block: seq<Byte>)
    requires |block| <= rest
    ensures WriteAt(prefix + Zeros(rest), |prefix|, block) == (prefix + block) + Zeros(rest - |block|)
  {
    var w := WriteAt(prefix + Zeros(rest), |prefix|, block);
    var e := (prefix + block) + Zeros(rest - |block|);
    assert |w| == |e|;
    forall i | 0 <= i < |w|
      ensures w[i] == e[i]
    {
    }
  }

  /** Reading inside the second part of a concatenation. */
  lemma ReadRight(x: seq<Byte>, y: seq<Byte>, off: int, n: nat)
    requires 0 <= off && off + n <= |y|
    ensures ReadBlock(x + y, |x| + off, n) == ReadBlock(y, off, n) == y[off .. off + n]
  {
    var r := ReadBlock(x + y, |x| + off, n);
    forall j | 0 <= j < n
      ensures r[j] == y[off .. off + n][j]
    {
      assert (x + y)[|x| + off + j] == y[off + j];
    }
  }

  /** Reading inside the first part of a concatenation. */
  lemma ReadLeft(x: seq<Byte>, y: seq<Byte>, off: int, n: nat)
    requires 0 <= off && off + n <= |x|
    ensures ReadBlock(x + y, off, n) == ReadBlock(x, off, n) == x[off .. off + n]
  {
    var r := ReadBlock(x + y, off, n);
    forall j | 0 <= j < n
      ensures r[j] == x[off .. off + n][j]
    {
      assert (x + y)[off + j] == x[off + j];
    }
  }

  /** Blocks of one common size m. */
  predicate Uniform(bs: seq<seq<Byte>>, m: nat) {
    forall i :: 0 <= i < |bs| ==> |bs[i]| == m
  }

  /** Uniform blocks: block i starts at i * m. */
  lemma {:induction false} UniformOffsets(bs: seq<seq<Byte>>, m: nat, i: nat)
    requires Uniform(bs, m) && i <= |bs|
    ensures TotalLength(bs[..i]) == i * m
  {
    if i > 0 {
      assert bs[..i][..i - 1] == bs[..i - 1];
      UniformOffsets(bs, m, i - 1);
    }
  }

  /** Uniform blocks: the concatenation has |bs| * m bytes and block i is
      read back at i * m. */
  lemma UniformConcat(bs: seq<seq<Byte>>, m: nat, i: nat)
    requires Uniform(bs, m) && i < |bs|
    ensures |Concat(bs)| == |bs| * m
    ensures i * m + m <= |bs| * m
    ensures ReadBlock(Concat(bs), i * m, m) == bs[i]
  {
    ConcatLength(bs);
    assert bs[..|bs|] == bs;
    UniformOffsets(bs, m, |bs|);
    UniformOffsets(bs, m, i);
    ConcatPlaces(bs, i);
    MulMono(i + 1, |bs|, m);
    assert forall j :: 0 <= j < m ==> ReadBlock(Concat(bs), i * m, m)[j] == Concat(bs)[i * m + j];
  }

  // ---------------------------------------------------------------------
  // Packed sizes and byte lengths

  /** `getPolyEtaPackedBytes(eta)`. */
  function PolyEtaPackedBytes(eta: int): (r: Result<nat>)
    ensures r.Success? <==> eta == 2 || eta == 4
    ensures r.Failure? ==> r.error == InvalidEta(eta)
    ensures r.Success? ==> forall p: Poly :: r.value == |PackEta.EtaBytes(eta, p)|
  {
    if eta == 2 then Success(96) else if eta == 4 then Success(128) else Failure(InvalidEta(eta))
  }

  /** `getPolyW1PackedBytes(gamma2)`. */
  function PolyW1PackedBytes(gamma2: int): (r: Result<nat>)
    ensures r.Success? <==> ValidGamma2(gamma2)
    ensures r.Failure? ==> r.error == InvalidGamma2(gamma2)
    ensures r.Success? ==> forall p: Poly :: r.value == |PackW1.W1Bytes(gamma2, p)|
  {
    if gamma2 == GAMMA2_88 then Success(192) else if gamma2 == GAMMA2_32 then Success(128)
    else Failure(InvalidGamma2(gamma2))
  }

  /** `getPolyZPackedBytes(gamma1)`. */
  function PolyZPackedBytes(gamma1: int): (r: Result<nat>)
    ensures r.Success? <==> gamma1 == GAMMA1_17 || gamma1 == GAMMA1_19
    ensures r.Failure? ==> r.error == InvalidGamma1(gamma1)
    ensures r.Success? ==> forall p: Poly :: r.value == |PackZ.ZBytes(gamma1, p)|
  {
    if gamma1 == GAMMA1_17 then Success(576) else if gamma1 == GAMMA1_19 then Success(640)
    else Failure(InvalidGamma1(gamma1))
  }

  /** `getSignatureByteLength(spec)`: c, the l packed z polynomials, omega
      index bytes and k markers; `getPolyZPackedBytes` throws for any
      other gamma1. */
  function SignatureByteLength(spec: ParameterSpec): (r: Result<int>)
    ensures r.Success? <==> spec.gamma1 == GAMMA1_17 || spec.gamma1 == GAMMA1_19
    ensures r.Failure? ==> r.error == InvalidGamma1(spec.gamma1)
  {
    if spec.gamma1 == GAMMA1_17 then Success(SEEDBYTES + spec.l * 576 + spec.omega + spec.k)
    else if spec.gamma1 == GAMMA1_19 then Success(SEEDBYTES + spec.l * 640 + spec.omega + spec.k)
    else Failure(InvalidGamma1(spec.gamma1))
  }

  /** `getPublicKeyByteLength(spec)`: rho and k packed t1 polynomials of
      320 bytes. */
  function PublicKeyByteLength(spec: ParameterSpec): int {
    SEEDBYTES + spec.k * 320
  }

  /** `getPrivateKeyByteLength(spec)`: rho, K, tr, l + k packed eta
      polynomials (96 bytes each for eta 2, 128 for eta 4) and k packed t0
      polynomials of 416 bytes. Its own eta switch throws "Illegal eta",
      unlike `getPolyEtaPackedBytes`. */
  function PrivateKeyByteLength(spec: ParameterSpec): (r: Result<int>)
    ensures r.Success? <==> spec.eta == 2 || spec.eta == 4
    ensures r.Failure? ==> r.error == IllegalEta(spec.eta)
  {
    if spec.eta == 2 then Success(2 * SEEDBYTES + CRHBYTES + spec.l * 96 + spec.k * 96 + spec.k * 416)
    else if spec.eta == 4 then Success(2 * SEEDBYTES + CRHBYTES + spec.l * 128 + spec.k * 128 + spec.k * 416)
    else Failure(IllegalEta(spec.eta))
  }
}
