/** The key objects of src/key.ts: the private key, the public key and the
    pair, their byte parsers, key generation and the derivation of the
    public key from the private one. Hashing, sampling and the NTT come in
    as a `Primitives` value; the random seed is a parameter. */
module Keys {
  import opened JsNumber
  import opened Blocks
  import opened Outcomes
  import opened Params
  import opened Polynomial
  import opened PolyVec
  import opened Layout
  import opened Packing
  import opened Primitives
  import PackT1
  import PackEta
  import PackT0

  datatype PublicKey = PublicKey(spec: ParameterSpec, bytes: seq<Byte>, rho: seq<Byte>, t1: Vec, a: Matrix)

  datatype PrivateKey = PrivateKey(
    spec: ParameterSpec,
    bytes: seq<Byte>,
    rho: seq<Byte>,
    tr: seq<Byte>,
    key: seq<Byte>,
    s1: Vec,
    s2: Vec,
    t0: Vec,
    s1hat: Vec,
    s2hat: Vec,
    t0hat: Vec,
    a: Matrix)

  datatype KeyPair = KeyPair(secret: PrivateKey, pub: PublicKey)

  // ---------------------------------------------------------------------
  // Reference definitions

  /** The matrix `expandA(rho, k, l)` yields: cell (i, j) is the uniform
      polynomial of rho with nonce `(i << 8) + j`. */
  function MatrixOf(prims: Primitives, rho: seq<Byte>, k: nat, l: nat): (a: Matrix)
    ensures |a| == k && forall i :: 0 <= i < k ==> |a[i]| == l
  {
    seq<Vec>(k, i requires 0 <= i < k => seq<Poly>(l, j requires 0 <= j < l => prims.genUniform(rho, CellNonce(i, j))))
  }

  /** f applied to every entry. */
  function Each(f: Poly -> Poly, v: Vec): (r: Vec)
    ensures |r| == |v|
  {
    seq(|v|, i requires 0 <= i < |v| => f(v[i]))
  }

  /** f applied to the entries of u and v pairwise, as long as u lasts. */
  function Both(f: (Poly, Poly) -> Poly, u: Vec, v: Vec): (r: Vec)
    requires |u| <= |v|
    ensures |r| == |u|
  {
    seq(|u|, i requires 0 <= i < |u| => f(u[i], v[i]))
  }

  /** The matrix-vector product in the NTT domain, row by row. */
  function Product(a: Matrix, v: Vec): (r: Vec)
    requires 1 <= |v| && forall i :: 0 <= i < |a| ==> |v| <= |a[i]|
    ensures |r| == |a|
  {
    seq(|a|, i requires 0 <= i < |a| => AccRef(PointwiseMontgomery, Add, a[i], v, |v|))
  }

  /** What the public key derivation needs of a private key: a non-empty
      s1, rows at least as long as s1, and an s2 entry for every row. */
  predicate Derivable(a: Matrix, s1: Vec, s2: Vec) {
    1 <= |s1| && (forall i :: 0 <= i < |a| ==> |s1| <= |a[i]|) && |a| <= |s2|
  }

  /** t = A * s1 + s2 with coefficients made non-negative: the product of
      A with the NTT of s1, reduced, brought back by the inverse NTT, then
      s2 added and Q added to negative coefficients. */
  function TVec(prims: Primitives, a: Matrix, s1: Vec, s2: Vec): (t: Vec)
    requires Derivable(a, s1, s2)
    ensures |t| == |a|
  {
    Each(Caddq, Both(Add, Each(prims.invntt, Each(Reduce, Product(a, Each(prims.ntt, s1)))), s2))
  }

  /** The high parts (t1) of `powerRound` on every entry. */
  function High(v: Vec): (r: Vec)
    ensures |r| == |v|
  {
    seq(|v|, i requires 0 <= i < |v| => PowerRound(v[i]).1)
  }

  /** The low parts (t0) of `powerRound` on every entry. */
  function Low(v: Vec): (r: Vec)
    ensures |r| == |v|
  {
    seq(|v|, i requires 0 <= i < |v| => PowerRound(v[i]).0)
  }

  /** Every coefficient of t lies in [0, Q), whatever the NTT returns:
      the sum with s2 is brought into (-Q, Q), and caddq lifts it. */
  lemma TVecRange(prims: Primitives, a: Matrix, s1: Vec, s2: Vec)
    requires Derivable(a, s1, s2)
    ensures forall i, c :: 0 <= i < |a| && 0 <= c < N ==> 0 <= TVec(prims, a, s1, s2)[i][c] < Q
  {
    var x := Each(prims.invntt, Each(Reduce, Product(a, Each(prims.ntt, s1))));
    forall i | 0 <= i < |a|
      ensures forall c :: 0 <= c < N ==> 0 <= TVec(prims, a, s1, s2)[i][c] < Q
    {
      AddCoefs(x[i], s2[i]);
      assert TVec(prims, a, s1, s2)[i] == Caddq(Add(x[i], s2[i]));
    }
  }

  /** The public key a private key determines: t1 is the high part of t,
      packed after rho; rho and the matrix are shared. */
  function DerivedKey(prims: Primitives, sk: PrivateKey): PublicKey
    requires Derivable(sk.a, sk.s1, sk.s2)
  {
    var t1 := High(TVec(prims, sk.a, sk.s1, sk.s2));
    PublicKey(sk.spec, PubKeyBytes(sk.rho, t1), sk.rho, t1, sk.a)
  }

  /** k packed t1 polynomials from start, one every 320 bytes. */
  function T1Run(bytes: seq<Byte>, start: int, k: nat): (r: Vec)
    ensures |r| == k
  {
    seq(k, i requires 0 <= i < k => PackT1.T1Unpack(bytes, start + i * 320))
  }

  /** n polynomials decoded by dec from off on, the offset advancing by m
      after each (the reading loops of `fromBytes`); also the offset after
      the last. */
  function Run(dec: (seq<Byte>, int) -> Poly, m: int, bytes: seq<Byte>, off: int, n: nat): (r: (Vec, int))
    ensures |r.0| == n
    decreases n
  {
    if n == 0 then ([], off)
    else
      var rest := Run(dec, m, bytes, off + m, n - 1);
      ([dec(bytes, off)] + rest.0, rest.1)
  }

  /** `Polynomium.etaunpack(eta, ·, ·)` for an eta it accepts. */
  function EtaDecoder(eta: int): (seq<Byte>, int) -> Poly
    requires eta == 2 || eta == 4
  {
    (bytes, off) => PackEta.EtaUnpack(eta, bytes, off).value
  }

  /** `DilithiumPublicKey.fromBytes(bytes, level)`: rho, then k packed t1
      polynomials; the matrix is expanded from rho, and the bytes are kept
      as given. Bytes missing from a short array read as 0. */
  function ParsedPublicKey(prims: Primitives, spec: ParameterSpec, bytes: seq<Byte>): (pk: PublicKey)
    ensures pk.spec == spec && pk.bytes == bytes && |pk.rho| == SEEDBYTES && |pk.t1| == spec.k
    ensures forall i :: 0 <= i < spec.k ==> Within(pk.t1[i], 0, 1023)
    ensures |pk.a| == spec.k && forall i :: 0 <= i < spec.k ==> |pk.a[i]| == spec.l
  {
    var rho := ReadBlock(bytes, 0, SEEDBYTES);
    PublicKey(spec, bytes, rho, T1Run(bytes, SEEDBYTES, spec.k), MatrixOf(prims, rho, spec.k, spec.l))
  }

  /** `DilithiumPrivateKey.fromBytes(bytes, level)`: "Invalid eta" before
      anything is read unless eta is 2 or 4; otherwise rho, K, tr, then l
      and k packed eta polynomials and k packed t0 polynomials at a running
      offset; the NTT forms and the matrix are computed, and the bytes are
      kept as given. Bytes missing from a short array read as 0. */
  function ParsedPrivateKey(prims: Primitives, spec: ParameterSpec, bytes: seq<Byte>): (r: Result<PrivateKey>)
    ensures r.Failure? <==> spec.eta != 2 && spec.eta != 4
    ensures r.Failure? ==> r.error == InvalidEta(spec.eta)
    ensures r.Success? ==> r.value.spec == spec && r.value.bytes == bytes
    ensures r.Success? ==> |r.value.rho| == SEEDBYTES && |r.value.key| == SEEDBYTES && |r.value.tr| == CRHBYTES
    ensures r.Success? ==> |r.value.s1| == spec.l && |r.value.s2| == spec.k && |r.value.t0| == spec.k
  {
    var pb :- PolyEtaPackedBytes(spec.eta);
    var rho := ReadBlock(bytes, 0, SEEDBYTES);
    var key := ReadBlock(bytes, SEEDBYTES, SEEDBYTES);
    var tr := ReadBlock(bytes, 2 * SEEDBYTES, CRHBYTES);
    var (s1, off1) := Run(EtaDecoder(spec.eta), pb, bytes, 2 * SEEDBYTES + CRHBYTES, spec.l);
    var (s2, off2) := Run(EtaDecoder(spec.eta), pb, bytes, off1, spec.k);
    var t0 := Run(PackT0.T0Unpack, POLYT0_PACKEDBYTES, bytes, off2, spec.k).0;
    Success(PrivateKey(spec, bytes, rho, tr, key, s1, s2, t0, Each(prims.ntt, s1), Each(prims.ntt, s2), Each(prims.ntt, t0),
                       MatrixOf(prims, rho, spec.k, spec.l)))
  }

  /** What a t0 vector comes back as after `t0pack` and `t0unpack`. */
  function LowKept(t0: Vec): (r: Vec)
    ensures |r| == |t0|
  {
    seq(|t0|, i requires 0 <= i < |t0| => Map(PackT0.LowBitsKept, t0[i]))
  }

  /** The eta sampler keeps its coefficients in [-eta, eta]. */
  ghost predicate EtaBounded(prims: Primitives) {
    forall seed: seq<Byte>, eta: int, nonce: int :: eta == 2 || eta == 4 ==> Within(prims.genEta(seed, eta, nonce), -eta, eta)
  }

  // ---------------------------------------------------------------------
  // Round trips of the key encodings

  lemma ReadWhole(x: seq<Byte>)
    ensures ReadBlock(x, 0, |x|) == x
  {
  }

  /** Parsing the packed public key of a 32-byte rho and k polynomials
      with coefficients in [0, 1023] gives back rho, the polynomials and
      the matrix of rho. */
  lemma PublicKeyRoundTrip(prims: Primitives, spec: ParameterSpec, rho: seq<Byte>, t1: Vec)
    requires |rho| == SEEDBYTES && |t1| == spec.k
    requires forall i :: 0 <= i < |t1| ==> Within(t1[i], 0, 1023)
    ensures ParsedPublicKey(prims, spec, PubKeyBytes(rho, t1))
         == PublicKey(spec, PubKeyBytes(rho, t1), rho, t1, MatrixOf(prims, rho, spec.k, spec.l))
  {
    var bytes := PubKeyBytes(rho, t1);
    PubKeySeed(rho, t1);
    ReadWhole(rho);
    forall i | 0 <= i < |t1|
      ensures T1Run(bytes, SEEDBYTES, spec.k)[i] == t1[i]
    {
      PubKeyT1(rho, t1, i);
    }
  }

  lemma Uncons(v: Vec)
    requires |v| > 0
    ensures v == [v[0]] + v[1..]
  {
  }

  /** Reading back a run of m-byte blocks gives the values they decode
      to, and ends right after the run. */
  lemma {:induction false} RunBack(dec: (seq<Byte>, int) -> Poly, m: nat, bytes: seq<Byte>, off: int, bs: seq<seq<Byte>>,
                                   vals: Vec, n: nat)
    requires |bs| == |vals| == n && Uniform(bs, m)
    requires forall i, b, o {:trigger BlockAt(b, o, bs[i])} :: 0 <= i < |bs| && BlockAt(b, o, bs[i]) ==> dec(b, o) == vals[i]
    requires BlockAt(bytes, off, Concat(bs))
    ensures Run(dec, m, bytes, off, n).0 == vals
    ensures Run(dec, m, bytes, off, n).1 == off + |Concat(bs)|
    decreases n
  {
    if n == 0 {
      assert vals == [];
    } else {
      var rest := bs[1..];
      ConcatFront(bs);
      BlockSplit(bytes, off, bs[0], Concat(rest));
      DecodesRest(dec, bs, vals);
      RunBack(dec, m, bytes, off + m, rest, vals[1..], n - 1);
      assert dec(bytes, off) == vals[0];
      Uncons(vals);
    }
  }

  /** The decoding facts of a run of blocks hold for the run without its
      first block. */
  lemma DecodesRest(dec: (seq<Byte>, int) -> Poly, bs: seq<seq<Byte>>, vals: Vec)
    requires 0 < |bs| == |vals|
    requires forall i, b, o {:trigger BlockAt(b, o, bs[i])} :: 0 <= i < |bs| && BlockAt(b, o, bs[i]) ==> dec(b, o) == vals[i]
    ensures forall i, b, o {:trigger BlockAt(b, o, bs[1..][i])} :: 0 <= i < |bs| - 1 && BlockAt(b, o, bs[1..][i]) ==> dec(b, o) == vals[1..][i]
  {
    forall i, b, o | 0 <= i < |bs| - 1 && BlockAt(b, o, bs[1..][i])
      ensures dec(b, o) == vals[1..][i]
    {
      assert bs[1..][i] == bs[i + 1];
    }
  }

  /** Every packed eta polynomial in [-eta, eta] decodes to itself
      wherever it lies. */
  lemma EtaBlocksDecode(eta: int, s: Vec)
    requires eta == 2 || eta == 4
    requires forall i :: 0 <= i < |s| ==> Within(s[i], -eta, eta)
    ensures forall i, b, o :: 0 <= i < |s| && BlockAt(b, o, EtaBlocks(eta, s)[i]) ==> EtaDecoder(eta)(b, o) == s[i]
  {
    forall i, b, o | 0 <= i < |s| && BlockAt(b, o, EtaBlocks(eta, s)[i])
      ensures EtaDecoder(eta)(b, o) == s[i]
    {
      EtaAt(eta, b, o, s[i]);
    }
  }

  /** Reading back packed eta polynomials in [-eta, eta] gives them back,
      and ends right after them. */
  lemma EtaRunBack(eta: int, bytes: seq<Byte>, off: int, s: Vec, n: nat)
    requires eta == 2 || eta == 4
    requires |s| == n
    requires forall i :: 0 <= i < |s| ==> Within(s[i], -eta, eta)
    requires BlockAt(bytes, off, Concat(EtaBlocks(eta, s)))
    ensures var r := Run(EtaDecoder(eta), PackEta.EtaPackedBytes(eta), bytes, off, n);
      r.0 == s && r.1 == off + |Concat(EtaBlocks(eta, s))|
  {
    EtaBlocksDecode(eta, s);
    RunBack(EtaDecoder(eta), PackEta.EtaPackedBytes(eta), bytes, off, EtaBlocks(eta, s), s, n);
  }

  /** Every full-width t0 block of a polynomial in [-4095, 4096] decodes
      to it wherever it lies. */
  lemma T0BlocksDecode(t0: Vec)
    requires forall i :: 0 <= i < |t0| ==> Within(t0[i], -4095, 4096)
    ensures forall i, b, o :: 0 <= i < |t0| && BlockAt(b, o, T0Blocks(t0)[i]) ==> PackT0.T0Unpack(b, o) == t0[i]
  {
    forall i, b, o | 0 <= i < |t0| && BlockAt(b, o, T0Blocks(t0)[i])
      ensures PackT0.T0Unpack(b, o) == t0[i]
    {
      T0At(b, o, t0[i]);
    }
  }

  /** Every t0 block `t0pack` writes decodes, wherever it lies, to its
      polynomial with only the low eight bits of every offset kept. */
  lemma T0BlocksAsWrittenDecode(t0: Vec)
    ensures forall i, b, o :: 0 <= i < |t0| && BlockAt(b, o, T0BlocksAsWritten(t0)[i]) ==> PackT0.T0Unpack(b, o) == LowKept(t0)[i]
  {
    forall i, b, o | 0 <= i < |t0| && BlockAt(b, o, T0BlocksAsWritten(t0)[i])
      ensures PackT0.T0Unpack(b, o) == LowKept(t0)[i]
    {
      T0AtAsWritten(b, o, t0[i]);
    }
  }

  /** Parsing a private key layout gives back rho, K, tr, s1 and s2, and
      reads t0 from where the t0 area lies. */
  lemma ParsedLayout(prims: Primitives, spec: ParameterSpec, rho: seq<Byte>, tr: seq<Byte>, key: seq<Byte>, s1: Vec, s2: Vec,
                     area: seq<Byte>)
    requires spec.eta == 2 || spec.eta == 4
    requires |rho| == SEEDBYTES && |key| == SEEDBYTES && |tr| == CRHBYTES
    requires |s1| == spec.l && |s2| == spec.k
    requires forall i :: 0 <= i < |s1| ==> Within(s1[i], -spec.eta, spec.eta)
    requires forall i :: 0 <= i < |s2| ==> Within(s2[i], -spec.eta, spec.eta)
    ensures var bytes := PrvKeyLayout(spec.eta, rho, tr, key, s1, s2, area);
      var off := T0Start(spec.eta, s1, s2);
      var t0 := Run(PackT0.T0Unpack, POLYT0_PACKEDBYTES, bytes, off, spec.k).0;
      && BlockAt(bytes, off, area)
      && ParsedPrivateKey(prims, spec, bytes)
         == Success(PrivateKey(spec, bytes, rho, tr, key, s1, s2, t0, Each(prims.ntt, s1), Each(prims.ntt, s2), Each(prims.ntt, t0),
                               MatrixOf(prims, rho, spec.k, spec.l)))
  {
    LayoutFields(spec.eta, rho, tr, key, s1, s2, area);
    ParsedBlocks(prims, spec, PrvKeyLayout(spec.eta, rho, tr, key, s1, s2, area), rho, tr, key, s1, s2,
                 T0Start(spec.eta, s1, s2));
  }

  /** A private key layout holds rho, K and tr whole at the front, then the
      packed s1, s2 and the t0 area one after the other. */
  lemma LayoutFields(eta: int, rho: seq<Byte>, tr: seq<Byte>, key: seq<Byte>, s1: Vec, s2: Vec, area: seq<Byte>)
    requires eta == 2 || eta == 4
    requires |rho| == SEEDBYTES && |key| == SEEDBYTES && |tr| == CRHBYTES
    ensures var bytes := PrvKeyLayout(eta, rho, tr, key, s1, s2, area);
      var c1 := Concat(EtaBlocks(eta, s1));
      && ReadBlock(bytes, 0, SEEDBYTES) == rho && ReadBlock(bytes, SEEDBYTES, SEEDBYTES) == key
      && ReadBlock(bytes, 2 * SEEDBYTES, CRHBYTES) == tr
      && BlockAt(bytes, 2 * SEEDBYTES + CRHBYTES, c1)
      && BlockAt(bytes, 2 * SEEDBYTES + CRHBYTES + |c1|, Concat(EtaBlocks(eta, s2)))
      && BlockAt(bytes, T0Start(eta, s1, s2), area)
  {
    LayoutSeeds(eta, rho, tr, key, s1, s2, area);
    ReadWhole(rho);
    ReadWhole(key);
    ReadWhole(tr);
    LayoutAreas(eta, rho, tr, key, s1, s2, area);
  }

  /** Bytes holding rho, K and tr at the front and the packed s1 and s2
      after them parse to those fields, with t0 read right after s2. */
  lemma ParsedBlocks(prims: Primitives, spec: ParameterSpec, bytes: seq<Byte>, rho: seq<Byte>, tr: seq<Byte>, key: seq<Byte>,
                     s1: Vec, s2: Vec, off: int)
    requires spec.eta == 2 || spec.eta == 4
    requires |s1| == spec.l && |s2| == spec.k
    requires forall i :: 0 <= i < |s1| ==> Within(s1[i], -spec.eta, spec.eta)
    requires forall i :: 0 <= i < |s2| ==> Within(s2[i], -spec.eta, spec.eta)
    requires ReadBlock(bytes, 0, SEEDBYTES) == rho && ReadBlock(bytes, SEEDBYTES, SEEDBYTES) == key
    requires ReadBlock(bytes, 2 * SEEDBYTES, CRHBYTES) == tr
    requires BlockAt(bytes, 2 * SEEDBYTES + CRHBYTES, Concat(EtaBlocks(spec.eta, s1)))
    requires BlockAt(bytes, 2 * SEEDBYTES + CRHBYTES + |Concat(EtaBlocks(spec.eta, s1))|, Concat(EtaBlocks(spec.eta, s2)))
    requires off == T0Start(spec.eta, s1, s2)
    ensures var t0 := Run(PackT0.T0Unpack, POLYT0_PACKEDBYTES, bytes, off, spec.k).0;
      ParsedPrivateKey(prims, spec, bytes)
      == Success(PrivateKey(spec, bytes, rho, tr, key, s1, s2, t0, Each(prims.ntt, s1), Each(prims.ntt, s2), Each(prims.ntt, t0),
                            MatrixOf(prims, rho, spec.k, spec.l)))
  {
    var eta := EtaDecoder(spec.eta);
    var o1 := Run(eta, PackEta.EtaPackedBytes(spec.eta), bytes, 2 * SEEDBYTES + CRHBYTES, spec.l).1;
    EtaRunBack(spec.eta, bytes, 2 * SEEDBYTES + CRHBYTES, s1, spec.l);
    EtaRunBack(spec.eta, bytes, o1, s2, spec.k);
    ParsedFields(prims, spec, bytes, rho, tr, key, s1, s2, o1, off);
  }

  /** A private key parses to the fields read at their offsets. */
  lemma ParsedFields(prims: Primitives, spec: ParameterSpec, bytes: seq<Byte>, rho: seq<Byte>, tr: seq<Byte>, key: seq<Byte>,
                     s1: Vec, s2: Vec, off1: int, off2: int)
    requires spec.eta == 2 || spec.eta == 4
    requires ReadBlock(bytes, 0, SEEDBYTES) == rho && ReadBlock(bytes, SEEDBYTES, SEEDBYTES) == key
    requires ReadBlock(bytes, 2 * SEEDBYTES, CRHBYTES) == tr
    requires Run(EtaDecoder(spec.eta), PackEta.EtaPackedBytes(spec.eta), bytes, 2 * SEEDBYTES + CRHBYTES, spec.l).0 == s1
    requires Run(EtaDecoder(spec.eta), PackEta.EtaPackedBytes(spec.eta), bytes, 2 * SEEDBYTES + CRHBYTES, spec.l).1 == off1
    requires Run(EtaDecoder(spec.eta), PackEta.EtaPackedBytes(spec.eta), bytes, off1, spec.k).0 == s2
    requires Run(EtaDecoder(spec.eta), PackEta.EtaPackedBytes(spec.eta), bytes, off1, spec.k).1 == off2
    ensures var t0 := Run(PackT0.T0Unpack, POLYT0_PACKEDBYTES, bytes, off2, spec.k).0;
      ParsedPrivateKey(prims, spec, bytes)
      == Success(PrivateKey(spec, bytes, rho, tr, key, s1, s2, t0, Each(prims.ntt, s1), Each(prims.ntt, s2), Each(prims.ntt, t0),
                            MatrixOf(prims, rho, spec.k, spec.l)))
  {
    assert PolyEtaPackedBytes(spec.eta) == Success(PackEta.EtaPackedBytes(spec.eta));
  }

  /** Parsing the private key bytes with t0 packed at full width gives
      back every field of 32-byte rho and K, a 48-byte tr, secrets in
      [-eta, eta] and t0 in [-4095, 4096], with the NTT forms and the
      matrix recomputed. */
  lemma PrivateKeyRoundTrip(prims: Primitives, spec: ParameterSpec, rho: seq<Byte>, tr: seq<Byte>, key: seq<Byte>,
                            t0: Vec, s1: Vec, s2: Vec)
    requires spec.eta == 2 || spec.eta == 4
    requires |rho| == SEEDBYTES && |key| == SEEDBYTES && |tr| == CRHBYTES
    requires |s1| == spec.l && |s2| == spec.k && |t0| == spec.k
    requires forall i :: 0 <= i < |s1| ==> Within(s1[i], -spec.eta, spec.eta)
    requires forall i :: 0 <= i < |s2| ==> Within(s2[i], -spec.eta, spec.eta)
    requires forall i :: 0 <= i < |t0| ==> Within(t0[i], -4095, 4096)
    ensures ParsedPrivateKey(prims, spec, PrvKeyBytes(spec.eta, rho, tr, key, t0, s1, s2))
         == Success(PrivateKey(spec, PrvKeyBytes(spec.eta, rho, tr, key, t0, s1, s2), rho, tr, key, s1, s2, t0,
                               Each(prims.ntt, s1), Each(prims.ntt, s2), Each(prims.ntt, t0),
                               MatrixOf(prims, rho, spec.k, spec.l)))
  {
    var bytes := PrvKeyBytes(spec.eta, rho, tr, key, t0, s1, s2);
    var off := T0Start(spec.eta, s1, s2);
    ParsedLayout(prims, spec, rho, tr, key, s1, s2, Concat(T0Blocks(t0)));
    T0BlocksDecode(t0);
    RunBack(PackT0.T0Unpack, POLYT0_PACKEDBYTES, bytes, off, T0Blocks(t0), t0, spec.k);
  }

  /** Parsing the private key bytes `packPrvKey` writes gives back every
      field but t0, whose coefficients come back with only the low eight
      bits of their offsets kept (`LowKept`), whatever t0 was. */
  lemma PrivateKeyRoundTripAsWritten(prims: Primitives, spec: ParameterSpec, rho: seq<Byte>, tr: seq<Byte>, key: seq<Byte>,
                                     t0: Vec, s1: Vec, s2: Vec)
    requires spec.eta == 2 || spec.eta == 4
    requires |rho| == SEEDBYTES && |key| == SEEDBYTES && |tr| == CRHBYTES
    requires |s1| == spec.l && |s2| == spec.k && |t0| == spec.k
    requires forall i :: 0 <= i < |s1| ==> Within(s1[i], -spec.eta, spec.eta)
    requires forall i :: 0 <= i < |s2| ==> Within(s2[i], -spec.eta, spec.eta)
    ensures ParsedPrivateKey(prims, spec, PrvKeyBytesAsWritten(spec.eta, rho, tr, key, t0, s1, s2))
         == Success(PrivateKey(spec, PrvKeyBytesAsWritten(spec.eta, rho, tr, key, t0, s1, s2), rho, tr, key, s1, s2, LowKept(t0),
                               Each(prims.ntt, s1), Each(prims.ntt, s2), Each(prims.ntt, LowKept(t0)),
                               MatrixOf(prims, rho, spec.k, spec.l)))
  {
    var bytes := PrvKeyBytesAsWritten(spec.eta, rho, tr, key, t0, s1, s2);
    var off := T0Start(spec.eta, s1, s2);
    ParsedLayout(prims, spec, rho, tr, key, s1, s2, Concat(T0BlocksAsWritten(t0)));
    T0BlocksAsWrittenDecode(t0);
    RunBack(PackT0.T0Unpack, POLYT0_PACKEDBYTES, bytes, off, T0BlocksAsWritten(t0), LowKept(t0), spec.k);
  }

  /** The derived public key parses back to itself whenever the private
      key's rho has 32 bytes and its matrix is the one rho expands to. */
  lemma DerivedKeyParses(prims: Primitives, sk: PrivateKey)
    requires Derivable(sk.a, sk.s1, sk.s2)
    requires |sk.rho| == SEEDBYTES && sk.a == MatrixOf(prims, sk.rho, sk.spec.k, sk.spec.l)
    ensures ParsedPublicKey(prims, sk.spec, DerivedKey(prims, sk).bytes) == DerivedKey(prims, sk)
  {
    var t := TVec(prims, sk.a, sk.s1, sk.s2);
    TVecRange(prims, sk.a, sk.s1, sk.s2);
    HighRange(t);
    PublicKeyRoundTrip(prims, sk.spec, sk.rho, High(t));
  }

  /** On coefficients in [0, Q), the high parts lie in [0, 1023] and the
      low parts in [-4095, 4096]. */
  lemma HighRange(t: Vec)
    requires forall i, c :: 0 <= i < |t| && 0 <= c < N ==> 0 <= t[i][c] < Q
    ensures forall i :: 0 <= i < |t| ==> Within(High(t)[i], 0, 1023) && Within(Low(t)[i], -4095, 4096)
  {
    forall i | 0 <= i < |t|
      ensures Within(High(t)[i], 0, 1023) && Within(Low(t)[i], -4095, 4096)
    {
      var r := PowerRound(t[i]);
      assert forall c :: 0 <= c < N ==> 0 <= t[i][c] < Q;
    }
  }

  // ---------------------------------------------------------------------
  // Operations

  /** The arithmetic shared by `derivePublicKey` and `generate`: t1 and t0
      are the high and low parts of t. */
  method ComputeT(prims: Primitives, a: Matrix, s1: Vec, s2: Vec) returns (t0: Vec, t1: Vec)
    requires Derivable(a, s1, s2)
    ensures t0 == Low(TVec(prims, a, s1, s2)) && t1 == High(TVec(prims, a, s1, s2))
  {
    var s1hat := Componentwise(prims.ntt, s1);
    assert s1hat == Each(prims.ntt, s1);
    var t := MulMatrix(a, s1hat);
    assert t == Product(a, s1hat);
    var reduced := Componentwise(Reduce, t);
    assert reduced == Each(Reduce, t);
    var back := Componentwise(prims.invntt, reduced);
    assert back == Each(prims.invntt, reduced);
    var sum := Pairwise(Add, back, Somes(s2));
    var plain := Values(sum);
    assert plain == Both(Add, back, s2);
    var lifted := Componentwise(Caddq, plain);
    assert lifted == TVec(prims, a, s1, s2);
    t0, t1 := VecPowerRound(lifted);
  }

  /** `derivePublicKey()`: the public key whose t1 is the high part of
      A * s1 + s2, packed after the private key's rho. */
  method DerivePublicKey(prims: Primitives, sk: PrivateKey) returns (pk: PublicKey)
    requires Derivable(sk.a, sk.s1, sk.s2)
    ensures pk == DerivedKey(prims, sk)
    ensures |pk.t1| == |sk.a| && forall i :: 0 <= i < |pk.t1| ==> Within(pk.t1[i], 0, 1023)
  {
    var t0, t1 := ComputeT(prims, sk.a, sk.s1, sk.s2);
    TVecRange(prims, sk.a, sk.s1, sk.s2);
    HighRange(TVec(prims, sk.a, sk.s1, sk.s2));
    var bytes := PackPubKey(sk.rho, t1);
    pk := PublicKey(sk.spec, bytes, sk.rho, t1, sk.a);
  }

  /** The DilithiumKeyPair constructor: the public key given, or else the
      one derived from the private key. */
  method NewKeyPair(prims: Primitives, secret: PrivateKey, pub: Option<PublicKey>) returns (kp: KeyPair)
    requires pub.None? ==> Derivable(secret.a, secret.s1, secret.s2)
    ensures kp.secret == secret
    ensures pub.Some? ==> kp.pub == pub.value
    ensures pub.None? ==> kp.pub == DerivedKey(prims, secret)
  {
    if pub.Some? {
      kp := KeyPair(secret, pub.value);
    } else {
      var derived := DerivePublicKey(prims, secret);
      kp := KeyPair(secret, derived);
    }
  }

  /** `expandA` builds `MatrixOf`. */
  lemma ExpandedMatrix(prims: Primitives, rho: seq<Byte>, k: nat, l: nat, a: Matrix)
    requires |a| == k && forall i :: 0 <= i < k ==> |a[i]| == l
    requires forall i, j :: 0 <= i < k && 0 <= j < l ==> a[i][j] == prims.genUniform(rho, CellNonce(i, j))
    ensures a == MatrixOf(prims, rho, k, l)
  {
    forall i | 0 <= i < k
      ensures a[i] == MatrixOf(prims, rho, k, l)[i]
    {
    }
  }

  /** The pair `generate` builds from zeta: its 96-byte digest splits into
      rho, sigma and K; s1 and s2 are sampled from sigma with nonces
      0 .. l - 1 and l .. l + k - 1; t1 and t0 are the high and low parts
      of t; the public key packs rho and t1, and tr is its CRH. */
  function GeneratedPair(prims: Primitives, spec: ParameterSpec, zeta: seq<Byte>): KeyPair
    requires Supported(spec)
  {
    var o := Digest(prims, 3 * SEEDBYTES, [zeta]);
    var rho := o[..SEEDBYTES];
    var sigma := o[SEEDBYTES .. 2 * SEEDBYTES];
    var key := o[2 * SEEDBYTES ..];
    var s1 := Sampled(prims, sigma, spec.eta, 0, spec.l);
    var s2 := Sampled(prims, sigma, spec.eta, spec.l, spec.k);
    var a := MatrixOf(prims, rho, spec.k, spec.l);
    var t := TVec(prims, a, s1, s2);
    var pubbytes := PubKeyBytes(rho, High(t));
    var tr := Crh(prims, pubbytes);
    KeyPair(
      PrivateKey(spec, PrvKeyBytesAsWritten(spec.eta, rho, tr, key, Low(t), s1, s2), rho, tr, key, s1, s2, Low(t),
                 Each(prims.ntt, s1), Each(prims.ntt, s2), Each(prims.ntt, Low(t)), a),
      PublicKey(spec, pubbytes, rho, High(t), a))
  }

  /** n eta polynomials of sigma with nonces from nonce on. */
  function Sampled(prims: Primitives, sigma: seq<Byte>, eta: int, nonce: int, n: nat): (r: Vec)
    ensures |r| == n
  {
    seq<Poly>(n, i requires 0 <= i < n => prims.genEta(sigma, eta, nonce + i))
  }

  /** `DilithiumKeyPair.generate(level, seed)`: zeta is the seed when one
      is given (any array, even an empty one, counts as given) and the 32
      random bytes otherwise. */
  method GenerateKeyPair(prims: Primitives, spec: ParameterSpec, seed: Option<seq<Byte>>, random: seq<Byte>) returns (kp: KeyPair)
    requires Supported(spec)
    ensures kp == GeneratedPair(prims, spec, if seed.Some? then seed.value else random)
  {
    var zeta := if seed.Some? then seed.value else random;
    var o := Digest(prims, 3 * SEEDBYTES, [zeta]);
    var rho := o[..SEEDBYTES];
    var sigma := o[SEEDBYTES .. 2 * SEEDBYTES];
    var key := o[2 * SEEDBYTES ..];
    var s1 := RandomVec(n => prims.genEta(sigma, spec.eta, n), spec.l, 0);
    var s2 := RandomVec(n => prims.genEta(sigma, spec.eta, n), spec.k, spec.l);
    SampledVec(prims, sigma, spec.eta, 0, spec.l, s1);
    SampledVec(prims, sigma, spec.eta, spec.l, spec.k, s2);
    var a := ExpandA(n => prims.genUniform(rho, n), spec.k, spec.l);
    ExpandedMatrix(prims, rho, spec.k, spec.l, a);
    var s1hat := Componentwise(prims.ntt, s1);
    var t0, t1 := ComputeT(prims, a, s1, s2);
    var pubbytes := PackPubKey(rho, t1);
    var tr := Crh(prims, pubbytes);
    var packed := PackPrvKey(spec.eta, rho, tr, key, t0, s1, s2);
    var s2hat := Componentwise(prims.ntt, s2);
    var t0hat := Componentwise(prims.ntt, t0);
    EachOf(prims.ntt, s1, s1hat);
    EachOf(prims.ntt, s2, s2hat);
    EachOf(prims.ntt, t0, t0hat);
    var secret := PrivateKey(spec, packed.value, rho, tr, key, s1, s2, t0, s1hat, s2hat, t0hat, a);
    var pub := PublicKey(spec, pubbytes, rho, t1, a);
    kp := KeyPair(secret, pub);
    GeneratedPairIs(prims, spec, zeta, s1, s2, a, t0, t1);
  }

  /** The entries of r are those of v under f. */
  lemma EachOf(f: Poly -> Poly, v: Vec, r: Vec)
    requires |r| == |v| && forall i :: 0 <= i < |v| ==> r[i] == f(v[i])
    ensures r == Each(f, v)
  {
  }

  /** A vector holding the eta samples of sigma with nonces from nonce on. */
  lemma SampledVec(prims: Primitives, sigma: seq<Byte>, eta: int, nonce: int, n: nat, v: Vec)
    requires |v| == n && forall i :: 0 <= i < n ==> v[i] == prims.genEta(sigma, eta, nonce + i)
    ensures v == Sampled(prims, sigma, eta, nonce, n)
  {
  }

  /** The pair `generate` assembles from the pieces it computes. */
  lemma GeneratedPairIs(prims: Primitives, spec: ParameterSpec, zeta: seq<Byte>, s1: Vec, s2: Vec, a: Matrix, t0: Vec, t1: Vec)
    requires Supported(spec)
    requires var o := Digest(prims, 3 * SEEDBYTES, [zeta]);
      && s1 == Sampled(prims, o[SEEDBYTES .. 2 * SEEDBYTES], spec.eta, 0, spec.l)
      && s2 == Sampled(prims, o[SEEDBYTES .. 2 * SEEDBYTES], spec.eta, spec.l, spec.k)
      && a == MatrixOf(prims, o[..SEEDBYTES], spec.k, spec.l)
    requires Derivable(a, s1, s2) && t0 == Low(TVec(prims, a, s1, s2)) && t1 == High(TVec(prims, a, s1, s2))
    ensures var o := Digest(prims, 3 * SEEDBYTES, [zeta]);
      var rho, key := o[..SEEDBYTES], o[2 * SEEDBYTES ..];
      var pubbytes := PubKeyBytes(rho, t1);
      var tr := Crh(prims, pubbytes);
      GeneratedPair(prims, spec, zeta)
      == KeyPair(PrivateKey(spec, PrvKeyBytesAsWritten(spec.eta, rho, tr, key, t0, s1, s2), rho, tr, key, s1, s2, t0,
                            Each(prims.ntt, s1), Each(prims.ntt, s2), Each(prims.ntt, t0), a),
                 PublicKey(spec, pubbytes, rho, t1, a))
  {
  }

  /** The generated public key is the one the private key alone derives,
      so building the pair from the private key gives the same pair, and
      tr is the CRH of the public key bytes. */
  lemma GeneratedPairDerived(prims: Primitives, spec: ParameterSpec, zeta: seq<Byte>)
    requires Supported(spec)
    ensures var kp := GeneratedPair(prims, spec, zeta);
      && Derivable(kp.secret.a, kp.secret.s1, kp.secret.s2)
      && kp.pub == DerivedKey(prims, kp.secret)
      && kp.secret.tr == Crh(prims, kp.pub.bytes)
  {
  }

  /** The generated keys have the byte lengths of the parameter set. */
  lemma GeneratedPairSizes(prims: Primitives, spec: ParameterSpec, zeta: seq<Byte>)
    requires Supported(spec)
    ensures var kp := GeneratedPair(prims, spec, zeta);
      && |kp.pub.bytes| == PublicKeyByteLength(spec)
      && |kp.secret.bytes| == PrivateKeyByteLength(spec).value
  {
    var kp := GeneratedPair(prims, spec, zeta);
    PrvKeySizeIsByteLength(spec, kp.secret.s1, kp.secret.s2);
    PubKeyLength(kp.secret.rho, kp.pub.t1);
    PrvKeyLength(spec.eta, kp.secret.rho, kp.secret.tr, kp.secret.key, kp.secret.t0, kp.secret.s1, kp.secret.s2);
  }

  /** The generated public key parses back to itself. */
  lemma GeneratedPublicParses(prims: Primitives, spec: ParameterSpec, zeta: seq<Byte>)
    requires Supported(spec)
    ensures var kp := GeneratedPair(prims, spec, zeta);
      ParsedPublicKey(prims, spec, kp.pub.bytes) == kp.pub
  {
    var kp := GeneratedPair(prims, spec, zeta);
    GeneratedPairDerived(prims, spec, zeta);
    DerivedKeyParses(prims, kp.secret);
  }

  /** When the eta sampler keeps to [-eta, eta], the generated private key
      bytes parse back to the generated key except for t0, whose
      coefficients keep only the low eight bits of their offsets. */
  lemma GeneratedPrivateParses(prims: Primitives, spec: ParameterSpec, zeta: seq<Byte>)
    requires Supported(spec) && EtaBounded(prims)
    ensures var sk := GeneratedPair(prims, spec, zeta).secret;
      ParsedPrivateKey(prims, spec, sk.bytes) == Success(sk.(t0 := LowKept(sk.t0), t0hat := Each(prims.ntt, LowKept(sk.t0))))
  {
    var o := Digest(prims, 3 * SEEDBYTES, [zeta]);
    var sigma := o[SEEDBYTES .. 2 * SEEDBYTES];
    SampledBounded(prims, sigma, spec.eta, 0, spec.l);
    SampledBounded(prims, sigma, spec.eta, spec.l, spec.k);
    var rho := o[..SEEDBYTES];
    var key := o[2 * SEEDBYTES ..];
    var s1 := Sampled(prims, sigma, spec.eta, 0, spec.l);
    var s2 := Sampled(prims, sigma, spec.eta, spec.l, spec.k);
    var t := TVec(prims, MatrixOf(prims, rho, spec.k, spec.l), s1, s2);
    var tr := Crh(prims, PubKeyBytes(rho, High(t)));
    PrivateKeyRoundTripAsWritten(prims, spec, rho, tr, key, Low(t), s1, s2);
  }

  /** The public key the parsed private key derives is still the
      generated one, since t0 does not enter it. */
  lemma GeneratedParsedDerives(prims: Primitives, spec: ParameterSpec, zeta: seq<Byte>)
    requires Supported(spec) && EtaBounded(prims)
    ensures var kp := GeneratedPair(prims, spec, zeta);
      var parsed := ParsedPrivateKey(prims, spec, kp.secret.bytes);
      && parsed.Success?
      && Derivable(parsed.value.a, parsed.value.s1, parsed.value.s2)
      && DerivedKey(prims, parsed.value) == kp.pub
  {
    GeneratedPrivateParses(prims, spec, zeta);
    GeneratedPairDerived(prims, spec, zeta);
  }

  /** Samples of a sampler that keeps to [-eta, eta] lie in [-eta, eta]. */
  lemma SampledBounded(prims: Primitives, sigma: seq<Byte>, eta: int, nonce: int, n: nat)
    requires EtaBounded(prims) && (eta == 2 || eta == 4)
    ensures forall i :: 0 <= i < n ==> Within(Sampled(prims, sigma, eta, nonce, n)[i], -eta, eta)
  {
  }
}
