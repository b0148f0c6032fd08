/** Signatures (src/signature.ts): the rejection-sampling signer, the
    length check of `fromBytes`, and the verifier. Hashing, sampling and
    the NTT come in as a `Primitives` value. Each method follows the
    source's statements and is checked against a reference function that
    says what it computes; the lemmas at the end relate the signer to the
    verifier. */
module Signature {
  import opened JsNumber
  import opened Blocks
  import opened Outcomes
  import opened Params
  import opened Polynomial
  import opened PolyVec
  import opened Layout
  import opened Packing
  import opened Primitives
  import opened Keys
  import opened Hints
  import opened Dilithium
  import Sampling
  import HintCodec
  import PackZ
  import W1 = PackW1

  /** `DilithiumSignature`: the parameters and the signature bytes. */
  datatype DilithiumSignature = DilithiumSignature(spec: ParameterSpec, bytes: seq<Byte>)

  /** Why one signing attempt is thrown away (the four `continue`s). */
  datatype Rejection = ZTooLarge | LowTooLarge | CarryTooLarge | TooManyHints

  /** The end of one signing attempt. The source squeezes challenge bytes
      without end; a finite stream that runs out ends the attempt with
      `ChallengeUnavailable`. */
  datatype Attempted = Signed(bytes: seq<Byte>) | Rejected(why: Rejection) | ChallengeUnavailable

  // ---------------------------------------------------------------------
  // Keys the signer and the verifier work with

  /** A private key the signer can use: supported parameters, and vectors
      and a matrix of the sizes the parameters give. */
  predicate SigningKey(sk: PrivateKey) {
    && Supported(sk.spec)
    && |sk.s1hat| == sk.spec.l && |sk.s2hat| == sk.spec.k && |sk.t0hat| == sk.spec.k
    && |sk.a| == sk.spec.k && (forall i :: 0 <= i < |sk.a| ==> |sk.a[i]| == sk.spec.l)
  }

  /** A public key the verifier can use. */
  predicate VerifyingKey(pk: PublicKey) {
    && Supported(pk.spec)
    && |pk.t1| == pk.spec.k
    && |pk.a| == pk.spec.k && (forall i :: 0 <= i < |pk.a| ==> |pk.a[i]| == pk.spec.l)
  }

  /** Every key `fromBytes` parses under supported parameters has those
      sizes, so the two predicates exclude no key the library makes. */
  lemma ParsedKeysUsable(prims: Primitives, spec: ParameterSpec, skBytes: seq<Byte>, pkBytes: seq<Byte>)
    requires Supported(spec)
    ensures ParsedPrivateKey(prims, spec, skBytes).Success?
    ensures SigningKey(ParsedPrivateKey(prims, spec, skBytes).value)
    ensures VerifyingKey(ParsedPublicKey(prims, spec, pkBytes))
  {
  }

  /** The signature length of supported parameters. */
  function SigLength(spec: ParameterSpec): (n: nat)
    requires Supported(spec)
  {
    SignatureByteLength(spec).value
  }

  // ---------------------------------------------------------------------
  // fromBytes

  /** `DilithiumSignature.fromBytes(bytes, level)` as written: any length
      but the level's signature length throws, and the error reports the
      level's public key length as the expected size. */
  function FromBytesAsWritten(bytes: seq<Byte>, level: LevelInfo): (r: Result<DilithiumSignature>)
    ensures r.Success? <==> |bytes| == level.signatureLength
    ensures r.Success? ==> r.value.spec == level.rawParams && r.value.bytes == bytes
    ensures r.Failure? ==> r.error.InvalidSignatureSize? && r.error.found == |bytes|
  {
    if level.signatureLength != |bytes| then Failure(InvalidSignatureSize(level.publicKeyLength, |bytes|))
    else Success(DilithiumSignature(level.rawParams, bytes))
  }

  /** The error of the source names a size the check never asked for: at
      level 2 an empty array is reported as expected to have 1312 bytes,
      the public key length, while 2420 are required. */
  lemma FromBytesMisreports()
    ensures Level(2).Success?
    ensures FromBytesAsWritten([], Level(2).value) == Failure(InvalidSignatureSize(1312, 0))
    ensures Level(2).value.signatureLength == 2420
  {
    LevelTable();
  }

  /** `fromBytes` with the error reporting the length that was checked. */
  function FromBytes(bytes: seq<Byte>, level: LevelInfo): (r: Result<DilithiumSignature>)
    ensures r.Success? <==> |bytes| == level.signatureLength
    ensures r.Success? ==> r.value.spec == level.rawParams && r.value.bytes == bytes
    ensures r.Failure? ==> r.error == InvalidSignatureSize(level.signatureLength, |bytes|)
  {
    if level.signatureLength != |bytes| then Failure(InvalidSignatureSize(level.signatureLength, |bytes|))
    else Success(DilithiumSignature(level.rawParams, bytes))
  }

  /** The two versions accept the same arrays and give the same signature;
      only the reported size differs. */
  lemma FromBytesAgree(bytes: seq<Byte>, level: LevelInfo)
    ensures FromBytes(bytes, level).Success? == FromBytesAsWritten(bytes, level).Success?
    ensures FromBytes(bytes, level).Success? ==> FromBytes(bytes, level) == FromBytesAsWritten(bytes, level)
    ensures FromBytes(bytes, level).Failure? ==> FromBytes(bytes, level).error.found == FromBytesAsWritten(bytes, level).error.found
  {
  }

  // ---------------------------------------------------------------------
  // The message representative

  /** mu as the signer computes it: crh(tr ‖ message). */
  function SignerMu(prims: Primitives, tr: seq<Byte>, message: seq<Byte>): (mu: seq<Byte>)
    ensures |mu| == CRHBYTES
  {
    Crh(prims, Concat([tr, message]))
  }

  /** mu as the verifier computes it: a 48-byte digest of crh(pk) and the
      message. */
  function VerifierMu(prims: Primitives, pkBytes: seq<Byte>, message: seq<Byte>): (mu: seq<Byte>)
    ensures |mu| == CRHBYTES
  {
    Digest(prims, CRHBYTES, [Crh(prims, pkBytes), message])
  }

  /** The private key's seed for the masking vectors: crh(K ‖ mu). */
  function RhoPrime(prims: Primitives, key: seq<Byte>, mu: seq<Byte>): seq<Byte> {
    Crh(prims, Concat([key, mu]))
  }

  /** The signer and the verifier hash the same message representative
      whenever the private key's tr is crh of the public key's bytes. */
  lemma MuAgrees(prims: Primitives, tr: seq<Byte>, pkBytes: seq<Byte>, message: seq<Byte>)
    requires tr == Crh(prims, pkBytes)
    ensures SignerMu(prims, tr, message) == VerifierMu(prims, pkBytes, message)
  {
    assert Concat([tr, message]) == tr + message by {
      assert Concat([message]) == message + Concat([]);
    }
    DigestMerged(prims, CRHBYTES, tr, message);
  }

  // ---------------------------------------------------------------------
  // One signing attempt: the reference

  /** The masking vector of attempt kappa: y[i] from nonce l * kappa + i. */
  function Masking(prims: Primitives, spec: ParameterSpec, rhoprime: seq<Byte>, kappa: int): (y: Vec)
    ensures |y| == spec.l
  {
    seq<Poly>(spec.l, i requires 0 <= i < spec.l => prims.genGamma1(rhoprime, spec.l * kappa + i, spec.gamma1))
  }

  /** w = A y: y to the NTT domain, multiplied by A, reduced, back, and Q
      added to negative coefficients. */
  function Commitment(prims: Primitives, a: Matrix, y: Vec): (w: Vec)
    requires 1 <= |y| && forall i :: 0 <= i < |a| ==> |y| <= |a[i]|
    ensures |w| == |a|
  {
    Each(Caddq, Each(prims.invntt, Each(Reduce, Keys.Product(a, Each(prims.ntt, y)))))
  }

  /** The high parts of `decompose` on every polynomial. */
  function Highs(gamma2: int, w: Vec): (r: Vec)
    requires ValidGamma2(gamma2)
    ensures |r| == |w|
  {
    seq(|w|, i requires 0 <= i < |w| => Decompose(gamma2, w[i]).value.1)
  }

  /** The low parts of `decompose` on every polynomial. */
  function Lows(gamma2: int, w: Vec): (r: Vec)
    requires ValidGamma2(gamma2)
    ensures |r| == |w|
  {
    seq(|w|, i requires 0 <= i < |w| => Decompose(gamma2, w[i]).value.0)
  }

  /** `buf.slice(0, n)` for n >= 0: at most n bytes from the front. */
  function Slice(buf: seq<Byte>, n: nat): (r: seq<Byte>)
    ensures |r| == if n <= |buf| then n else |buf|
  {
    if n <= |buf| then buf[..n] else buf
  }

  /** The packed w1 as the signer hashes it: packed into the signature
      buffer and read back, so cut to the buffer's length. */
  function HashedW1(gamma2: int, w1: Vec, siglen: nat): seq<Byte>
    requires ValidGamma2(gamma2)
  {
    Slice(Concat(W1Blocks(gamma2, w1)), siglen)
  }

  /** c: 32 bytes of SHAKE256 over mu and the packed w1. */
  function ChallengeSeed(prims: Primitives, spec: ParameterSpec, mu: seq<Byte>, w1: Vec): (c: seq<Byte>)
    requires Supported(spec)
    ensures |c| == SEEDBYTES
  {
    Digest(prims, SEEDBYTES, [mu, HashedW1(spec.gamma2, w1, SigLength(spec))])
  }

  /** The bytes `generateChallenge` squeezes from the first 32 bytes of its
      seed. */
  function ChallengeStream(prims: Primitives, seed: seq<Byte>): seq<Byte> {
    prims.shake256(ReadBlock(seed, 0, SEEDBYTES))
  }

  /** A vector of NTT-domain polynomials times the challenge, back from the
      NTT domain: `v.pointwiseMontgomery(cp)` then `invnttTomont`. */
  function Scaled(prims: Primitives, cphat: Poly, v: Vec): (r: Vec)
    ensures |r| == |v|
  {
    Each(prims.invntt, seq(|v|, i requires 0 <= i < |v| => PointwiseMontgomery(cphat, v[i])))
  }

  /** Some polynomial of v fails `chknorm(bound)`, scanning from the first
      as `polyveclChkNorm` and `polyveckChkNorm` do. */
  predicate Exceeds(v: Vec, bound: int)
    decreases |v|
  {
    |v| > 0 && (ChkNorm(v[0], bound) || Exceeds(v[1..], bound))
  }

  /** The scan finds a failing polynomial exactly when one exists. */
  lemma {:induction false} ExceedsIff(v: Vec, bound: int)
    decreases |v|
    ensures Exceeds(v, bound) <==> exists i :: 0 <= i < |v| && ChkNorm(v[i], bound)
  {
    if |v| > 0 {
      ExceedsIff(v[1..], bound);
      if !ChkNorm(v[0], bound) {
        assert forall i :: 1 <= i < |v| ==> v[i] == v[1..][i - 1];
      } else {
        assert ChkNorm(v[0], bound);
      }
    }
  }

  /** Every coefficient of v is below bound in absolute value. */
  predicate Bounded(v: Vec, bound: int) {
    forall i, j :: 0 <= i < |v| && 0 <= j < N ==> Abs(v[i][j]) < bound
  }

  /** For coefficients below 2^30 in magnitude and a bound of at most
      (Q-1)/8, the scan of `chknorm` reports a failure exactly when some
      coefficient reaches the bound. */
  lemma NormBounded(v: Vec, bound: int)
    requires forall i, j :: 0 <= i < |v| && 0 <= j < N ==> -0x4000_0000 <= v[i][j] < 0x4000_0000
    requires bound <= (Q - 1) / 8
    ensures Exceeds(v, bound) <==> !Bounded(v, bound)
  {
    ExceedsIff(v, bound);
    forall i | 0 <= i < |v|
      ensures ChkNorm(v[i], bound) <==> exists j :: 0 <= j < N && Abs(v[i][j]) >= bound
    {
      ChkNormIff(v[i], bound);
    }
  }

  /** The candidate z = y + c s1. */
  function Response(prims: Primitives, sk: PrivateKey, y: Vec, cphat: Poly): (z: Vec)
    requires SigningKey(sk) && |y| == sk.spec.l
    ensures |z| == sk.spec.l
  {
    Each(Reduce, Both(Add, Scaled(prims, cphat, sk.s1hat), y))
  }

  /** w0 - c s2. */
  function LowResidue(prims: Primitives, sk: PrivateKey, w0: Vec, cphat: Poly): (r0: Vec)
    requires SigningKey(sk) && |w0| == sk.spec.k
    ensures |r0| == sk.spec.k
  {
    Each(Reduce, Both(Sub, w0, Scaled(prims, cphat, sk.s2hat)))
  }

  /** c t0. */
  function CarryTerm(prims: Primitives, sk: PrivateKey, cphat: Poly): (ct0: Vec)
    requires SigningKey(sk)
    ensures |ct0| == sk.spec.k
  {
    Each(Reduce, Scaled(prims, cphat, sk.t0hat))
  }

  /** The hints of w0 - c s2 + c t0 against w1. */
  function HintsFor(spec: ParameterSpec, r0: Vec, ct0: Vec, w1: Vec): (h: Hints)
    requires Supported(spec) && |r0| == spec.k && |ct0| == spec.k && |w1| == spec.k
    ensures |h.v| == spec.k && h.cnt == Ones(h.v) && HintCodec.Flags(h.v)
  {
    var h := MakeHints(spec.gamma2, Each(Caddq, Both(Add, r0, ct0)), w1);
    assert HintCodec.Flags(h.v) by {
      forall i | 0 <= i < |h.v|
        ensures Within(h.v[i], 0, 1)
      {
      }
    }
    h
  }

  /** What one attempt has computed once the challenge is known: z = y + c s1,
      w0 - c s2, c t0, and w1. */
  datatype Candidate = Candidate(z: Vec, r0: Vec, ct0: Vec, w1: Vec)

  /** The candidate has the vector lengths of the parameter set. */
  predicate Shaped(spec: ParameterSpec, cand: Candidate) {
    |cand.z| == spec.l && |cand.r0| == spec.k && |cand.ct0| == spec.k && |cand.w1| == spec.k
  }

  /** The candidate of an attempt. */
  function CandidateOf(prims: Primitives, sk: PrivateKey, y: Vec, w0: Vec, w1: Vec, cphat: Poly): (cand: Candidate)
    requires SigningKey(sk) && |y| == sk.spec.l && |w0| == sk.spec.k && |w1| == sk.spec.k
    ensures Shaped(sk.spec, cand) && cand.w1 == w1
  {
    Candidate(Response(prims, sk, y, cphat), LowResidue(prims, sk, w0, cphat), CarryTerm(prims, sk, cphat), w1)
  }

  /** One norm check of an attempt: the vector, its bound, and the reason
      the attempt is dropped when some polynomial reaches the bound. */
  datatype NormCheck = NormCheck(v: Vec, bound: int, why: Rejection)

  /** The norm checks of one attempt in the source's order: z against
      gamma1 - beta, w0 - c s2 against gamma2 - beta, c t0 against gamma2. */
  function NormChecks(spec: ParameterSpec, z: Vec, r0: Vec, ct0: Vec): (checks: seq<NormCheck>)
    ensures |checks| == 3
  {
    [NormCheck(z, spec.gamma1 - spec.beta, ZTooLarge),
     NormCheck(r0, spec.gamma2 - spec.beta, LowTooLarge),
     NormCheck(ct0, spec.gamma2, CarryTooLarge)]
  }

  /** The reason of the first check that fails, if one does. */
  function FirstFailure(checks: seq<NormCheck>): Option<Rejection>
    decreases |checks|
  {
    if |checks| == 0 then None
    else if Exceeds(checks[0].v, checks[0].bound) then Some(checks[0].why)
    else FirstFailure(checks[1..])
  }

  /** No reason is reported exactly when every check passes; a reported
      reason is that of a failing check all of whose predecessors pass. */
  lemma {:induction false} FirstFailureIff(checks: seq<NormCheck>)
    decreases |checks|
    ensures FirstFailure(checks) == None <==> forall i :: 0 <= i < |checks| ==> !Exceeds(checks[i].v, checks[i].bound)
    ensures FirstFailure(checks).Some? ==>
      exists i :: (0 <= i < |checks| && Exceeds(checks[i].v, checks[i].bound)
        && checks[i].why == FirstFailure(checks).value
        && forall j :: 0 <= j < i ==> !Exceeds(checks[j].v, checks[j].bound))
  {
    if |checks| > 0 {
      FirstFailureIff(checks[1..]);
      if !Exceeds(checks[0].v, checks[0].bound) {
        assert forall i :: 1 <= i < |checks| ==> checks[i] == checks[1..][i - 1];
        if FirstFailure(checks).Some? {
          var k :| 0 <= k < |checks[1..]| && Exceeds(checks[1..][k].v, checks[1..][k].bound)
            && checks[1..][k].why == FirstFailure(checks[1..]).value
            && forall j :: 0 <= j < k ==> !Exceeds(checks[1..][j].v, checks[1..][j].bound);
          assert forall j :: 0 <= j < k + 1 ==> !Exceeds(checks[j].v, checks[j].bound) by {
            forall j | 0 <= j < k + 1
              ensures !Exceeds(checks[j].v, checks[j].bound)
            {
              if j > 0 {
                assert checks[j] == checks[1..][j - 1];
              }
            }
          }
          assert checks[k + 1] == checks[1..][k];
        }
      } else {
        assert Exceeds(checks[0].v, checks[0].bound);
      }
    }
  }

  /** What an attempt yields from its candidate: the first failed norm check,
      else the hint count checked and the signature packed. */
  function Judge(spec: ParameterSpec, c: seq<Byte>, cand: Candidate): (r: Attempted)
    requires Supported(spec) && Shaped(spec, cand)
  {
    match FirstFailure(NormChecks(spec, cand.z, cand.r0, cand.ct0))
    case Some(why) => Rejected(why)
    case None => Packed(spec, c, cand.z, HintsFor(spec, cand.r0, cand.ct0, cand.w1))
  }

  /** The hint-count check and the packing of a signature whose norms passed. */
  function Packed(spec: ParameterSpec, c: seq<Byte>, z: Vec, h: Hints): (r: Attempted)
    requires Supported(spec) && h.cnt == Ones(h.v)
  {
    if h.cnt > spec.omega then Rejected(TooManyHints)
    else
      HintCodec.OnesIsCum(h.v);
      Signed(SigHead(spec.gamma1, c, z) + HintCodec.HintBytes(spec.omega, h.v))
  }

  /** What attempt kappa has computed once its challenge is known: the seed
      c, the challenge cp, and the candidate built from cp. */
  datatype Trial = Trial(c: seq<Byte>, cp: Poly, cand: Candidate)

  /** Attempt kappa of `generate` up to its checks: y, w = A y, c from mu
      and w1, then the challenge; None when the challenge stream runs out. */
  function TrialOf(prims: Primitives, sk: PrivateKey, mu: seq<Byte>, rhoprime: seq<Byte>, kappa: int): (t: Option<Trial>)
    requires SigningKey(sk)
    ensures t.Some? ==> Shaped(sk.spec, t.value.cand) && |t.value.c| == SEEDBYTES
    ensures t.Some? ==> t.value.c == ChallengeSeed(prims, sk.spec, mu, t.value.cand.w1)
    ensures t.Some? ==> Sampling.Challenge(sk.spec.tau, ChallengeStream(prims, t.value.c)) == Some(t.value.cp)
    ensures t.Some? ==> t.value.cand.z == Response(prims, sk, Masking(prims, sk.spec, rhoprime, kappa), prims.ntt(t.value.cp))
  {
    var spec := sk.spec;
    var y := Masking(prims, spec, rhoprime, kappa);
    var w := Commitment(prims, sk.a, y);
    var w1 := Highs(spec.gamma2, w);
    var c := ChallengeSeed(prims, spec, mu, w1);
    match Sampling.Challenge(spec.tau, ChallengeStream(prims, c))
    case None => None
    case Some(cp) => Some(Trial(c, cp, CandidateOf(prims, sk, y, Lows(spec.gamma2, w), w1, prims.ntt(cp))))
  }

  /** Attempt kappa of `generate`: the trial, then its checks. */
  function AttemptRef(prims: Primitives, sk: PrivateKey, mu: seq<Byte>, rhoprime: seq<Byte>, kappa: int): (r: Attempted)
    requires SigningKey(sk)
  {
    match TrialOf(prims, sk, mu, rhoprime, kappa)
    case None => ChallengeUnavailable
    case Some(t) => Judge(sk.spec, t.c, t.cand)
  }

  // ---------------------------------------------------------------------
  // One signing attempt: the source's statements

  /** Reading back, from the front, what was written at 0 gives the
      written block cut to the buffer's length. */
  lemma SliceWritten(buf: seq<Byte>, x: seq<Byte>)
    ensures Slice(WriteAt(buf, 0, x), |x|) == Slice(x, |buf|)
  {
    var w := WriteAt(buf, 0, x);
    if |x| <= |buf| {
      assert w[..|x|] == x;
    } else {
      assert w == x[..|buf|];
    }
  }

  /** Lines 49-64 of `generate`: y, w = A y, its decomposition, w1 packed
      into the signature buffer and hashed with mu, c stored at 0. */
  method CommitStep(prims: Primitives, sk: PrivateKey, mu: seq<Byte>, rhoprime: seq<Byte>, kappa: int, sig: seq<Byte>)
    returns (y: Vec, w0: Vec, w1: Vec, c: seq<Byte>, sig': seq<Byte>)
    requires SigningKey(sk) && |sig| == SigLength(sk.spec)
    ensures y == Masking(prims, sk.spec, rhoprime, kappa)
    ensures w1 == Highs(sk.spec.gamma2, Commitment(prims, sk.a, y))
    ensures w0 == Lows(sk.spec.gamma2, Commitment(prims, sk.a, y))
    ensures c == ChallengeSeed(prims, sk.spec, mu, w1)
    ensures |sig'| == |sig| && ReadBlock(sig', 0, SEEDBYTES) == c
  {
    var spec := sk.spec;
    y := RandomVecGamma1(nonce => prims.genGamma1(rhoprime, nonce, spec.gamma1), spec.l, kappa);
    assert y == Masking(prims, spec, rhoprime, kappa);
    var w := Componentwise(prims.ntt, y);
    assert w == Each(prims.ntt, y);
    w := MulMatrix(sk.a, w);
    assert w == Keys.Product(sk.a, Each(prims.ntt, y));
    w := Componentwise(Reduce, w);
    w := Componentwise(prims.invntt, w);
    w := Componentwise(Caddq, w);
    assert w == Commitment(prims, sk.a, y);
    var res := VecDecompose(spec.gamma2, w);
    w0, w1 := res.value.0, res.value.1;
    assert w1 == Highs(spec.gamma2, w);
    assert w0 == Lows(spec.gamma2, w);
    var packed := Packing.PackW1(spec.gamma2, w1, sig);
    SliceWritten(sig, Concat(W1Blocks(spec.gamma2, w1)));
    var hashed := Slice(packed.value, |w1| * W1.W1PackedBytes(spec.gamma2));
    c := Digest(prims, SEEDBYTES, [mu, hashed]);
    sig' := WriteAt(packed.value, 0, c);
    ReadWritten(packed.value, 0, c);
  }

  /** `v.pointwiseMontgomery(cp)` followed by `invnttTomont`. */
  method ScaleStep(prims: Primitives, cphat: Poly, v: Vec) returns (r: Vec)
    ensures r == Scaled(prims, cphat, v)
  {
    r := Componentwise((p: Poly) => PointwiseMontgomery(cphat, p), v);
    r := Componentwise(prims.invntt, r);
  }

  /** `v.chknorm(bound)`: some polynomial of v has a coefficient too large. */
  method NormStep(v: Vec, bound: int) returns (bad: bool)
    ensures bad == Exceeds(v, bound)
  {
    bad := VecChkNorm((p: Poly) => ChkNorm(p, bound), v);
    ExceedsIff(v, bound);
  }

  /** Lines 67-74 of `generate`: z = y + c s1, reduced. */
  method ResponseStep(prims: Primitives, sk: PrivateKey, y: Vec, cphat: Poly) returns (z: Vec)
    requires SigningKey(sk) && |y| == sk.spec.l
    ensures z == Response(prims, sk, y, cphat)
  {
    z := ScaleStep(prims, cphat, sk.s1hat);
    z := Both(Add, z, y);
    z := Componentwise(Reduce, z);
  }

  /** Lines 75-78 of `generate`: w0 - c s2, reduced. */
  method LowResidueStep(prims: Primitives, sk: PrivateKey, w0: Vec, cphat: Poly) returns (r0: Vec)
    requires SigningKey(sk) && |w0| == sk.spec.k
    ensures r0 == LowResidue(prims, sk, w0, cphat) && |r0| == sk.spec.k
  {
    var h := ScaleStep(prims, cphat, sk.s2hat);
    r0 := Both(Sub, w0, h);
    r0 := Componentwise(Reduce, r0);
  }

  /** Lines 83-85 of `generate`: c t0, reduced. */
  method CarryStep(prims: Primitives, sk: PrivateKey, cphat: Poly) returns (ct0: Vec)
    requires SigningKey(sk)
    ensures ct0 == CarryTerm(prims, sk, cphat) && |ct0| == sk.spec.k
  {
    ct0 := ScaleStep(prims, cphat, sk.t0hat);
    ct0 := Componentwise(Reduce, ct0);
  }

  /** Lines 90-98 of `generate`: the hints, their count checked, and
      `packSig` into the buffer, which holds c at 0. */
  method PackStep(spec: ParameterSpec, c: seq<Byte>, z: Vec, r0: Vec, ct0: Vec, w1: Vec, sig: seq<Byte>) returns (r: Attempted)
    requires Supported(spec) && |z| == spec.l && |r0| == spec.k && |ct0| == spec.k && |w1| == spec.k
    requires |sig| == SigLength(spec) && |c| == SEEDBYTES && ReadBlock(sig, 0, SEEDBYTES) == c
    ensures r == Packed(spec, c, z, HintsFor(spec, r0, ct0, w1))
  {
    var sum := Both(Add, r0, ct0);
    sum := Componentwise(Caddq, sum);
    assert sum == Each(Caddq, Both(Add, r0, ct0));
    var hints := MakeHints(spec.gamma2, sum, w1);
    if hints.cnt > spec.omega {
      return Rejected(TooManyHints);
    }
    HintCodec.OnesIsCum(hints.v);
    SigHeadLength(spec.gamma1, sig, z);
    var packed := PackSig(spec.gamma1, spec.omega, sig, sig, z, hints.v);
    assert SigHead(spec.gamma1, sig, z) == SigHead(spec.gamma1, c, z) by {
      ReadWhole(c);
    }
    return Signed(packed.value);
  }

  /** Lines 66-98 of `generate`, from the challenge on. */
  method RespondStep(prims: Primitives, sk: PrivateKey, c: seq<Byte>, y: Vec, w0: Vec, w1: Vec, cp: Poly, sig: seq<Byte>)
    returns (r: Attempted)
    requires SigningKey(sk) && |y| == sk.spec.l && |w0| == sk.spec.k && |w1| == sk.spec.k
    requires |sig| == SigLength(sk.spec) && |c| == SEEDBYTES && ReadBlock(sig, 0, SEEDBYTES) == c
    ensures r == Judge(sk.spec, c, CandidateOf(prims, sk, y, w0, w1, prims.ntt(cp)))
  {
    var spec := sk.spec;
    var cphat := prims.ntt(cp);
    var z := ResponseStep(prims, sk, y, cphat);
    var r0 := LowResidueStep(prims, sk, w0, cphat);
    var ct0 := CarryStep(prims, sk, cphat);
    assert Candidate(z, r0, ct0, w1) == CandidateOf(prims, sk, y, w0, w1, cphat);
    r := Verdict(spec, c, z, r0, ct0, w1, sig);
  }

  /** Lines 71-98 of `generate`: the norm checks, then the hints and the
      packing. */
  method Verdict(spec: ParameterSpec, c: seq<Byte>, z: Vec, r0: Vec, ct0: Vec, w1: Vec, sig: seq<Byte>) returns (r: Attempted)
    requires Supported(spec) && Shaped(spec, Candidate(z, r0, ct0, w1))
    requires |sig| == SigLength(spec) && |c| == SEEDBYTES && ReadBlock(sig, 0, SEEDBYTES) == c
    ensures r == Judge(spec, c, Candidate(z, r0, ct0, w1))
  {
    var why := Screening(NormChecks(spec, z, r0, ct0));
    if why.Some? {
      return Rejected(why.value);
    }
    r := PackStep(spec, c, z, r0, ct0, w1, sig);
  }

  /** Lines 71-88 of `generate`: the norm checks in order, stopping at the
      first that fails. */
  method Screening(checks: seq<NormCheck>) returns (why: Option<Rejection>)
    ensures why == FirstFailure(checks)
  {
    var i := 0;
    while i < |checks|
      invariant i <= |checks|
      invariant FirstFailure(checks) == FirstFailure(checks[i..])
    {
      assert checks[i..][1..] == checks[i + 1..];
      var bad := NormStep(checks[i].v, checks[i].bound);
      if bad {
        return Some(checks[i].why);
      }
      i := i + 1;
    }
    return None;
  }

  /** One pass of the loop of `generate`. The buffer is the one the loop
      reuses; what an attempt yields does not depend on what it held. */
  method Attempt(prims: Primitives, sk: PrivateKey, mu: seq<Byte>, rhoprime: seq<Byte>, kappa: int, sig: seq<Byte>)
    returns (r: Attempted, sig': seq<Byte>)
    requires SigningKey(sk) && |sig| == SigLength(sk.spec)
    ensures r == AttemptRef(prims, sk, mu, rhoprime, kappa)
    ensures |sig'| == |sig|
  {
    var y, w0, w1, c;
    y, w0, w1, c, sig' := CommitStep(prims, sk, mu, rhoprime, kappa, sig);
    ReadWhole(c);
    var cp := Sampling.GenerateChallenge(sk.spec.tau, prims.shake256(ReadBlock(sig', 0, SEEDBYTES)));
    if cp.None? {
      return ChallengeUnavailable, sig';
    }
    r := RespondStep(prims, sk, c, y, w0, w1, cp.value, sig');
  }

  // ---------------------------------------------------------------------
  // verify: the reference

  /** What `verify` reads from a signature of the right length: c, the l
      polynomials of z, and the k hint polynomials. */
  datatype Unpacked = Unpacked(c: seq<Byte>, z: Vec, h: Vec)

  /** Where the hint section starts: after c and the l packed z blocks. */
  function HintStart(spec: ParameterSpec): (n: nat)
    requires Supported(spec)
    ensures n == SEEDBYTES + spec.l * PackZ.ZPackedBytes(spec.gamma1)
    ensures n + spec.omega + spec.k == SigLength(spec)
  {
    if spec.gamma1 == GAMMA1_17 then SEEDBYTES + spec.l * 576 else SEEDBYTES + spec.l * 640
  }

  /** The z polynomials unpacked from offset 32 on, one block each. */
  function ZRun(gamma1: int, bytes: seq<Byte>, n: nat): (z: Vec)
    ensures |z| == n
    ensures gamma1 == GAMMA1_17 || gamma1 == GAMMA1_19 ==> forall i :: 0 <= i < n ==> Within(z[i], 1 - gamma1, gamma1)
  {
    seq(n, i requires 0 <= i < n => PackZ.ZUnpack(gamma1, bytes, SEEDBYTES + i * PackZ.ZPackedBytes(gamma1)))
  }

  /** The signature as `verify` parses it: None for a wrong length or a
      hint section that is not in canonical form. */
  function ParsedSignature(spec: ParameterSpec, bytes: seq<Byte>): (u: Option<Unpacked>)
    requires Supported(spec)
    ensures u.Some? ==> |bytes| == SigLength(spec)
    ensures u.Some? ==> u.value.c == bytes[..SEEDBYTES] && |u.value.z| == spec.l && |u.value.h| == spec.k
    ensures u.Some? ==> forall i :: 0 <= i < spec.l ==> Within(u.value.z[i], 1 - spec.gamma1, spec.gamma1)
    ensures |bytes| == SigLength(spec) ==> (u.Some? <==> HintCodec.Canonical(spec.omega, spec.k, bytes[HintStart(spec)..]))
  {
    if |bytes| != SigLength(spec) then None
    else
      var region := bytes[HintStart(spec)..];
      if !HintCodec.Canonical(spec.omega, spec.k, region) then None
      else Some(Unpacked(bytes[..SEEDBYTES], ZRun(spec.gamma1, bytes, spec.l), HintCodec.HintsOf(spec.omega, spec.k, region)))
  }

  /** The public key's t1 times 2^d, to the NTT domain, times the challenge. */
  function ShiftedT1(prims: Primitives, cphat: Poly, t1: Vec): (r: Vec)
    ensures |r| == |t1|
  {
    seq<Poly>(|t1|, i requires 0 <= i < |t1| => PointwiseMontgomery(cphat, prims.ntt(Shiftl(t1[i]))))
  }

  /** w' = A z - c t1 2^d: computed in the NTT domain, reduced, back from
      it, and Q added to negative coefficients. */
  function Reconstructed(prims: Primitives, pk: PublicKey, z: Vec, cphat: Poly): (w: Vec)
    requires VerifyingKey(pk) && |z| == pk.spec.l
    ensures |w| == pk.spec.k
  {
    Each(Caddq, Each(prims.invntt, Each(Reduce, Both(Sub, Keys.Product(pk.a, Each(prims.ntt, z)), ShiftedT1(prims, cphat, pk.t1)))))
  }

  /** The last step of `verify`: the challenge from c, w1 recovered from w'
      with the hints, and c equal to the digest of mu and the packed w1.
      A challenge stream that runs out is a rejection. */
  predicate Matches(prims: Primitives, pk: PublicKey, message: seq<Byte>, u: Unpacked)
    requires VerifyingKey(pk) && |u.z| == pk.spec.l && |u.h| == pk.spec.k
  {
    match Sampling.Challenge(pk.spec.tau, ChallengeStream(prims, u.c))
    case None => false
    case Some(cp) =>
      var w1 := UseHints(pk.spec.gamma2, Reconstructed(prims, pk, u.z, prims.ntt(cp)), u.h).value;
      u.c == Digest(prims, SEEDBYTES, [VerifierMu(prims, pk.bytes, message), Concat(W1Blocks(pk.spec.gamma2, w1))])
  }

  /** `signature.verify(message, pk)`: the signature parses, every
      coefficient of z is below gamma1 - beta in absolute value, and the
      challenge seed matches. */
  predicate Accepts(prims: Primitives, pk: PublicKey, message: seq<Byte>, bytes: seq<Byte>)
    requires VerifyingKey(pk)
  {
    match ParsedSignature(pk.spec, bytes)
    case None => false
    case Some(u) => Bounded(u.z, pk.spec.gamma1 - pk.spec.beta) && Matches(prims, pk, message, u)
  }

  // ---------------------------------------------------------------------
  // verify: the source's statements

  /** Lines 174-178 of `verify`: l polynomials of z unpacked one block
      after the other from offset 32. */
  method UnpackZ(gamma1: int, bytes: seq<Byte>, l: nat) returns (z: Vec, off: int)
    ensures z == ZRun(gamma1, bytes, l)
    ensures off == SEEDBYTES + l * PackZ.ZPackedBytes(gamma1)
  {
    z := [];
    off := SEEDBYTES;
    var i := 0;
    while i < l
      invariant i <= l && |z| == i
      invariant off == SEEDBYTES + i * PackZ.ZPackedBytes(gamma1)
      invariant forall j :: 0 <= j < i ==> z[j] == PackZ.ZUnpack(gamma1, bytes, SEEDBYTES + j * PackZ.ZPackedBytes(gamma1))
    {
      z := z + [PackZ.ZUnpack(gamma1, bytes, off)];
      off := off + PackZ.ZPackedBytes(gamma1);
      i := i + 1;
    }
  }

  /** Lines 217-230 of `verify`: w' = A z - c t1 2^d, step by step. */
  method ReconstructStep(prims: Primitives, pk: PublicKey, z: Vec, cphat: Poly) returns (w: Vec)
    requires VerifyingKey(pk) && |z| == pk.spec.l
    ensures w == Reconstructed(prims, pk, z, cphat)
  {
    var zhat := Componentwise(prims.ntt, z);
    assert zhat == Each(prims.ntt, z);
    w := MulMatrix(pk.a, zhat);
    assert w == Keys.Product(pk.a, Each(prims.ntt, z));
    var t := Componentwise(Shiftl, pk.t1);
    t := Componentwise(prims.ntt, t);
    t := Componentwise((p: Poly) => PointwiseMontgomery(cphat, p), t);
    assert t == ShiftedT1(prims, cphat, pk.t1);
    w := Both(Sub, w, t);
    w := Componentwise(Reduce, w);
    w := Componentwise(prims.invntt, w);
    w := Componentwise(Caddq, w);
  }

  /** Lines 236-241 of `verify`: the 32 bytes of c compared with c2. */
  method SameSeed(c: seq<Byte>, c2: seq<Byte>) returns (same: bool)
    requires |c| == SEEDBYTES && |c2| == SEEDBYTES
    ensures same <==> c == c2
  {
    var i := 0;
    while i < SEEDBYTES
      invariant i <= SEEDBYTES && c[..i] == c2[..i]
    {
      if c[i] != c2[i] {
        return false;
      }
      assert c[..i + 1] == c[..i] + [c[i]] && c2[..i + 1] == c2[..i] + [c2[i]];
      i := i + 1;
    }
    assert c == c[..SEEDBYTES] && c2 == c2[..SEEDBYTES];
    return true;
  }

  /** Lines 212-242 of `verify`: mu, the challenge, w', the hints used, the
      packed w1 hashed with mu, and the comparison with c. */
  method MatchStep(prims: Primitives, pk: PublicKey, message: seq<Byte>, u: Unpacked) returns (ok: bool)
    requires VerifyingKey(pk) && |u.z| == pk.spec.l && |u.h| == pk.spec.k && |u.c| == SEEDBYTES
    ensures ok == Matches(prims, pk, message, u)
  {
    var spec := pk.spec;
    var mu := Crh(prims, pk.bytes);
    mu := Digest(prims, CRHBYTES, [mu, message]);
    ReadWhole(u.c);
    var cp := Sampling.GenerateChallenge(spec.tau, prims.shake256(u.c));
    if cp.None? {
      return false;
    }
    var w := ReconstructStep(prims, pk, u.z, prims.ntt(cp.value));
    var w1 := UseHints(spec.gamma2, w, u.h);
    var buf := Packing.PackW1(spec.gamma2, w1.value, Zeros(|w1.value| * W1.W1PackedBytes(spec.gamma2)));
    var c2 := Digest(prims, SEEDBYTES, [mu, buf.value]);
    ok := SameSeed(u.c, c2);
  }

  /** Lines 163-206 of `verify`: the length check, c, z, and the hint
      section decoded with its canonical-form checks. */
  method ParseStep(spec: ParameterSpec, bytes: seq<Byte>) returns (u: Option<Unpacked>)
    requires Supported(spec)
    ensures u == ParsedSignature(spec, bytes)
  {
    if |bytes| != SigLength(spec) {
      return None;
    }
    var c := bytes[..SEEDBYTES];
    var z, off := UnpackZ(spec.gamma1, bytes, spec.l);
    var h := HintCodec.DecodeHints(spec.omega, spec.k, bytes[off..]);
    if h.None? {
      return None;
    }
    return Some(Unpacked(c, z, h.value));
  }

  /** `z.chknorm(gamma1 - beta)` on an unpacked z: true exactly when some
      coefficient reaches gamma1 - beta in absolute value. */
  method ZNormStep(spec: ParameterSpec, z: Vec) returns (bad: bool)
    requires Supported(spec)
    requires forall i :: 0 <= i < |z| ==> Within(z[i], 1 - spec.gamma1, spec.gamma1)
    ensures bad <==> !Bounded(z, spec.gamma1 - spec.beta)
  {
    forall i, j | 0 <= i < |z| && 0 <= j < N
      ensures -0x4000_0000 <= z[i][j] < 0x4000_0000
    {
      assert Within(z[i], 1 - spec.gamma1, spec.gamma1);
    }
    bad := NormStep(z, spec.gamma1 - spec.beta);
    NormBounded(z, spec.gamma1 - spec.beta);
  }

  /** Lines 207-242 of `verify` on a parsed signature: the norm check of
      z, then the comparison of the challenge seeds. */
  method CheckParsed(prims: Primitives, pk: PublicKey, message: seq<Byte>, u: Unpacked) returns (ok: bool)
    requires VerifyingKey(pk) && |u.z| == pk.spec.l && |u.h| == pk.spec.k && |u.c| == SEEDBYTES
    requires forall i :: 0 <= i < |u.z| ==> Within(u.z[i], 1 - pk.spec.gamma1, pk.spec.gamma1)
    ensures ok == (Bounded(u.z, pk.spec.gamma1 - pk.spec.beta) && Matches(prims, pk, message, u))
  {
    var bad := ZNormStep(pk.spec, u.z);
    if bad {
      return false;
    }
    ok := MatchStep(prims, pk, message, u);
  }

  /** Accepts in terms of the parsed signature. */
  lemma AcceptsOf(prims: Primitives, pk: PublicKey, message: seq<Byte>, bytes: seq<Byte>, u: Option<Unpacked>)
    requires VerifyingKey(pk) && u == ParsedSignature(pk.spec, bytes)
    ensures Accepts(prims, pk, message, bytes) <==>
      u.Some? && Bounded(u.value.z, pk.spec.gamma1 - pk.spec.beta) && Matches(prims, pk, message, u.value)
  {
  }

  /** `signature.verify(message, pk)`: false for a signature of the wrong
      length, a hint section out of canonical form, a z too large, or a
      challenge seed that does not match; true otherwise. */
  method Verify(prims: Primitives, bytes: seq<Byte>, message: seq<Byte>, pk: PublicKey) returns (ok: bool)
    requires VerifyingKey(pk)
    ensures ok == Accepts(prims, pk, message, bytes)
    ensures |bytes| != SigLength(pk.spec) ==> !ok
  {
    var u := ParseStep(pk.spec, bytes);
    AcceptsOf(prims, pk, message, bytes, u);
    if u.None? {
      return false;
    }
    ok := CheckParsed(prims, pk, message, u.value);
  }

  // ---------------------------------------------------------------------
  // What the signer produces, the verifier reads back

  /** The three norm checks of an attempt pass exactly when none of z,
      w0 - c s2 and c t0 reaches its bound. */
  lemma ChecksPass(spec: ParameterSpec, z: Vec, r0: Vec, ct0: Vec)
    ensures FirstFailure(NormChecks(spec, z, r0, ct0)) == None <==>
      !Exceeds(z, spec.gamma1 - spec.beta) && !Exceeds(r0, spec.gamma2 - spec.beta) && !Exceeds(ct0, spec.gamma2)
  {
    var checks := NormChecks(spec, z, r0, ct0);
    FirstFailureIff(checks);
    assert checks[0].v == z && checks[1].v == r0 && checks[2].v == ct0;
  }

  /** Hints that pass the count check are signed with c, z and their
      section; hints that do not are rejected. */
  lemma PackedSigned(spec: ParameterSpec, c: seq<Byte>, z: Vec, h: Hints)
    requires Supported(spec) && h.cnt == Ones(h.v)
    ensures Packed(spec, c, z, h).Signed? <==> h.cnt <= spec.omega
    ensures HintCodec.Cum(h.v, |h.v|) == h.cnt
    ensures Packed(spec, c, z, h).Signed? ==> Packed(spec, c, z, h).bytes == SigHead(spec.gamma1, c, z) + HintCodec.HintBytes(spec.omega, h.v)
  {
    HintCodec.OnesIsCum(h.v);
  }

  /** An attempt signs exactly when its three norm checks pass and its
      hints have at most omega ones; it then signs with c, z and the hint
      section. */
  lemma JudgeSigned(spec: ParameterSpec, c: seq<Byte>, cand: Candidate)
    requires Supported(spec) && Shaped(spec, cand)
    ensures Judge(spec, c, cand).Signed? <==>
      && FirstFailure(NormChecks(spec, cand.z, cand.r0, cand.ct0)) == None
      && HintsFor(spec, cand.r0, cand.ct0, cand.w1).cnt <= spec.omega
    ensures Judge(spec, c, cand).Signed? ==>
      Judge(spec, c, cand) == Packed(spec, c, cand.z, HintsFor(spec, cand.r0, cand.ct0, cand.w1))
  {
    var why := FirstFailure(NormChecks(spec, cand.z, cand.r0, cand.ct0));
    var h := HintsFor(spec, cand.r0, cand.ct0, cand.w1);
    PackedSigned(spec, c, cand.z, h);
    if why.Some? {
      assert Judge(spec, c, cand) == Rejected(why.value);
    } else {
      assert Judge(spec, c, cand) == Packed(spec, c, cand.z, h);
    }
  }

  /** The bytes of an attempt that signs have the signature length. */
  lemma SignedLength(prims: Primitives, sk: PrivateKey, mu: seq<Byte>, rhoprime: seq<Byte>, kappa: int)
    requires SigningKey(sk)
    ensures AttemptRef(prims, sk, mu, rhoprime, kappa).Signed? ==>
      |AttemptRef(prims, sk, mu, rhoprime, kappa).bytes| == SigLength(sk.spec)
  {
    match TrialOf(prims, sk, mu, rhoprime, kappa)
    case None =>
    case Some(t) =>
      var h := HintsFor(sk.spec, t.cand.r0, t.cand.ct0, t.cand.w1);
      JudgeSigned(sk.spec, t.c, t.cand);
      PackedSigned(sk.spec, t.c, t.cand.z, h);
      SigHeadLength(sk.spec.gamma1, t.c, t.cand.z);
  }

  /** Every coefficient of z = y + c s1 lies in [-6283009, 6283008]: the
      sum is brought into (-Q, Q) before `reduce32`. */
  lemma ResponseRange(prims: Primitives, sk: PrivateKey, y: Vec, cphat: Poly)
    requires SigningKey(sk) && |y| == sk.spec.l
    ensures forall i, j :: 0 <= i < sk.spec.l && 0 <= j < N ==> -6283009 <= Response(prims, sk, y, cphat)[i][j] <= 6283008
  {
    var v := Scaled(prims, cphat, sk.s1hat);
    var s := Both(Add, v, y);
    forall i | 0 <= i < sk.spec.l
      ensures forall j :: 0 <= j < N ==> -6283009 <= Response(prims, sk, y, cphat)[i][j] <= 6283008
    {
      AddCoefs(v[i], y[i]);
      assert s[i] == Add(v[i], y[i]);
      assert Response(prims, sk, y, cphat)[i] == Reduce(s[i]);
    }
  }

  /** A slice of the middle part of a + b + t. */
  lemma Middle(a: seq<Byte>, b: seq<Byte>, t: seq<Byte>, x: nat, y: nat)
    requires x <= y <= |b|
    ensures (a + b + t)[|a| + x .. |a| + y] == b[x..y]
  {
    assert forall j :: 0 <= j < y - x ==> (a + b + t)[|a| + x .. |a| + y][j] == b[x..y][j];
  }

  /** The z blocks after c read back as z. */
  lemma ZRunBack(gamma1: int, c: seq<Byte>, z: Vec, tail: seq<Byte>)
    requires gamma1 == GAMMA1_17 || gamma1 == GAMMA1_19
    requires forall i :: 0 <= i < |z| ==> Within(z[i], 1 - gamma1, gamma1)
    ensures ZRun(gamma1, SigHead(gamma1, c, z) + tail, |z|) == z
  {
    var m := PackZ.ZPackedBytes(gamma1);
    var head := ReadBlock(c, 0, SEEDBYTES);
    var bs := ZBlocks(gamma1, z);
    var bytes := SigHead(gamma1, c, z) + tail;
    assert bytes == head + Concat(bs) + tail;
    var r := ZRun(gamma1, bytes, |z|);
    forall i | 0 <= i < |z|
      ensures r[i] == z[i]
    {
      RunSlice(bs, m, i, i * m);
      Middle(head, Concat(bs), tail, i * m, i * m + m);
      assert bytes[SEEDBYTES + i * m .. SEEDBYTES + i * m + m] == PackZ.ZBytes(gamma1, z[i]);
      ZAt(gamma1, bytes, SEEDBYTES + i * m, z[i]);
    }
  }

  /** What `packSig` writes, `verify` parses back: c, z, and the hints. */
  lemma SignedParses(spec: ParameterSpec, c: seq<Byte>, z: Vec, h: Vec)
    requires Supported(spec) && |c| == SEEDBYTES && |z| == spec.l && |h| == spec.k
    requires HintCodec.Flags(h) && HintCodec.Cum(h, |h|) <= spec.omega && Bounded(z, spec.gamma1)
    ensures ParsedSignature(spec, SigHead(spec.gamma1, c, z) + HintCodec.HintBytes(spec.omega, h)) == Some(Unpacked(c, z, h))
  {
    var head := SigHead(spec.gamma1, c, z);
    var section := HintCodec.HintBytes(spec.omega, h);
    var bytes := head + section;
    SigHeadLength(spec.gamma1, c, z);
    assert |head| == HintStart(spec);
    assert bytes[HintStart(spec)..] == section;
    HintCodec.HintRoundTrip(spec.omega, h);
    ReadWhole(c);
    assert bytes[..SEEDBYTES] == c;
    forall i | 0 <= i < |z|
      ensures Within(z[i], 1 - spec.gamma1, spec.gamma1)
    {
    }
    ZRunBack(spec.gamma1, c, z, section);
  }

  /** With the signer's hints, the verifier's w' = A z - c t1 2^d gives
      back the signer's w1. TrialRecovers derives it from NttIdentity. */
  predicate Recovers(prims: Primitives, pk: PublicKey, t: Trial)
    requires VerifyingKey(pk) && Shaped(pk.spec, t.cand)
  {
    var h := HintsFor(pk.spec, t.cand.r0, t.cand.ct0, t.cand.w1);
    UseHints(pk.spec.gamma2, Reconstructed(prims, pk, t.cand.z, prims.ntt(t.cp)), h.v) == Success(t.cand.w1)
  }

  /** The ring identity correctness rests on, coefficient by coefficient:
      w = A y and the verifier's w' lie in [0, Q), c t0 before its
      reduction lies in (-Q, Q), and w' is congruent to w - c s2 + c t0
      modulo Q. */
  predicate NttAgrees(w: Vec, cs2: Vec, ct0: Vec, wp: Vec) {
    && |cs2| == |w| && |ct0| == |w| && |wp| == |w|
    && forall i, j :: 0 <= i < |w| && 0 <= j < N ==>
      && 0 <= w[i][j] < Q && -Q < ct0[i][j] < Q && 0 <= wp[i][j] < Q
      && (wp[i][j] - (w[i][j] - cs2[i][j] + ct0[i][j])) % Q == 0
  }

  /** NttAgrees for masking vector y and challenge cp, with w' = A z -
      c t1 2^d computed from z = y + c s1. The congruence follows from
      t = A s1 + s2 = t1 2^d + t0 once the NTT is a ring isomorphism; the
      NTT is a parameter here, so it is stated rather than derived. */
  predicate NttIdentity(prims: Primitives, sk: PrivateKey, pk: PublicKey, y: Vec, cp: Poly)
    requires SigningKey(sk) && VerifyingKey(pk) && pk.spec == sk.spec && |y| == sk.spec.l
  {
    var cphat := prims.ntt(cp);
    NttAgrees(Commitment(prims, sk.a, y), Scaled(prims, cphat, sk.s2hat), Scaled(prims, cphat, sk.t0hat),
      Reconstructed(prims, pk, Response(prims, sk, y, cphat), cphat))
  }

  /** NttIdentity for attempt kappa, when it reaches a challenge. */
  predicate AttemptNtt(prims: Primitives, sk: PrivateKey, pk: PublicKey, mu: seq<Byte>, rhoprime: seq<Byte>, kappa: int)
    requires SigningKey(sk) && VerifyingKey(pk) && pk.spec == sk.spec
  {
    var t := TrialOf(prims, sk, mu, rhoprime, kappa);
    t.Some? ==> NttIdentity(prims, sk, pk, Masking(prims, sk.spec, rhoprime, kappa), t.value.cp)
  }

  /** The one residue in [0, Q) congruent to c is c % Q. */
  lemma ResidueOf(c: int, r: int)
    requires 0 <= r < Q && (r - c) % Q == 0
    ensures r == c % Q
  {
    var k := (r - c) / Q;
    assert r - c == Q * k;
    DivModUnique(c, Q, -k, r);
  }

  /** What the signer's reductions establish about one coefficient: w is
      hi 2 gamma2 + lo modulo Q with hi in range, `sub` leaves d congruent
      to lo - c s2, `reduce32` leaves r0 and c t0 congruent to d and to
      the unreduced c t0, and v is a residue of r0 + c t0 in [0, Q). */
  predicate Reduced(gamma2: int, a: int, lo: int, hi: int, x: int, y: int, d: int, r0: int, ct0: int, v: int) {
    && 0 <= hi <= MaxHigh(gamma2) && (hi * 2 * gamma2 + lo - a) % Q == 0
    && (lo - x - d) % Q == 0 && (r0 - d) % Q == 0 && (ct0 - y) % Q == 0
    && 0 <= v < Q && (v - (r0 + ct0)) % Q == 0
  }

  /** One coefficient of w' = w - c s2 + c t0: with w = hi 2 gamma2 + lo,
      r0 = w0 - c s2 and c t0 below gamma2 in size, w' is hi corrected by
      r0 + c t0, and v is the residue of r0 + c t0. */
  lemma CoefCorrected(gamma2: int, a: int, lo: int, hi: int, x: int, y: int, d: int, r0: int, ct0: int, v: int, wp: int)
    requires ValidGamma2(gamma2) && Reduced(gamma2, a, lo, hi, x, y, d, r0, ct0, v)
    requires Abs(r0) < gamma2 && Abs(ct0) < gamma2
    requires 0 <= wp < Q && (wp - (a - x + y)) % Q == 0
    ensures Corrected(gamma2, hi, r0 + ct0, wp) && v == (r0 + ct0) % Q
  {
    var m := hi * 2 * gamma2;
    var e1, e2, e3, e4, e5 := wp - (a - x + y), m + lo - a, lo - x - d, r0 - d, ct0 - y;
    assert e1 == Q * (e1 / Q) && e2 == Q * (e2 / Q) && e3 == Q * (e3 / Q);
    assert e4 == Q * (e4 / Q) && e5 == Q * (e5 / Q);
    var k := e1 / Q - e2 / Q + e3 / Q - e4 / Q - e5 / Q;
    assert wp == m + r0 + ct0 + Q * k;
    DivModUnique(m + r0 + ct0, Q, -k, wp);
    ResidueOf(r0 + ct0, v);
  }

  /** The coefficients of r0 = w0 - c s2 and of c t0 after `reduce32` lie
      within 2^30 in magnitude and are congruent to what was reduced. */
  lemma ReducedRanges(lo: Poly, cs2: Poly, ct0: Poly)
    requires forall j :: 0 <= j < N ==> -Q < ct0[j] < Q
    ensures forall j :: 0 <= j < N ==>
      && -6283009 <= Reduce(Sub(lo, cs2))[j] <= 6283008 && (Reduce(Sub(lo, cs2))[j] - Sub(lo, cs2)[j]) % Q == 0
      && -6283009 <= Reduce(ct0)[j] <= 6283008 && (Reduce(ct0)[j] - ct0[j]) % Q == 0
  {
  }

  /** Every coefficient of r0 = w0 - c s2 and of c t0 lies within 2^30 in
      magnitude once reduced, so the scans of `chknorm` on them are exact. */
  lemma LowsReduced(lo: Vec, cs2: Vec, ct0raw: Vec)
    requires |cs2| == |lo| && |ct0raw| == |lo|
    requires forall i, j :: 0 <= i < |lo| && 0 <= j < N ==> -Q < ct0raw[i][j] < Q
    ensures var r0 := Each(Reduce, Both(Sub, lo, cs2));
      forall i, j :: 0 <= i < |r0| && 0 <= j < N ==> -0x4000_0000 <= r0[i][j] < 0x4000_0000
    ensures var ct0 := Each(Reduce, ct0raw);
      forall i, j :: 0 <= i < |ct0| && 0 <= j < N ==> -0x4000_0000 <= ct0[i][j] < 0x4000_0000
  {
    var r0, ct0 := Each(Reduce, Both(Sub, lo, cs2)), Each(Reduce, ct0raw);
    forall i | 0 <= i < |lo|
      ensures forall j :: 0 <= j < N ==> -0x4000_0000 <= r0[i][j] < 0x4000_0000 && -0x4000_0000 <= ct0[i][j] < 0x4000_0000
    {
      ReducedRanges(lo[i], cs2[i], ct0raw[i]);
      assert r0[i] == Reduce(Sub(lo[i], cs2[i]));
      assert ct0[i] == Reduce(ct0raw[i]);
    }
  }

  /** `caddq` of `add` leaves a residue in [0, Q) congruent to the sum. */
  lemma RowSum(r0: Poly, ct0: Poly, v: Poly)
    requires v == Caddq(Add(r0, ct0))
    ensures forall j :: 0 <= j < N ==> 0 <= v[j] < Q && (v[j] - (r0[j] + ct0[j])) % Q == 0
  {
    AddCoefs(r0, ct0);
    var a := Add(r0, ct0);
    forall j | 0 <= j < N
      ensures (v[j] - (r0[j] + ct0[j])) % Q == 0
    {
      var e1, e2 := v[j] - a[j], r0[j] + ct0[j] - a[j];
      assert e1 == Q * (e1 / Q) && e2 == Q * (e2 / Q);
      MultipleMod(Q, e1 / Q - e2 / Q);
    }
  }

  /** `decompose` splits every coefficient in [0, Q) as hi 2 gamma2 + lo
      modulo Q, with hi in range. */
  lemma DecomposeRow(gamma2: int, w: Poly, lo: Poly, hi: Poly)
    requires ValidGamma2(gamma2) && Decompose(gamma2, w) == Success((lo, hi))
    requires forall j :: 0 <= j < N ==> 0 <= w[j] < Q
    ensures forall j :: 0 <= j < N ==> 0 <= hi[j] <= MaxHigh(gamma2) && (hi[j] * 2 * gamma2 + lo[j] - w[j]) % Q == 0
  {
    DecomposeBounds(gamma2, w);
  }

  /** `sub` then `reduce32` keeps r0 congruent to lo - c s2, and
      `reduce32` keeps c t0 congruent to what it reduced. */
  lemma ReduceRow(lo: Poly, cs2: Poly, ct0raw: Poly, d: Poly, r0: Poly, ct0: Poly)
    requires d == Sub(lo, cs2) && r0 == Reduce(d) && ct0 == Reduce(ct0raw)
    requires forall j :: 0 <= j < N ==> -Q < ct0raw[j] < Q
    ensures forall j :: 0 <= j < N ==>
      (lo[j] - cs2[j] - d[j]) % Q == 0 && (r0[j] - d[j]) % Q == 0 && (ct0[j] - ct0raw[j]) % Q == 0
  {
    ReducedRanges(lo, cs2, ct0raw);
  }

  /** One row of the signer's reductions: `decompose`, `sub`, `reduce32`,
      `add` and `caddq` establish Reduced on every coefficient. */
  lemma RowFacts(gamma2: int, w: Poly, lo: Poly, hi: Poly, cs2: Poly, ct0raw: Poly, d: Poly, r0: Poly, ct0: Poly, v: Poly)
    requires ValidGamma2(gamma2) && Decompose(gamma2, w) == Success((lo, hi))
    requires d == Sub(lo, cs2) && r0 == Reduce(d) && ct0 == Reduce(ct0raw) && v == Caddq(Add(r0, ct0))
    requires forall j :: 0 <= j < N ==> 0 <= w[j] < Q && -Q < ct0raw[j] < Q
    ensures forall j :: 0 <= j < N ==> Reduced(gamma2, w[j], lo[j], hi[j], cs2[j], ct0raw[j], d[j], r0[j], ct0[j], v[j])
  {
    DecomposeRow(gamma2, w, lo, hi);
    ReduceRow(lo, cs2, ct0raw, d, r0, ct0);
    RowSum(r0, ct0, v);
  }

  /** One row of the correction, over residue facts: when w' agrees with
      w - c s2 + c t0, every coefficient is Reduced and r0 and c t0 are
      below gamma2, each coefficient of w' is hi corrected by s = r0 + c t0,
      and v holds the residues of s. */
  lemma RowScalar(gamma2: int, w: Poly, lo: Poly, hi: Poly, cs2: Poly, ct0raw: Poly, d: Poly, r0: Poly, ct0: Poly, v: Poly, wp: Poly, s: Poly)
    requires ValidGamma2(gamma2)
    requires forall j :: 0 <= j < N ==>
      && Reduced(gamma2, w[j], lo[j], hi[j], cs2[j], ct0raw[j], d[j], r0[j], ct0[j], v[j])
      && Abs(r0[j]) < gamma2 && Abs(ct0[j]) < gamma2 && s[j] == r0[j] + ct0[j]
      && 0 <= wp[j] < Q && (wp[j] - (w[j] - cs2[j] + ct0raw[j])) % Q == 0
    ensures forall j :: 0 <= j < N ==> Corrected(gamma2, hi[j], s[j], wp[j])
    ensures v == ResiduesOf(s)
  {
    forall j | 0 <= j < N
      ensures Corrected(gamma2, hi[j], s[j], wp[j]) && v[j] == ResiduesOf(s)[j]
    {
      CoefCorrected(gamma2, w[j], lo[j], hi[j], cs2[j], ct0raw[j], d[j], r0[j], ct0[j], v[j], wp[j]);
    }
  }

  /** Row i of the facts HintsRecoverVec starts from, one coefficient at a
      time. */
  lemma RowPlain(gamma2: int, w: Vec, w1: Vec, lo: Vec, cs2: Vec, ct0raw: Vec, d: Vec, wp: Vec, r0: Vec, ct0: Vec, v: Vec, s: Vec, i: int)
    requires NttAgrees(w, cs2, ct0raw, wp) && 0 <= i < |w|
    requires |w1| == |w| && |lo| == |w| && |d| == |w| && |r0| == |w| && |ct0| == |w| && |v| == |w| && |s| == |w|
    requires forall k, j :: 0 <= k < |w| && 0 <= j < N ==>
      Reduced(gamma2, w[k][j], lo[k][j], w1[k][j], cs2[k][j], ct0raw[k][j], d[k][j], r0[k][j], ct0[k][j], v[k][j])
    requires Bounded(r0, gamma2) && Bounded(ct0, gamma2)
    requires forall k, j :: 0 <= k < |w| && 0 <= j < N ==> s[k][j] == r0[k][j] + ct0[k][j]
    ensures forall j :: 0 <= j < N ==>
      && Reduced(gamma2, w[i][j], lo[i][j], w1[i][j], cs2[i][j], ct0raw[i][j], d[i][j], r0[i][j], ct0[i][j], v[i][j])
      && Abs(r0[i][j]) < gamma2 && Abs(ct0[i][j]) < gamma2 && s[i][j] == r0[i][j] + ct0[i][j]
      && 0 <= wp[i][j] < Q && (wp[i][j] - (w[i][j] - cs2[i][j] + ct0raw[i][j])) % Q == 0
  {
  }

  /** Hint recovery for vectors given by their residue facts: when w'
      agrees with w - c s2 + c t0, every coefficient is Reduced, and r0 and
      c t0 are below gamma2, the hints of v against w1 bring w' back to w1. */
  lemma HintsRecoverVec(gamma2: int, w: Vec, w1: Vec, lo: Vec, cs2: Vec, ct0raw: Vec, d: Vec, wp: Vec, r0: Vec, ct0: Vec, v: Vec)
    requires ValidGamma2(gamma2) && NttAgrees(w, cs2, ct0raw, wp)
    requires |w1| == |w| && |lo| == |w| && |d| == |w| && |r0| == |w| && |ct0| == |w| && |v| == |w|
    requires forall i, j :: 0 <= i < |w| && 0 <= j < N ==>
      Reduced(gamma2, w[i][j], lo[i][j], w1[i][j], cs2[i][j], ct0raw[i][j], d[i][j], r0[i][j], ct0[i][j], v[i][j])
    requires Bounded(r0, gamma2) && Bounded(ct0, gamma2)
    ensures UseHints(gamma2, wp, MakeHints(gamma2, v, w1).v) == Success(w1)
  {
    var s := Sums(r0, ct0);
    forall i | 0 <= i < |w|
      ensures forall j :: 0 <= j < N ==> Corrected(gamma2, w1[i][j], s[i][j], wp[i][j])
      ensures v[i] == ResiduesOf(s[i])
    {
      RowPlain(gamma2, w, w1, lo, cs2, ct0raw, d, wp, r0, ct0, v, s, i);
      RowScalar(gamma2, w[i], lo[i], w1[i], cs2[i], ct0raw[i], d[i], r0[i], ct0[i], v[i], wp[i], s[i]);
    }
    RecoverFromRows(gamma2, w1, s, wp, v);
  }

  /** Every coefficient of the signer's vectors is Reduced. */
  lemma VecReduced(gamma2: int, w: Vec, cs2: Vec, ct0raw: Vec)
    requires ValidGamma2(gamma2) && |cs2| == |w| && |ct0raw| == |w|
    requires forall i, j :: 0 <= i < |w| && 0 <= j < N ==> 0 <= w[i][j] < Q && -Q < ct0raw[i][j] < Q
    ensures var lo, w1 := Lows(gamma2, w), Highs(gamma2, w);
      var d := Both(Sub, lo, cs2);
      var r0, ct0 := Each(Reduce, d), Each(Reduce, ct0raw);
      var v := Each(Caddq, Both(Add, r0, ct0));
      forall i, j :: 0 <= i < |w| && 0 <= j < N ==>
        Reduced(gamma2, w[i][j], lo[i][j], w1[i][j], cs2[i][j], ct0raw[i][j], d[i][j], r0[i][j], ct0[i][j], v[i][j])
  {
    var lo, w1 := Lows(gamma2, w), Highs(gamma2, w);
    var d := Both(Sub, lo, cs2);
    var r0, ct0 := Each(Reduce, d), Each(Reduce, ct0raw);
    var v := Each(Caddq, Both(Add, r0, ct0));
    forall i | 0 <= i < |w|
      ensures forall j :: 0 <= j < N ==>
        Reduced(gamma2, w[i][j], lo[i][j], w1[i][j], cs2[i][j], ct0raw[i][j], d[i][j], r0[i][j], ct0[i][j], v[i][j])
    {
      assert Decompose(gamma2, w[i]) == Success((lo[i], w1[i]));
      assert d[i] == Sub(lo[i], cs2[i]) && r0[i] == Reduce(d[i]) && ct0[i] == Reduce(ct0raw[i]);
      assert v[i] == Caddq(Add(r0[i], ct0[i]));
      RowFacts(gamma2, w[i], lo[i], w1[i], cs2[i], ct0raw[i], d[i], r0[i], ct0[i], v[i]);
    }
  }

  /** The coefficient-wise sums of two vectors, as long as the first. */
  function Sums(a: Vec, b: Vec): (s: Vec)
    requires |a| <= |b|
    ensures |s| == |a| && forall i, j :: 0 <= i < |a| && 0 <= j < N ==> s[i][j] == a[i][j] + b[i][j]
  {
    seq(|a|, i requires 0 <= i < |a| => seq(N, j requires 0 <= j < N => a[i][j] + b[i][j]))
  }

  /** Hint recovery from rows that are each corrected: the hints of the
      residues of s against w1 bring w' back to w1. */
  lemma RecoverFromRows(gamma2: int, w1: Vec, s: Vec, wp: Vec, v: Vec)
    requires ValidGamma2(gamma2) && |s| == |w1| && |wp| == |w1| && |v| == |w1|
    requires forall i, j :: 0 <= i < |w1| && 0 <= j < N ==> Corrected(gamma2, w1[i][j], s[i][j], wp[i][j])
    requires forall i :: 0 <= i < |w1| ==> v[i] == ResiduesOf(s[i])
    ensures UseHints(gamma2, wp, MakeHints(gamma2, v, w1).v) == Success(w1)
  {
    HintsRecover(gamma2, w1, s, wp);
    assert v == Residues(s);
  }

  /** A bound that holds holds for every larger bound. */
  lemma BoundedWithin(v: Vec, a: int, b: int)
    requires Bounded(v, a) && a <= b
    ensures Bounded(v, b)
  {
  }

  /** A vector of coefficients within 2^30 that passes `chknorm(bound)` is
      below every larger bound. */
  lemma CheckedBounded(v: Vec, bound: int, larger: int)
    requires forall i, j :: 0 <= i < |v| && 0 <= j < N ==> -0x4000_0000 <= v[i][j] < 0x4000_0000
    requires bound <= larger <= (Q - 1) / 8 && !Exceeds(v, bound)
    ensures Bounded(v, larger)
  {
    NormBounded(v, bound);
    BoundedWithin(v, bound, larger);
  }

  /** When the checks on r0 = w0 - c s2 and c t0 pass, both are below gamma2
      in absolute value. */
  lemma LowsBounded(gamma2: int, beta: int, lo: Vec, cs2: Vec, ct0raw: Vec)
    requires ValidGamma2(gamma2) && 0 <= beta && |cs2| == |lo| && |ct0raw| == |lo|
    requires forall i, j :: 0 <= i < |lo| && 0 <= j < N ==> -Q < ct0raw[i][j] < Q
    requires !Exceeds(Each(Reduce, Both(Sub, lo, cs2)), gamma2 - beta)
    requires !Exceeds(Each(Reduce, ct0raw), gamma2)
    ensures Bounded(Each(Reduce, Both(Sub, lo, cs2)), gamma2) && Bounded(Each(Reduce, ct0raw), gamma2)
  {
    LowsReduced(lo, cs2, ct0raw);
    CheckedBounded(Each(Reduce, Both(Sub, lo, cs2)), gamma2 - beta, gamma2);
    CheckedBounded(Each(Reduce, ct0raw), gamma2, gamma2);
  }

  /** Hint recovery from the ring identity: when w' agrees with w - c s2 +
      c t0 and the two low-part checks pass, the hints of r0 + c t0 against
      w1 bring w' back to w1. */
  lemma HintsRecoverFromNtt(gamma2: int, beta: int, w: Vec, cs2: Vec, ct0raw: Vec, wp: Vec)
    requires ValidGamma2(gamma2) && 0 <= beta && NttAgrees(w, cs2, ct0raw, wp)
    requires !Exceeds(Each(Reduce, Both(Sub, Lows(gamma2, w), cs2)), gamma2 - beta)
    requires !Exceeds(Each(Reduce, ct0raw), gamma2)
    ensures var r0, ct0 := Each(Reduce, Both(Sub, Lows(gamma2, w), cs2)), Each(Reduce, ct0raw);
      UseHints(gamma2, wp, MakeHints(gamma2, Each(Caddq, Both(Add, r0, ct0)), Highs(gamma2, w)).v) == Success(Highs(gamma2, w))
  {
    var lo, w1 := Lows(gamma2, w), Highs(gamma2, w);
    var d := Both(Sub, lo, cs2);
    var r0, ct0 := Each(Reduce, d), Each(Reduce, ct0raw);
    var v := Each(Caddq, Both(Add, r0, ct0));
    LowsBounded(gamma2, beta, lo, cs2, ct0raw);
    VecReduced(gamma2, w, cs2, ct0raw);
    HintsRecoverVec(gamma2, w, w1, lo, cs2, ct0raw, d, wp, r0, ct0, v);
  }

  /** The hints of a candidate built from y and challenge cp recover its
      w1 once its checks pass, given the ring identity for y and cp. */
  lemma CandidateRecovers(prims: Primitives, sk: PrivateKey, pk: PublicKey, y: Vec, t: Trial)
    requires SigningKey(sk) && VerifyingKey(pk) && pk.spec == sk.spec && |y| == sk.spec.l
    requires NttIdentity(prims, sk, pk, y, t.cp)
    requires var w := Commitment(prims, sk.a, y);
      t.cand == CandidateOf(prims, sk, y, Lows(sk.spec.gamma2, w), Highs(sk.spec.gamma2, w), prims.ntt(t.cp))
    requires FirstFailure(NormChecks(sk.spec, t.cand.z, t.cand.r0, t.cand.ct0)) == None
    ensures Recovers(prims, pk, t)
  {
    var cphat := prims.ntt(t.cp);
    ChecksPass(sk.spec, t.cand.z, t.cand.r0, t.cand.ct0);
    HintsRecoverFromNtt(sk.spec.gamma2, sk.spec.beta, Commitment(prims, sk.a, y), Scaled(prims, cphat, sk.s2hat),
      Scaled(prims, cphat, sk.t0hat), Reconstructed(prims, pk, t.cand.z, cphat));
  }

  /** The hints of an attempt whose checks pass recover its w1, given the
      ring identity for its masking vector and challenge. */
  lemma TrialRecovers(prims: Primitives, sk: PrivateKey, pk: PublicKey, mu: seq<Byte>, rhoprime: seq<Byte>, kappa: int)
    requires SigningKey(sk) && VerifyingKey(pk) && pk.spec == sk.spec
    requires AttemptNtt(prims, sk, pk, mu, rhoprime, kappa)
    ensures var t := TrialOf(prims, sk, mu, rhoprime, kappa);
      t.Some? && FirstFailure(NormChecks(sk.spec, t.value.cand.z, t.value.cand.r0, t.value.cand.ct0)) == None ==>
        Recovers(prims, pk, t.value)
  {
    var t := TrialOf(prims, sk, mu, rhoprime, kappa);
    if t.Some? && FirstFailure(NormChecks(sk.spec, t.value.cand.z, t.value.cand.r0, t.value.cand.ct0)) == None {
      var y := Masking(prims, sk.spec, rhoprime, kappa);
      CandidateRecovers(prims, sk, pk, y, t.value);
    }
  }

  /** The packed w1 fits in the signature buffer that the signer packs it
      into before hashing it. */
  predicate W1Fits(spec: ParameterSpec)
    requires Supported(spec)
  {
    spec.k * W1.W1PackedBytes(spec.gamma2) <= SigLength(spec)
  }

  /** The three parameter sets of the library are supported and their
      packed w1 fits. */
  lemma LevelsFit()
    ensures Supported(Level2P) && W1Fits(Level2P)
    ensures Supported(Level3P) && W1Fits(Level3P)
    ensures Supported(Level5P) && W1Fits(Level5P)
  {
  }

  /** The verifier's challenge and hashing agree with the signer's: the
      same c gives the same challenge, and when the hints recover w1 the
      packed w1 and mu hash to c. */
  lemma MatchesSigned(prims: Primitives, pk: PublicKey, message: seq<Byte>, tr: seq<Byte>, t: Trial, h: Vec)
    requires VerifyingKey(pk) && Shaped(pk.spec, t.cand) && |h| == pk.spec.k && W1Fits(pk.spec)
    requires tr == Crh(prims, pk.bytes)
    requires t.c == ChallengeSeed(prims, pk.spec, SignerMu(prims, tr, message), t.cand.w1)
    requires Sampling.Challenge(pk.spec.tau, ChallengeStream(prims, t.c)) == Some(t.cp)
    requires UseHints(pk.spec.gamma2, Reconstructed(prims, pk, t.cand.z, prims.ntt(t.cp)), h) == Success(t.cand.w1)
    ensures Matches(prims, pk, message, Unpacked(t.c, t.cand.z, h))
  {
    var spec := pk.spec;
    MuAgrees(prims, tr, pk.bytes, message);
    var packed := Concat(W1Blocks(spec.gamma2, t.cand.w1));
    RunLength(W1Blocks(spec.gamma2, t.cand.w1), W1.W1PackedBytes(spec.gamma2));
    assert HashedW1(spec.gamma2, t.cand.w1, SigLength(spec)) == packed;
  }

  /** A candidate whose z coefficients are below 2^30 in magnitude and
      whose three checks pass has z below gamma1 - beta in absolute value. */
  lemma PassedBounded(spec: ParameterSpec, z: Vec, r0: Vec, ct0: Vec)
    requires Supported(spec)
    requires forall i, j :: 0 <= i < |z| && 0 <= j < N ==> -0x4000_0000 <= z[i][j] < 0x4000_0000
    requires FirstFailure(NormChecks(spec, z, r0, ct0)) == None
    ensures Bounded(z, spec.gamma1 - spec.beta)
  {
    ChecksPass(spec, z, r0, ct0);
    NormBounded(z, spec.gamma1 - spec.beta);
  }

  /** Bytes laid out as c, z and a hint section are accepted when z is
      below gamma1 - beta, the hints fit in omega, and the parsed
      signature matches. */
  lemma LayoutAccepted(prims: Primitives, pk: PublicKey, message: seq<Byte>, c: seq<Byte>, z: Vec, h: Vec)
    requires VerifyingKey(pk) && |c| == SEEDBYTES && |z| == pk.spec.l && |h| == pk.spec.k
    requires HintCodec.Flags(h) && HintCodec.Cum(h, |h|) <= pk.spec.omega
    requires Bounded(z, pk.spec.gamma1 - pk.spec.beta)
    requires Matches(prims, pk, message, Unpacked(c, z, h))
    ensures Accepts(prims, pk, message, SigHead(pk.spec.gamma1, c, z) + HintCodec.HintBytes(pk.spec.omega, h))
  {
    var bytes := SigHead(pk.spec.gamma1, c, z) + HintCodec.HintBytes(pk.spec.omega, h);
    assert Bounded(z, pk.spec.gamma1);
    SignedParses(pk.spec, c, z, h);
    AcceptsOf(prims, pk, message, bytes, Some(Unpacked(c, z, h)));
  }

  /** A trial that signs is accepted: its seed and challenge are the
      signer's, its z is small, and, once its checks pass, its hints
      recover w1. */
  lemma TrialAccepted(prims: Primitives, pk: PublicKey, message: seq<Byte>, tr: seq<Byte>, t: Trial)
    requires VerifyingKey(pk) && Shaped(pk.spec, t.cand) && W1Fits(pk.spec) && |t.c| == SEEDBYTES
    requires tr == Crh(prims, pk.bytes)
    requires t.c == ChallengeSeed(prims, pk.spec, SignerMu(prims, tr, message), t.cand.w1)
    requires Sampling.Challenge(pk.spec.tau, ChallengeStream(prims, t.c)) == Some(t.cp)
    requires forall i, j :: 0 <= i < |t.cand.z| && 0 <= j < N ==> -0x4000_0000 <= t.cand.z[i][j] < 0x4000_0000
    requires FirstFailure(NormChecks(pk.spec, t.cand.z, t.cand.r0, t.cand.ct0)) == None ==> Recovers(prims, pk, t)
    ensures Judge(pk.spec, t.c, t.cand).Signed? ==> Accepts(prims, pk, message, Judge(pk.spec, t.c, t.cand).bytes)
  {
    var spec := pk.spec;
    var cand := t.cand;
    var h := HintsFor(spec, cand.r0, cand.ct0, cand.w1);
    JudgeSigned(spec, t.c, cand);
    if Judge(spec, t.c, cand).Signed? {
      PackedSigned(spec, t.c, cand.z, h);
      PassedBounded(spec, cand.z, cand.r0, cand.ct0);
      MatchesSigned(prims, pk, message, tr, t, h.v);
      LayoutAccepted(prims, pk, message, t.c, cand.z, h.v);
    }
  }

  /** Correctness of one attempt: when the private key's tr is crh of the
      public key's bytes, the keys share parameters, the packed w1 fits and
      the ring identity holds for the attempt's y and challenge, the bytes
      of an attempt that signs are accepted by the verifier. */
  lemma SignedAccepted(prims: Primitives, sk: PrivateKey, pk: PublicKey, message: seq<Byte>, rhoprime: seq<Byte>, kappa: int)
    requires SigningKey(sk) && VerifyingKey(pk) && pk.spec == sk.spec && W1Fits(sk.spec)
    requires sk.tr == Crh(prims, pk.bytes)
    requires AttemptNtt(prims, sk, pk, SignerMu(prims, sk.tr, message), rhoprime, kappa)
    ensures var r := AttemptRef(prims, sk, SignerMu(prims, sk.tr, message), rhoprime, kappa);
      r.Signed? ==> Accepts(prims, pk, message, r.bytes)
  {
    var mu := SignerMu(prims, sk.tr, message);
    var t := TrialOf(prims, sk, mu, rhoprime, kappa);
    if t.Some? {
      ResponseRange(prims, sk, Masking(prims, sk.spec, rhoprime, kappa), prims.ntt(t.value.cp));
      TrialRecovers(prims, sk, pk, mu, rhoprime, kappa);
      TrialAccepted(prims, pk, message, sk.tr, t.value);
    }
  }

  // ---------------------------------------------------------------------
  // generate

  /** Attempt kappa of signing message with sk: mu and rhoprime as
      `generate` computes them. */
  function AttemptOf(prims: Primitives, sk: PrivateKey, message: seq<Byte>, kappa: int): Attempted
    requires SigningKey(sk)
  {
    var mu := SignerMu(prims, sk.tr, message);
    AttemptRef(prims, sk, mu, RhoPrime(prims, sk.key, mu), kappa)
  }

  /** Attempt kappa of signing message with sk, for every kappa. */
  function Attempts(prims: Primitives, sk: PrivateKey, message: seq<Byte>): nat -> Attempted
    requires SigningKey(sk)
  {
    (kappa: nat) => AttemptOf(prims, sk, message, kappa)
  }

  /** The bytes of the first of attempts kappa to fuel - 1 that signs. */
  function FirstSigned(attempt: nat -> Attempted, kappa: nat, fuel: nat): Option<seq<Byte>>
    decreases fuel - kappa
  {
    if kappa >= fuel then None
    else if attempt(kappa).Signed? then Some(attempt(kappa).bytes)
    else FirstSigned(attempt, kappa + 1, fuel)
  }

  /** FirstSigned finds nothing exactly when none of attempts kappa to
      fuel - 1 signs; what it finds are the bytes of a signing attempt none
      of whose predecessors from kappa on signs. */
  lemma {:induction false} FirstSignedIff(attempt: nat -> Attempted, kappa: nat, fuel: nat)
    decreases fuel - kappa
    ensures FirstSigned(attempt, kappa, fuel).None? <==> forall k: nat :: kappa <= k < fuel ==> !attempt(k).Signed?
    ensures FirstSigned(attempt, kappa, fuel).Some? ==>
      exists k: nat :: kappa <= k < fuel && attempt(k) == Signed(FirstSigned(attempt, kappa, fuel).value) &&
        (forall j: nat :: kappa <= j < k ==> !attempt(j).Signed?)
  {
    if kappa < fuel && !attempt(kappa).Signed? {
      FirstSignedIff(attempt, kappa + 1, fuel);
      if FirstSigned(attempt, kappa, fuel).Some? {
        var k: nat :| kappa + 1 <= k < fuel && attempt(k) == Signed(FirstSigned(attempt, kappa, fuel).value) &&
          (forall j: nat :: kappa + 1 <= j < k ==> !attempt(j).Signed?);
        assert forall j: nat :: kappa <= j < k ==> !attempt(j).Signed?;
      }
    }
  }

  /** Correctness of signing: under the conditions of SignedAccepted for
      every attempt, the bytes of the first attempt that signs are accepted
      by the verifier. */
  lemma FirstSignedAccepted(prims: Primitives, sk: PrivateKey, pk: PublicKey, message: seq<Byte>, fuel: nat)
    requires SigningKey(sk) && VerifyingKey(pk) && pk.spec == sk.spec && W1Fits(sk.spec)
    requires sk.tr == Crh(prims, pk.bytes)
    requires forall kappa: nat ::
      AttemptNtt(prims, sk, pk, SignerMu(prims, sk.tr, message), RhoPrime(prims, sk.key, SignerMu(prims, sk.tr, message)), kappa)
    ensures FirstSigned(Attempts(prims, sk, message), 0, fuel).Some? ==>
      Accepts(prims, pk, message, FirstSigned(Attempts(prims, sk, message), 0, fuel).value)
  {
    var attempts := Attempts(prims, sk, message);
    var first := FirstSigned(attempts, 0, fuel);
    FirstSignedIff(attempts, 0, fuel);
    if first.Some? {
      var k: nat :| k < fuel && attempts(k) == Signed(first.value);
      var mu := SignerMu(prims, sk.tr, message);
      assert attempts(k) == AttemptRef(prims, sk, mu, RhoPrime(prims, sk.key, mu), k);
      SignedAccepted(prims, sk, pk, message, RhoPrime(prims, sk.key, mu), k);
    }
  }

  /** `DilithiumSignature.generate(message, sk)`, stopped after fuel
      attempts: the signature of the first attempt that signs, with the
      private key's parameters and the signature length, or None when none
      of the first fuel attempts signs. */
  method Sign(prims: Primitives, message: seq<Byte>, sk: PrivateKey, fuel: nat) returns (r: Option<DilithiumSignature>)
    requires SigningKey(sk)
    ensures r.Some? ==> r.value.spec == sk.spec && |r.value.bytes| == SigLength(sk.spec)
    ensures r.None? <==> FirstSigned(Attempts(prims, sk, message), 0, fuel).None?
    ensures r.Some? ==> r.value.bytes == FirstSigned(Attempts(prims, sk, message), 0, fuel).value
  {
    var spec := sk.spec;
    var sig := Zeros(SigLength(spec));
    var conc := MergeArrays([sk.tr, message]);
    var mu := Crh(prims, conc);
    conc := MergeArrays([sk.key, mu]);
    var rhoprime := Crh(prims, conc);
    ghost var attempts := Attempts(prims, sk, message);
    var kappa := 0;
    while kappa < fuel
      invariant kappa <= fuel && |sig| == SigLength(spec)
      invariant FirstSigned(attempts, kappa, fuel) == FirstSigned(attempts, 0, fuel)
    {
      var a;
      a, sig := Attempt(prims, sk, mu, rhoprime, kappa, sig);
      assert a == attempts(kappa);
      if a.Signed? {
        SignedLength(prims, sk, mu, rhoprime, kappa);
        return Some(DilithiumSignature(spec, a.bytes));
      }
      kappa := kappa + 1;
    }
    return None;
  }
}
