/** The collaborators the key and signature code calls but this model does
    not define: SHAKE256 from the `sha3` package, the three polynomial
    samplers of src/poly.ts (`genUniformRandom`, `genRandom`,
    `genRandomGamma1`, whose SHAKE buffers and refill loops are left out;
    their rejection steps are `Sampling.RejUniform` and `Sampling.RejEta`),
    and the NTT pair, whose table of roots lives in constants.ts, which is
    not part of this model. They are fields of one value so that every
    operation of the protocol layer takes them as a parameter. */
module Primitives {
  import opened JsNumber
  import opened Blocks
  import opened Params
  import opened Polynomial
  import opened Layout

  datatype Primitives = Primitives(
    /** The byte stream SHAKE256 squeezes after absorbing the input. */
    shake256: seq<Byte> -> seq<Byte>,
    /** `genUniformRandom(rho, nonce)`. */
    genUniform: (seq<Byte>, int) -> Poly,
    /** `genRandom(rho, eta, nonce)`. */
    genEta: (seq<Byte>, int, int) -> Poly,
    /** `genRandomGamma1(seed, nonce, N, gamma1)`. */
    genGamma1: (seq<Byte>, int, int) -> Poly,
    /** `ntt` and `invnttTomont` of one polynomial. */
    ntt: Poly -> Poly,
    invntt: Poly -> Poly)

  /** `getSHAKE256Digest(sz, ...parts)`: the first sz bytes SHAKE256
      squeezes from the merged parts. An incremental hash (`update` once
      per part, then `digest`) is the same value. */
  function Digest(prims: Primitives, sz: nat, parts: seq<seq<Byte>>): (r: seq<Byte>)
    ensures |r| == sz
  {
    ReadBlock(prims.shake256(Concat(parts)), 0, sz)
  }

  /** `crh(x)`: a CRHBYTES-byte digest of x. */
  function Crh(prims: Primitives, x: seq<Byte>): (r: seq<Byte>)
    ensures |r| == CRHBYTES
  {
    Digest(prims, CRHBYTES, [x])
  }

  /** The digest sees only the concatenation of its parts: hashing the
      merged array of a and b is hashing a then b. */
  lemma DigestMerged(prims: Primitives, sz: nat, a: seq<Byte>, b: seq<Byte>)
    ensures Digest(prims, sz, [a + b]) == Digest(prims, sz, [a, b])
    ensures Crh(prims, a + b) == Digest(prims, CRHBYTES, [a, b])
  {
    OneBlock(a + b);
    OneBlock(a);
    assert [a, b][..1] == [a];
    assert Concat([a, b]) == Concat([a]) + b;
  }

  lemma OneBlock(a: seq<Byte>)
    ensures Concat([a]) == a
  {
    assert [a][..0] == [];
    assert Concat([a]) == Concat([]) + a;
  }

  /** SHAKE256 is an extendable-output function: a shorter digest is a
      prefix of a longer one. */
  lemma DigestPrefix(prims: Primitives, m: nat, n: nat, parts: seq<seq<Byte>>)
    requires m <= n
    ensures Digest(prims, m, parts) == Digest(prims, n, parts)[..m]
  {
    var a := Digest(prims, m, parts);
    var b := Digest(prims, n, parts);
    assert forall j :: 0 <= j < m ==> a[j] == b[j];
  }
}
