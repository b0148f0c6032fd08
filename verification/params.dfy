/** The fixed constants of the scheme and the three parameter records
    (src/param.ts). The constants module of the library is not part of this
    model; its values are the round-3 reference values stated here. */
module Params {
  import opened JsNumber

  const N: int := 256
  const Q: int := 8380417
  const D: int := 13
  /** Q^-1 modulo 2^32, used by Montgomery reduction. */
  const QINV: int := 58728449
  const SEEDBYTES: int := 32
  const CRHBYTES: int := 48
  const POLYT1_PACKEDBYTES: int := 320
  const POLYT0_PACKEDBYTES: int := 416
  /** Bytes per SHAKE256 squeeze block. */
  const SHAKE256_RATE: int := 136

  /** The two supported low-order rounding ranges. */
  const GAMMA2_32: int := (Q - 1) / 32
  const GAMMA2_88: int := (Q - 1) / 88

  /** `1 << 17` and `1 << 19`, the two supported y/z coefficient ranges. */
  const GAMMA1_17: int := 0x2_0000
  const GAMMA1_19: int := 0x8_0000

  datatype ParameterSpec = ParameterSpec(
    name: string,
    k: nat,
    l: nat,
    gamma1: int,
    gamma2: int,
    tau: int,
    d: int,
    chalentropy: int,
    eta: int,
    beta: int,
    omega: int)

  const Level2P: ParameterSpec := ParameterSpec("Dilithium Level 2", 4, 4, GAMMA1_17, GAMMA2_88, 39, 13, 192, 2, 78, 80)
  const Level3P: ParameterSpec := ParameterSpec("Dilithium Level 3", 6, 5, GAMMA1_19, GAMMA2_32, 49, 13, 225, 4, 196, 55)
  const Level5P: ParameterSpec := ParameterSpec("Dilithium Level 5", 8, 7, GAMMA1_19, GAMMA2_32, 60, 13, 257, 2, 120, 75)

  /** The parameter values every packing, rounding and sampling routine
      accepts without throwing, together with the relations the scheme
      relies on: beta = tau * eta (eta being 2 or 4) bounds the secret's contribution to z,
      tau fits the 64 sign bits of the challenge sampler, hint counts and
      markers fit in a byte, and matrix indices fit the 8-bit halves of the
      16-bit expansion nonce. */
  predicate Supported(p: ParameterSpec) {
    && (p.gamma1 == GAMMA1_17 || p.gamma1 == GAMMA1_19)
    && (p.gamma2 == GAMMA2_88 || p.gamma2 == GAMMA2_32)
    && ((p.eta == 2 && p.beta == 2 * p.tau) || (p.eta == 4 && p.beta == 4 * p.tau))
    && 0 < p.tau <= 64
    && p.d == D
    && 0 < p.omega < 256
    && 0 < p.k < 256 && 0 < p.l < 256
  }

  /** A parameter record the library can run with. */
  type LevelSpec = p: ParameterSpec | Supported(p) witness Level2P
}
