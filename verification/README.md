# CRYSTALS-Dilithium (round 3) in Dafny

This project models the core of a TypeScript implementation of the
CRYSTALS-Dilithium round-3 signature scheme. The model covers:

- the polynomial arithmetic over Z_Q with Q = 8380417;
- the rounding functions (`powerRound`, `decompose`) and the hint functions;
- the byte codecs of t1, eta, t0, z and w1 polynomials;
- the rejection samplers and the challenge sampler;
- the vector and matrix operations;
- the key, signature and hint-section layouts;
- the key objects, key-pair generation, the signing loop and verification;
- the level table.

Everything is stated on JavaScript's own terms. A `number` is an
unbounded integer, and every 32-bit operator (`|`, `&`, `>>`, `>>>`,
`<<`) is written out with its wrap-around. A `Uint8Array` store keeps
the low eight bits of its value. The 64-bit `Long` of
`montgomery_reduce` wraps modulo 2^64. `%` truncates toward zero.

Modules, in dependency order:

- `JsNumber`: ToInt32/ToUint32/ToInt64, Uint8Array stores, bitwise operators.
- `BitFields`, `Blocks`: fixed-width fields in bytes, and codecs of fixed-size groups.
- `Outcomes`: `Option` and the library's thrown errors as `Outcome`.
- `Params`: the parameter record and the three published levels.
- `Polynomial`: `poly.ts` arithmetic, rounding and norm check.
- `PackT1`, `PackEta`, `PackT0`, `PackZ`, `PackW1`: the codecs of `poly.ts`.
- `Sampling`: `rej_uniform`, `rej_eta`, the nonce bytes and `generateChallenge`.
- `Hints`: `hints.ts`.
- `HintCodec`: the hint section of a signature, as `packSig` writes it and `verify` reads it.
- `Layout`: `mergeArrays` and the length helpers of `util.ts`.
- `Packing`: `packPubKey`, `packPrvKey`, `packSig` and `packw1`.
- `Primitives`: SHAKE256, `crh`, the NTT and the samplers' byte streams, as parameters.
- `PolyVec`: `poly-vec.ts`.
- `Keys`: `key.ts`, the key objects, `fromBytes`, `derivePublicKey` and `DilithiumKeyPair.generate`.
- `Signature`: `signature.ts`, meaning `fromBytes`, one signing attempt, the signing loop and `verify`.
- `Dilithium`: `Dilithium.level`.

The main results are:

- every codec round-trips on its documented coefficient range;
- `decompose` and `powerRound` are characterised by their arithmetic splits;
- `useHint` with the hint `makeHint` computes recovers the signer's high part;
- the hint section's encoder and canonical-form decoder are inverse;
- keys round-trip through their byte forms;
- generated key pairs are self-consistent;
- the signer's mu equals the verifier's;
- hint recovery in `verify` follows from the ring identity w' = w - c s2 + c t0
  (mod Q), through the norm checks, `decompose`, `caddq` and `makeHints`;
- any bytes the signing loop returns are accepted by `verify`, given that
  ring identity as a hypothesis (see "Left out").

## Model

| member | source | states |
|---|---|---|
| Polynomial.AddCoefs | src/poly.ts:417-423 | each coefficient of `add` is congruent to the sum modulo Q, lies in (-Q, Q), keeps the sum's sign, and equals the sum when that is already in range |
| Polynomial.Sub | src/poly.ts:425-431 | each coefficient of `sub` is congruent to the difference modulo Q, lies in (-Q, Q), and is non-negative when the difference is |
| Polynomial.Caddq | src/poly.ts:502-506 | coefficients in (-Q, Q) are brought into [0, Q) without changing their residue; non-negative 32-bit coefficients are unchanged |
| Polynomial.Reduce32 | src/poly.ts:474-478 | for a 32-bit input below 2^31 - 2^22 the result is congruent to it modulo Q and lies in [-6283009, 6283008] |
| Polynomial.Reduce | src/poly.ts:468-472 | the bounds and congruence of `reduce32` hold on every coefficient |
| Polynomial.MontgomeryReduce | src/poly.ts:400-405 | for \|a\| < 2^31 Q, the result r satisfies r * 2^32 ≡ a (mod Q) and \|r\| < Q, with the 64-bit wrap-around of `Long` |
| Polynomial.MontgomeryCoefs | src/poly.ts:460-466 | each coefficient of `pointwiseMontgomery`, times 2^32, is congruent to the product and lies in (-Q, Q) |
| Polynomial.Shiftl | src/poly.ts:713-719 | every 18-bit coefficient is multiplied by 2^13 |
| Polynomial.PowerRoundCoef | src/poly.ts:509-522 | a 32-bit coefficient is high * 2^13 + low with low in (-2^12, 2^12], and the high part of one in [0, Q) lies in [0, 1023] |
| Polynomial.PowerRound | src/poly.ts:509-522 | every coefficient in [0, Q) is t1 * 2^13 + t0 with t1 in [0, 1023] and t0 in (-2^12, 2^12] |
| Polynomial.DecomposeCoef | src/poly.ts:599-625 | the bit-twiddled `decompose` of a coefficient in [0, Q) is the arithmetic split SplitRef, for both supported gamma2 |
| Polynomial.SplitRefFacts | src/poly.ts:599-625 | the split's high part lies in [0, 15] or [0, 43], its low part in [-gamma2, gamma2], high * 2 gamma2 + low ≡ a (mod Q), and the wrap at the top is folded to high part 0 with a negative low part |
| Polynomial.SplitRefUnique | src/poly.ts:599-625 | the split is the only pair meeting that characterisation |
| Polynomial.HighBitsSplit | src/poly.ts:599-625 | the high-bits arithmetic of `decompose` computes the split's high part |
| Polynomial.Decompose | src/poly.ts:599-625 | on coefficients in [0, Q) the result is the split of every coefficient; any unsupported gamma2 throws |
| Polynomial.DecomposeBounds | src/poly.ts:599-625 | decompose's high and low parts keep their ranges and recombine to the coefficient modulo Q |
| Polynomial.DecomposeParts | src/poly.ts:599-625 | decompose agrees with SplitRef on every coefficient in [0, Q) |
| Polynomial.NormCoefBits | src/poly.ts:646-669 | the sign-mask expression `c - ((c >> 31) & 2c)` of `chknorm`, with 32-bit `>>` and `&`, is the coefficient norm the scan compares |
| Polynomial.ChkNormScan | src/poly.ts:646-669 | the bound test followed by the early-exit scan returns true exactly when the norm predicate holds |
| Polynomial.ChkNormIff | src/poly.ts:646-669 | for coefficients of magnitude below 2^30, `chknorm(B)` holds exactly when B exceeds (Q-1)/8 or some coefficient's absolute value reaches B |
| PackT1.T1Unpack | src/poly.ts:285-294 | every decoded coefficient has 10 bits |
| PackT1.T1RoundTrip | src/poly.ts:285-294 | unpacking what `t1pack` wrote gives back every polynomial with coefficients in [0, 1023], and no byte outside the 320 at the offset changes |
| PackT1.T1BytesRoundTrip | src/poly.ts:524-532 | packing what `t1unpack` read reproduces the 320 bytes, so every byte string encodes some polynomial |
| PackEta.EtaPack | src/poly.ts:534-561 | only eta 2 and 4 succeed, any other eta throws "Illegal eta", and the buffer keeps its length |
| PackEta.EtaUnpack | src/poly.ts:198-232 | only eta 2 and 4 succeed; decoded coefficients lie in [-5, 2] or [-11, 4], wider than [-eta, eta], because the decoder does not check that offsets are at most 2 eta |
| PackEta.EtaRoundTrip | src/poly.ts:198-232 | packing a polynomial with coefficients in [-eta, eta] succeeds, unpacking gives it back, and no byte outside its block changes |
| PackT0.T0Unpack | src/poly.ts:234-283 | every decoded coefficient lies in [-4095, 4096] |
| PackT0.T0RoundTrip | src/poly.ts:234-283 | the full-width packer round-trips every polynomial with coefficients in [-4095, 4096], and no byte outside its 416 bytes changes |
| PackT0.GroupAsWrittenLosesHighBits | src/poly.ts:563-573 | decoding the source packer's output keeps only the low eight bits of each offset 4096 - c |
| PackT0.T0AsWrittenRoundTrip | src/poly.ts:563-597 | for every polynomial, unpacking what the packer as written stores gives 4096 minus the low eight bits of each offset |
| PackT0.T0AsWrittenZero | src/poly.ts:563-573 | the packer as written does not round-trip: a coefficient 0 comes back as 4096 |
| PackZ.ZPack | src/poly.ts:671-711 | only gamma1 2^17 and 2^19 succeed, any other gamma1 throws "Invalid gamma1", and the buffer keeps its length |
| PackZ.ZUnpack | src/poly.ts:296-344 | decoded coefficients lie in (-gamma1, gamma1]; for an unsupported gamma1 the decoder returns the zero polynomial instead of throwing |
| PackZ.ZRoundTrip | src/poly.ts:296-344 | packing a polynomial with coefficients in (-gamma1, gamma1] succeeds, unpacking gives it back, and no byte outside its block changes |
| PackW1.W1Pack | src/poly.ts:627-644 | only the two supported gamma2 succeed, any other gamma2 throws, and the buffer keeps its length |
| PackW1.W1PackFields | src/poly.ts:627-644 | coefficient i of a polynomial with 6-bit (4-bit) coefficients lands in 6-bit (4-bit) field i of the block, and no byte outside the block changes |
| Sampling.NonceBytesValue | src/poly.ts:10-46 | the two nonce bytes absorbed after the seed are the nonce modulo 2^16, little-endian |
| Sampling.NonceInjective | src/poly.ts:10-46 | distinct nonces below 2^16 are absorbed as distinct byte pairs |
| Sampling.NonceWrap | src/poly.ts:10-46 | nonces 2^16 apart are absorbed as the same bytes |
| Sampling.RejUniform | src/poly.ts:382-398 | the first min(len, available) accepted 23-bit values below Q are stored at off in stream order, their count is returned, and nothing else changes |
| Sampling.RejEta | src/poly.ts:346-380 | the first min(len, available) accepted nibble values are stored at off in stream order, they lie in [-eta, eta], their count is returned, and nothing else changes |
| Sampling.EtaRange | src/poly.ts:346-380 | every value the eta sampler accepts lies in [-2, 2] for eta 2 and [-4, 4] for eta 4 |
| Sampling.Div5 | src/poly.ts:353-365 | the multiply-and-shift expression is t mod 5 for every nibble below 15 |
| Sampling.GenerateChallenge | src/poly.ts:153-196 | the challenge has coefficients in {-1, 0, 1}, exactly N - tau zeros, and as many -1 as there are set bits among the first tau sign bits |
| Sampling.ChallengeCounts | src/poly.ts:153-196 | the reference challenge has exactly tau nonzero coefficients, each ±1, with the -1 count given by the sign bits |
| Hints.HintOfCentered | src/hints.ts:47-53 | the same characterisation stated on the centered low part |
| Hints.UseHintCoef | src/hints.ts:71-107 | any gamma2 other than the two supported ones throws; for a in [0, Q) the result is in [0, max high part], equal to a's high part without a hint and stepped one interval toward the sign of a's low part with one |
| Hints.StepInverse | src/hints.ts:71-107 | a step up and a step down of `useHint` cancel, wrapping at both ends |
| Hints.HintRecovers | src/hints.ts:47-107 | when w = w1 * 2 gamma2 + s (mod Q) with \|s\| < 2 gamma2, `useHint` with the hint `makeHint` computes returns w1 |
| Hints.PolyMakeHint | src/hints.ts:35-45 | every flag is `makeHint` of its coefficient pair, and the returned count is the number of set flags |
| Hints.MakeHints | src/hints.ts:20-33 | one hint polynomial per entry and the total number of set flags |
| Hints.PolyUseHint | src/hints.ts:63-69 | `useHint` applied to every coefficient |
| Hints.UseHints | src/hints.ts:55-61 | `polyUseHint` on every entry; an unsupported gamma2 throws only for a non-empty vector |
| Hints.HintsRecover | src/hints.ts:20-69 | lifted to vectors: the verifier's hinted high parts are the signer's w1 |
| HintCodec.EncodeHints | src/util.ts:210-225 | for 0/1 hints with at most omega ones, the section is the canonical one: positions in order, running counts as markers, zeros elsewhere |
| HintCodec.DecodeHints | src/signature.ts:180-206 | the section is rejected exactly when it is not canonical (markers out of order or past omega, positions not increasing, a nonzero unused byte); otherwise the hints are those it lists |
| HintCodec.Accepted | src/signature.ts:180-206 | a section that passes every check is canonical, and the loop has collected its hints |
| HintCodec.Unordered | src/signature.ts:188-197 | a position list that does not strictly increase makes the decoder reject |
| HintCodec.Untrailing | src/signature.ts:199-206 | a nonzero byte past the last marker makes the decoder reject |
| HintCodec.HintRoundTrip | src/util.ts:210-225 | the encoder's output for hints with at most omega < 256 ones is accepted and decodes to the same hints |
| HintCodec.OnesIsCum | src/hints.ts:20-45 | the section's last marker is the count `makeHints` returns |
| Layout.MergeArrays | src/util.ts:10-26 | the merged array is the concatenation: its length is the sum and each array sits whole at its running offset |
| Layout.ConcatPlaces | src/util.ts:10-26 | block i of a concatenation sits at the sum of the preceding lengths |
| Layout.PolyEtaPackedBytes | src/util.ts:47-55 | only eta 2 and 4 succeed, with the length of the eta encoding; any other eta throws |
| Layout.PolyW1PackedBytes | src/util.ts:57-69 | only the two supported gamma2 succeed, with the length of the w1 encoding; any other gamma2 throws |
| Layout.PolyZPackedBytes | src/util.ts:71-79 | only gamma1 2^17 and 2^19 succeed, with the length of the z encoding; any other gamma1 throws |
| Layout.SignatureByteLength | src/util.ts:81-88 | the length is defined exactly for gamma1 2^17 and 2^19, and throws "Invalid gamma1" otherwise |
| Layout.PrivateKeyByteLength | src/util.ts:97-118 | the length is defined exactly for eta 2 and 4; any other eta throws "Illegal eta" |
| Packing.PackPubKey | src/util.ts:120-135 | the buffer has 32 + 320 k bytes and is rho followed by the k t1 blocks |
| Packing.PubKeySeed | src/util.ts:120-135 | the public key bytes start with rho |
| Packing.PubKeyT1 | src/util.ts:120-135 | block i of the public key bytes decodes to t[i] |
| Packing.PackPrvKey | src/util.ts:137-193 | any eta other than 2 or 4 throws; otherwise the size `getPrivateKeyByteLength` gives, holding rho, K and tr followed by the s1, s2 and t0 blocks, t0 packed by the packer as written |
| Packing.PrvKeySizeIsByteLength | src/util.ts:151-157 | for eta 2 or 4 the size `packPrvKey` allocates equals `getPrivateKeyByteLength` |
| Packing.PackSig | src/util.ts:195-226 | any gamma1 other than 2^17 or 2^19 throws; otherwise the buffer keeps its length, starts with c and the z blocks, and ends with the canonical hint section when the hints fit in omega |
| Packing.PackW1 | src/util.ts:228-236 | any unsupported gamma2 throws; otherwise the k blocks are written from offset 0, later bytes keep their value, and a buffer of exactly k blocks is the concatenation |
| Packing.PackW1Prefix | src/util.ts:228-236 | the first k * w1bytes bytes after `packw1` are the k packed blocks |
| Primitives.DigestMerged | src/util.ts:34-41 | the digest of several parts is the digest of their merged array |
| Primitives.DigestPrefix | src/util.ts:34-41 | a shorter SHAKE256 digest is a prefix of a longer one |
| PolyVec.RandomVec | src/poly-vec.ts:11-17 | polynomial i is sampled with nonce + i |
| PolyVec.RandomVecGamma1 | src/poly-vec.ts:19-25 | polynomial i is sampled with nonce length * nonce + i |
| PolyVec.AttemptNoncesDisjoint | src/poly-vec.ts:19-25 | the masking vectors of distinct signing attempts draw on disjoint nonce ranges |
| PolyVec.CellNonceValue | src/poly-vec.ts:27-38 | the cell nonce `(i << 8) + j` is 256 i + j for every row index below 2^23 |
| PolyVec.ExpandA | src/poly-vec.ts:27-38 | k rows of l polynomials, cell (i, j) sampled uniformly with nonce `(i << 8) + j` |
| PolyVec.CellNonces | src/poly-vec.ts:27-38 | with at most 256 columns, distinct cells get distinct nonces, absorbed as the bytes j, i |
| PolyVec.Componentwise | src/poly-vec.ts:47-124 | the loops of `ntt`, `reduce`, `invnttTomont`, `caddq` and `shift` apply the polynomial operation to every entry |
| PolyVec.Pairwise | src/poly-vec.ts:86-108 | `add` and `sub` combine entry i of both vectors and leave entries the other vector lacks null |
| PolyVec.VecDecompose | src/poly-vec.ts:63-77 | the low and high parts of every entry; a bad gamma2 throws only for a non-empty vector |
| PolyVec.VecDecomposeBounds | src/poly-vec.ts:63-77 | on coefficients in [0, Q) every entry's parts keep their ranges and recombine modulo Q |
| PolyVec.VecPowerRound | src/poly-vec.ts:126-140 | the (t0, t1) pair of every entry |
| PolyVec.VecChkNorm | src/poly-vec.ts:173-180 | true exactly when some entry's polynomial check is true |
| PolyVec.PointwiseAcc | src/poly-vec.ts:151-159 | the product of entry 0 with each further product added in turn |
| PolyVec.MulMatrix | src/poly-vec.ts:161-167 | one accumulated Montgomery product per row |
| PolyVec.AccCongruent | src/poly-vec.ts:142-167 | each coefficient of row i, times 2^32, is the dot product of that row with v modulo Q and lies in (-Q, Q), whenever each coefficient product is in range |
| Keys.ParsedPublicKey | src/key.ts:227-245 | the parameters and bytes are kept, rho has 32 bytes, t1 has k polynomials with 10-bit coefficients, and the matrix is k by l |
| Keys.ParsedPrivateKey | src/key.ts:59-119 | any eta other than 2 or 4 throws before reading; otherwise the bytes are kept and rho, K, tr, s1, s2 and t0 have their sizes |
| Keys.PublicKeyRoundTrip | src/key.ts:227-245 | parsing a packed public key gives back rho, t1 and the matrix of rho |
| Keys.PrivateKeyRoundTrip | src/key.ts:59-119 | with t0 packed at full width, parsing gives back every private-key field, the NTT forms and the matrix of rho |
| Keys.PrivateKeyRoundTripAsWritten | src/util.ts:137-193 | parsing what `packPrvKey` writes gives back every field except t0, which keeps only the low eight bits of each offset |
| Keys.TVecRange | src/key.ts:164-177 | every coefficient of t = A s1 + s2 lies in [0, Q) whatever the NTT returns |
| Keys.HighRange | src/key.ts:164-177 | the high parts of t lie in [0, 1023] and the low parts in [-4095, 4096] |
| Keys.DerivePublicKey | src/key.ts:164-177 | the derived public key is DerivedKey, with k t1 polynomials of 10-bit coefficients |
| Keys.DerivedKeyParses | src/key.ts:164-177 | the derived public key parses back to itself when rho has 32 bytes and the matrix is rho's |
| Keys.NewKeyPair | src/key.ts:379-382 | the given public key, or else the one derived from the private key |
| Keys.GenerateKeyPair | src/key.ts:322-377 | the pair is built from zeta, which is the seed when one is given (even an empty one) and fresh random bytes otherwise |
| Keys.GeneratedPairDerived | src/key.ts:322-377 | the generated public key is the one the private key derives, and tr is the CRH of its bytes |
| Keys.GeneratedPairSizes | src/key.ts:322-377 | the generated key bytes have the parameter set's lengths |
| Keys.GeneratedPublicParses | src/key.ts:322-377 | the generated public key parses back to itself |
| Keys.GeneratedPrivateParses | src/key.ts:322-377 | the generated private key bytes parse back to the key except t0, which keeps only the low eight bits of each offset |
| Keys.GeneratedParsedDerives | src/key.ts:164-177 | the parsed private key still derives the generated public key, since t0 does not enter it |
| Dilithium.ParamsOf | src/dilithium.ts:22-36 | levels 2, 3 and 5 name the three parameter sets and no other number names one |
| Dilithium.Level | src/dilithium.ts:22-45 | levels 2, 3 and 5 succeed with the codecs' three lengths and every other number throws |
| Dilithium.LevelTable | src/param.ts:56-96 | the published lengths 1312/2544/2420, 1952/4016/3293 and 2592/4880/4595 bytes, and the derived beta and rounding ranges |
| Signature.ParsedKeysUsable | src/key.ts:59-119 | every key `fromBytes` parses under supported parameters meets the signer's and verifier's shape predicates |
| Signature.FromBytesAsWritten | src/signature.ts:112-117 | only the level's signature length is accepted, keeping the bytes and the level's parameters; the error is an invalid-size error carrying the size found |
| Signature.FromBytesMisreports | src/signature.ts:113-114 | at level 2 an empty array is reported as expected to have 1312 bytes while 2420 are required |
| Signature.FromBytes | src/signature.ts:112-117 | only the level's signature length is accepted, keeping the bytes and the level's parameters; the error names the signature length and the size found |
| Signature.FromBytesAgree | src/signature.ts:112-117 | both versions accept the same arrays with the same result; only the reported size differs |
| Signature.MuAgrees | src/signature.ts:36-37 | signer and verifier hash the same mu whenever tr is crh of the public key bytes |
| Signature.ExceedsIff | src/poly-vec.ts:173-180 | the vector scan reports a failure exactly when some polynomial fails |
| Signature.NormBounded | src/poly.ts:646-669 | for coefficients below 2^30 and a bound at most (Q-1)/8, the vector check fails exactly when some coefficient reaches the bound |
| Signature.FirstFailureIff | src/signature.ts:71-88 | no rejection is reported exactly when every check passes; a reported rejection is a failing check whose predecessors pass |
| Signature.TrialOf | src/signature.ts:49-74 | an attempt's c is the hash of mu and packed w1, its challenge is sampled from c, and z = y + c s1 for the masking vector of nonce kappa |
| Signature.CommitStep | src/signature.ts:49-64 | y is the masking vector of attempt kappa, w1 and w0 the parts of A y, c the hash of mu and w1, stored at the front of the buffer |
| Signature.Screening | src/signature.ts:71-88 | the checks are evaluated in order and the first failing one is reported |
| Signature.ChecksPass | src/signature.ts:71-88 | the three norm checks pass exactly when none of z, w0 - c s2 and c t0 reaches its bound |
| Signature.Verdict | src/signature.ts:71-98 | the attempt signs when its checks pass and its hints fit in omega, and is rejected otherwise |
| Signature.JudgeSigned | src/signature.ts:71-98 | an attempt signs exactly when its three checks pass and its hints have at most omega ones, with c, z and the hint section as bytes |
| Signature.PackedSigned | src/signature.ts:90-98 | hints within omega are signed with c, z and their section; others are rejected |
| Signature.Attempt | src/signature.ts:48-101 | one loop pass yields the reference attempt's result, independent of the reused buffer's contents |
| Signature.SignedLength | src/signature.ts:98 | the bytes of an attempt that signs have the signature length |
| Signature.ResponseRange | src/signature.ts:66-74 | every coefficient of z lies in [-6283009, 6283008] |
| Signature.Sign | src/signature.ts:28-104 | the result is the first signing attempt's bytes with the key's parameters and the signature length, or None exactly when none of the first fuel attempts signs |
| Signature.FirstSignedIff | src/signature.ts:48-101 | the search finds nothing exactly when no attempt in range signs; what it finds is a signing attempt with no signing predecessor |
| Signature.ParsedSignature | src/signature.ts:163-206 | a signature parses only at the signature length; c is its first 32 bytes, z lies in (-gamma1, gamma1], and it parses exactly when the hint section is canonical |
| Signature.ParseStep | src/signature.ts:163-206 | the statements of the length check, c, z and the hint loop compute the parsed signature |
| Signature.UnpackZ | src/signature.ts:174-178 | l z blocks are read one after the other from offset 32, ending at 32 + l * zbytes |
| Signature.ZNormStep | src/signature.ts:208-210 | `z.chknorm(gamma1 - beta)` is true exactly when some coefficient reaches gamma1 - beta in absolute value |
| Signature.ReconstructStep | src/signature.ts:217-230 | the loop computes w' = A z - c t1 2^d |
| Signature.SameSeed | src/signature.ts:237-243 | the byte loop reports equality exactly when c and c2 are equal |
| Signature.MatchStep | src/signature.ts:212-243 | the challenge, w', the hints and the hash of mu and packed w1 reproduce c exactly when the parsed signature matches |
| Signature.CheckParsed | src/signature.ts:208-243 | a parsed signature is accepted exactly when z is below gamma1 - beta and the recomputed challenge seed matches |
| Signature.Verify | src/signature.ts:157-243 | the result is the acceptance predicate, and a signature of the wrong length is rejected |
| Signature.SignedParses | src/util.ts:195-226 | `verify` parses what `packSig` writes back to c, z and the hints |
| Signature.MatchesSigned | src/signature.ts:212-243 | the verifier's challenge equals the signer's, and when the hints recover w1 the hash reproduces c |
| Signature.PassedBounded | src/signature.ts:71-74 | a candidate with z below 2^30 whose checks pass has z below gamma1 - beta |
| Signature.LayoutAccepted | src/signature.ts:157-243 | c, a small z and a canonical hint section that match are accepted |
| Signature.CoefCorrected | src/signature.ts:75-93 | for one coefficient: when w' is congruent to w - c s2 + c t0, w = w1 2 gamma2 + w0 (mod Q), and r0 and c t0 are below gamma2 and congruent to w0 - c s2 and c t0, w' is w1 corrected by r0 + c t0, and the `caddq` result is the residue of r0 + c t0 |
| Signature.RowSum | src/signature.ts:91-92 | `add` then `caddq` leaves every coefficient in [0, Q) and congruent to the sum |
| Signature.DecomposeRow | src/signature.ts:54-55 | `decompose` of coefficients in [0, Q) gives w1 in range with w1 2 gamma2 + w0 congruent to w |
| Signature.ReduceRow | src/signature.ts:75-84 | `sub` then `reduce` keeps w0 - c s2 congruent, and `reduce` keeps c t0 congruent, modulo Q |
| Signature.RowFacts | src/signature.ts:53-92 | on one row, `decompose`, `sub`, `reduce`, `add` and `caddq` establish every residue fact the correction needs |
| Signature.LowsBounded | src/signature.ts:75-87 | when the checks on w0 - c s2 and c t0 pass, every coefficient of both is below gamma2 in absolute value |
| Signature.HintsRecoverVec | src/hints.ts:20-69 | given those residue facts on every coefficient and the ring identity, `useHints` with the hints of the residues returns w1 |
| Signature.HintsRecoverFromNtt | src/signature.ts:75-93 | the signer's hints, made from `caddq` of r0 + c t0, bring the verifier's w' back to w1 once both low-part checks pass and the ring identity holds |
| Signature.CandidateRecovers | src/signature.ts:217-232 | the hints of a candidate built from y and cp recover its w1 once its checks pass, given the ring identity for y and cp |
| Signature.TrialRecovers | src/signature.ts:48-93 | the hints of attempt kappa recover its w1 once its checks pass, given the ring identity for that attempt |
| Signature.TrialAccepted | src/signature.ts:48-101 | an attempt that signs, whose hints recover w1 once its checks pass, is accepted |
| Signature.SignedAccepted | src/signature.ts:48-101 | correctness of one attempt: with matching keys, its signed bytes are accepted by `verify` |
| Signature.FirstSignedAccepted | src/signature.ts:28-104 | correctness of signing: the bytes the loop returns are accepted by `verify` |
| Signature.LevelsFit | src/param.ts:56-96 | the three parameter sets are supported and their packed w1 fits the signature buffer |

## Left out

- SHAKE256, the NTT and its inverse are parameters (`Primitives`), not definitions. So are the XOF byte streams that `genRandom`, `genUniformRandom`, `genRandomGamma1` and `generateChallenge` squeeze. Keccak and the NTT butterflies are not modelled.
- constants.ts is not part of this model. The zeta table enters only through the NTT parameter.
- The random bytes of `randombytes` are a parameter of key generation and of signing.
- The hex and base64 conversions, `toString`, and the clearing of buffers are left out. They are presentation and memory hygiene, not logic.
- Timing and constant-time behaviour are out of scope.
- Signature.Sign: the signing loop runs without end in the source. The model stops after `fuel` attempts and returns None if none of them signs.
- Sampling.GenerateChallenge: the source squeezes bytes without end. The model takes a finite stream and returns None when the stream runs out.
- Signature.SignedAccepted: takes the ring identity as a hypothesis (`NttIdentity`, through `AttemptNtt`). Coefficient by coefficient, the verifier's w' = A z - c t1 2^d must be congruent modulo Q to w - c s2 + c t0. Also, w = A y and w' must lie in [0, Q), and c t0 must lie in (-Q, Q) before its reduction. The congruence follows from t = A s1 + s2 = t1 2^d + t0 once the NTT is a ring isomorphism. The ranges are those of the inverse NTT's outputs. Neither is derived, because the NTT is a parameter. Hint recovery itself is derived from this hypothesis (Signature.TrialRecovers, through Hints.HintsRecover).
- Signature.SignedAccepted: also takes `W1Fits`, that the packed w1 fits the signature buffer the signer hashes it from. This is a fact about the parameter set, not about the NTT. Signature.LevelsFit proves it for the three levels.
- Signature.FirstSignedAccepted: takes the same two hypotheses for every attempt.
- Keys.GeneratedPrivateParses: assumes the eta sampler keeps to [-eta, eta] (`EtaBounded`), because the sampler's stream is a parameter. Sampling.RejEta proves the bound for the rejection sampler itself.
- Keys.ParsedPrivateKey: the source reads key arrays without checking their length. The model keeps this: bytes missing from a short array read as 0.
- Signature.Sign and Signature.Verify: require key records of the sizes their parameters give (`SigningKey`, `VerifyingKey`). Signature.ParsedKeysUsable shows that every key `fromBytes` produces meets them.

## Findings

| source | as written | input that shows it | evidently intended | confidence | as-written member | corrected member |
|---|---|---|---|---|---|---|
| src/poly.ts:563-597 | `t0pack` stores the offsets 4096 - c into a `Uint8Array(8)`, which keeps only their low eight bits, before splitting them into 13-bit fields | a t0 coefficient 0 (offset 4096) is packed as offset 0 and unpacks to 4096 | every t0 in [-4095, 4096] round-trips through the private key bytes, as tests/dilithium-test.ts:59 expects | not executed | PackT0.T0AsWrittenZero, PackT0.T0AsWrittenRoundTrip, Keys.PrivateKeyRoundTripAsWritten | PackT0.T0RoundTrip, Keys.PrivateKeyRoundTrip |
| src/signature.ts:113-114 | `fromBytes` checks the signature length but reports the public key length as the expected size | an empty array at level 2 is reported as expected to have 1312 bytes, while 2420 are required | the error names the signature length the check requires | not executed | Signature.FromBytesAsWritten, Signature.FromBytesMisreports | Signature.FromBytes, Signature.FromBytesAgree |

`Packing.PackPrvKey` and the key generation built on it model `t0pack` as
written. The full-width packer is `PackT0.T0Pack`.
