/** The entry point of the library (src/dilithium.ts): choosing a security
    level yields its parameter record and the byte lengths of keys and
    signatures at that level. */
module Dilithium {
  import opened JsNumber
  import opened Outcomes
  import opened Params
  import opened Layout

  /** `DilithiumLevelSpec`: the level, its parameters and the three byte
      lengths they imply. */
  datatype LevelInfo = LevelInfo(
    level: int,
    rawParams: ParameterSpec,
    publicKeyLength: int,
    privateKeyLength: int,
    signatureLength: int)

  /** The parameter record of a level number, if it names one. */
  function ParamsOf(level: int): (r: Result<ParameterSpec>)
    ensures r.Success? <==> level == 2 || level == 3 || level == 5
    ensures r.Failure? ==> r.error == InvalidLevel(level)
    ensures r.Success? ==> Supported(r.value)
  {
    if level == 2 then Success(Level2P)
    else if level == 3 then Success(Level3P)
    else if level == 5 then Success(Level5P)
    else Failure(InvalidLevel(level))
  }

  /** `Dilithium.level(level)`: levels 2, 3 and 5 and no others; the three
      lengths are those the key and signature codecs use, and none of the
      length helpers throws for a published level. */
  function Level(level: int): (r: Result<LevelInfo>)
    ensures r.Success? <==> level == 2 || level == 3 || level == 5
    ensures r.Failure? ==> r.error == InvalidLevel(level)
    ensures r.Success? ==> r.value.level == level && Supported(r.value.rawParams)
    ensures r.Success? ==> r.value.publicKeyLength == PublicKeyByteLength(r.value.rawParams)
    ensures r.Success? ==> PrivateKeyByteLength(r.value.rawParams) == Success(r.value.privateKeyLength)
    ensures r.Success? ==> SignatureByteLength(r.value.rawParams) == Success(r.value.signatureLength)
  {
    var p :- ParamsOf(level);
    Success(LevelInfo(level, p, PublicKeyByteLength(p), PrivateKeyByteLength(p).value, SignatureByteLength(p).value))
  }

  /** The published table: public key, private key and signature lengths of
      1312/2544/2420, 1952/4016/3293 and 2592/4880/4595 bytes, the
      parameter records, the derived beta values, the two rounding ranges
      (which divide Q - 1 exactly) and the Montgomery constant, which
      inverts Q modulo 2^32. */
  lemma LevelTable()
    ensures Level(2) == Success(LevelInfo(2, Level2P, 1312, 2544, 2420))
    ensures Level(3) == Success(LevelInfo(3, Level3P, 1952, 4016, 3293))
    ensures Level(5) == Success(LevelInfo(5, Level5P, 2592, 4880, 4595))
    ensures Level2P.beta == 78 && Level3P.beta == 196 && Level5P.beta == 120
    ensures (Q - 1) % 88 == 0 && (Q - 1) % 32 == 0
    ensures GAMMA2_88 == 95232 && GAMMA2_32 == 261888
    ensures (Q * QINV) % TWO32 == 1
  {
  }
}
