/** The samplers of src/poly.ts: the two rejection samplers, which turn a
    byte stream into coefficients, and the Fisher-Yates sampler of the
    challenge polynomial. SHAKE, which produces the bytes, is outside the
    model: every sampler takes the bytes as a parameter. Each sampler is a
    method with the source's loop, checked against a reference function
    that lists the values the stream yields. */
module Sampling {
  import opened JsNumber
  import opened BitFields
  import opened Params
  import opened Outcomes
  import opened Polynomial
  import opened Blocks

  function Min(a: int, b: int): int {
    if a <= b then a else b
  }

  /** The first len entries of s, or all of s when it is shorter. */
  function Cap(s: seq<int>, len: nat): (r: seq<int>)
    ensures |r| == Min(len, |s|) && r == s[..|r|]
  {
    if |s| <= len then s else s[..len]
  }

  // ---------------------------------------------------------------------
  // Nonces

  /** The two bytes `genRandom`, `genUniformRandom` and `genRandomGamma1`
      absorb after the seed: `nonce & 0xFF` and `(nonce >> 8) & 0xFF`,
      stored into a Uint8Array. */
  function NonceBytes(nonce: int): (r: seq<Byte>)
    ensures |r| == 2
  {
    [ToByte(And(nonce, 0xFF)), ToByte(And(Sar(nonce, 8), 0xFF))]
  }

  /** For a non-negative 32-bit nonce the bytes are its low 16 bits,
      little-endian: the nonce is taken modulo 2^16. */
  lemma NonceBytesValue(n: int)
    requires 0 <= n < TWO31
    ensures NonceBytes(n) == [n % 256, (n / 256) % 256]
  {
    LowByteOf(n);
    Shr(n, 8, 256);
    LowByteOf(n / 256);
  }

  /** Distinct nonces below 2^16 are absorbed as distinct byte pairs. */
  lemma NonceInjective(n: int, n': int)
    requires 0 <= n < 0x1_0000 && 0 <= n' < 0x1_0000 && n != n'
    ensures NonceBytes(n) != NonceBytes(n')
  {
    NonceBytesValue(n);
    NonceBytesValue(n');
    DivModUnique(n / 256, 256, 0, n / 256);
    DivModUnique(n' / 256, 256, 0, n' / 256);
  }

  /** Nonces 2^16 apart are absorbed as the same bytes. */
  lemma NonceWrap(n: int)
    requires 0 <= n && n + 0x1_0000 < TWO31
    ensures NonceBytes(n + 0x1_0000) == NonceBytes(n)
  {
    NonceBytesValue(n);
    NonceBytesValue(n + 0x1_0000);
    DivModUnique(n + 0x1_0000, 256, n / 256 + 256, n % 256);
    DivModUnique(n / 256 + 256, 256, (n / 256) / 256 + 1, (n / 256) % 256);
  }

  // ---------------------------------------------------------------------
  // rej_uniform

  /** The candidate `rej_uniform` reads from three bytes:
      `(b0 & 0xFF) | (b1 & 0xFF) << 8 | (b2 & 0xFF) << 16`, masked to 23 bits. */
  function UniformCandidate(b0: Byte, b1: Byte, b2: Byte): int {
    And(Or(Or(Rd(b0), Shl(Rd(b1), 8)), Shl(Rd(b2), 16)), 0x7F_FFFF)
  }

  /** The little-endian value of three bytes with bit 23 cleared. */
  function Low23(b0: Byte, b1: Byte, b2: Byte): int {
    (b0 + (b1 as int) * 256 + (b2 as int) * 65536) % 0x80_0000
  }

  /** The candidate is the little-endian value of the three bytes with the
      top bit cleared. */
  lemma CandidateValue(b0: Byte, b1: Byte, b2: Byte)
    ensures UniformCandidate(b0, b1, b2) == Low23(b0, b1, b2)
  {
    Pow2Values();
    Field3(b0, b1, b2, 8, 16, 256, 65536, 23, 0x80_0000);
  }

  /** The values the first k three-byte groups of buf yield: the 23-bit
      little-endian value of each group, kept when it is below Q. */
  function UniformRef(buf: seq<Byte>, k: nat): (r: seq<int>)
    requires 3 * k <= |buf|
    ensures |r| <= k
    ensures forall i :: 0 <= i < |r| ==> 0 <= r[i] < Q
  {
    if k == 0 then []
    else
      var v := Low23(buf[3 * k - 3], buf[3 * k - 2], buf[3 * k - 1]);
      UniformRef(buf, k - 1) + (if v < Q then [v] else [])
  }

  /** Reading more groups only extends the list. */
  lemma {:induction false} UniformPrefix(buf: seq<Byte>, k: nat, k': nat)
    requires k <= k' && 3 * k' <= |buf|
    ensures UniformRef(buf, k) <= UniformRef(buf, k')
    decreases k' - k
  {
    if k < k' {
      UniformPrefix(buf, k, k' - 1);
    }
  }

  /** out is coef with run stored at off and nothing else changed. */
  predicate Stored(coef: seq<int>, out: seq<int>, off: nat, run: seq<int>) {
    |out| == |coef| && off + |run| <= |coef| && out[off..off + |run|] == run
    && forall i :: 0 <= i < |coef| && !(off <= i < off + |run|) ==> out[i] == coef[i]
  }

  /** Bounds on a stored run hold of the stored entries. */
  lemma StoredRange(coef: seq<int>, out: seq<int>, off: nat, run: seq<int>, lo: int, hi: int)
    requires Stored(coef, out, off, run)
    requires Within(run, lo, hi)
    ensures forall i :: off <= i < off + |run| ==> lo <= out[i] <= hi
  {
    assert forall i :: off <= i < off + |run| ==> out[i] == run[i - off];
  }

  /** Storing t just past a stored run extends the run by t. */
  lemma Push(coef: seq<int>, out: seq<int>, off: nat, run: seq<int>, t: int)
    requires Stored(coef, out, off, run) && off + |run| < |coef|
    ensures Stored(coef, out[off + |run| := t], off, run + [t])
  {
    assert out[off + |run| := t][off..off + |run| + 1] == out[off..off + |run|] + [t];
  }

  /** The candidate at buf[pos..pos + 3]. */
  method ReadCandidate(buf: seq<Byte>, pos: nat) returns (t: int)
    requires pos + 3 <= |buf|
    ensures t == Low23(buf[pos], buf[pos + 1], buf[pos + 2])
  {
    t := UniformCandidate(buf[pos], buf[pos + 1], buf[pos + 2]);
    CandidateValue(buf[pos], buf[pos + 1], buf[pos + 2]);
  }

  /** The group read at byte 3 * k extends the reference list. */
  lemma UniformNext(buf: seq<Byte>, k: nat, pos: nat, t: int)
    requires pos == 3 * k && pos + 3 <= |buf|
    requires t == Low23(buf[pos], buf[pos + 1], buf[pos + 2])
    ensures UniformRef(buf, k + 1) == UniformRef(buf, k) + (if t < Q then [t] else [])
  {
  }

  /** The loop stops after the last whole group of buf[..buflen]. */
  lemma Groups(buflen: nat, k: nat)
    requires 3 * k <= buflen < 3 * k + 3
    ensures buflen / 3 == k
  {
    DivModUnique(buflen, 3, k, buflen - 3 * k);
  }

  /** When the loop stops, the run it stored is the capped reference list. */
  lemma UniformDone(buf: seq<Byte>, buflen: nat, k: nat, len: nat, run: seq<int>)
    requires 3 * k <= buflen <= |buf| && run == UniformRef(buf, k) && |run| <= len
    requires |run| < len ==> buflen < 3 * k + 3
    ensures run == Cap(UniformRef(buf, buflen / 3), len)
  {
    if |run| < len {
      Groups(buflen, k);
    } else {
      DivModUnique(buflen, 3, buflen / 3, buflen % 3);
    }
    UniformPrefix(buf, k, buflen / 3);
  }

  /** `rej_uniform(coef, off, len, buf, buflen)`: stores at off the first
      ctr values buf[..buflen] yields, where ctr is len or all of them,
      whichever is fewer, and returns ctr. Nothing outside
      coef[off..off + ctr] changes. */
  method RejUniform(coef: seq<int>, off: nat, len: nat, buf: seq<Byte>, buflen: nat) returns (out: seq<int>, ctr: nat)
    requires off + len <= |coef| && buflen <= |buf|
    ensures ctr == Min(len, |UniformRef(buf, buflen / 3)|)
    ensures Stored(coef, out, off, Cap(UniformRef(buf, buflen / 3), len))
    ensures forall i :: off <= i < off + ctr ==> 0 <= out[i] < Q
  {
    out := coef;
    ctr := 0;
    var pos := 0;
    ghost var k := 0;
    while ctr < len && pos + 3 <= buflen
      invariant pos == 3 * k && pos <= buflen && ctr <= len
      invariant ctr == |UniformRef(buf, k)| && Stored(coef, out, off, UniformRef(buf, k))
    {
      var t := ReadCandidate(buf, pos);
      UniformNext(buf, k, pos, t);
      pos := pos + 3;
      k := k + 1;
      if t < Q {
        Push(coef, out, off, UniformRef(buf, k - 1), t);
        out := out[off + ctr := t];
        ctr := ctr + 1;
      }
    }
    UniformDone(buf, buflen, k, len, UniformRef(buf, k));
    assert forall i :: off <= i < off + ctr ==> out[i] == UniformRef(buf, k)[i - off];
  }

  // ---------------------------------------------------------------------
  // rej_eta

  /** Whether a nibble t is accepted: below 15 for eta = 2, below 9 for
      every other eta (the callers pass 2 or 4). */
  predicate EtaAccepts(eta: int, t: int) {
    if eta == 2 then t < 15 else t < 9
  }

  /** The coefficient an accepted nibble gives: 2 - t mod 5 or 4 - t. */
  function EtaValue(eta: int, t: int): int {
    if eta == 2 then 2 - t % 5 else 4 - t
  }

  function EtaNibble(eta: int, t: int): seq<int> {
    if EtaAccepts(eta, t) then [EtaValue(eta, t)] else []
  }

  /** The values the first k bytes of buf yield: the low nibble, then the
      high nibble of each byte, when accepted. */
  function EtaRef(eta: int, buf: seq<Byte>, k: nat): (r: seq<int>)
    requires k <= |buf|
    ensures |r| <= 2 * k
  {
    if k == 0 then []
    else EtaRef(eta, buf, k - 1) + EtaNibble(eta, buf[k - 1] % 16) + EtaNibble(eta, buf[k - 1] / 16)
  }

  /** The bound on the values: 2 for eta = 2, 4 otherwise. */
  function EtaBound(eta: int): int {
    if eta == 2 then 2 else 4
  }

  lemma WithinConcat(a: seq<int>, b: seq<int>, lo: int, hi: int)
    requires Within(a, lo, hi) && Within(b, lo, hi)
    ensures Within(a + b, lo, hi)
  {
  }

  lemma NibbleRange(eta: int, t: int)
    requires 0 <= t
    ensures Within(EtaNibble(eta, t), -EtaBound(eta), EtaBound(eta))
  {
  }

  /** Every value lies in [-2, 2] for eta = 2 and in [-4, 4] otherwise. */
  lemma {:induction false} EtaRange(eta: int, buf: seq<Byte>, k: nat)
    requires k <= |buf|
    ensures Within(EtaRef(eta, buf, k), -EtaBound(eta), EtaBound(eta))
  {
    if k > 0 {
      EtaRange(eta, buf, k - 1);
      var b := buf[k - 1];
      NibbleRange(eta, b % 16);
      NibbleRange(eta, b / 16);
      var e := EtaBound(eta);
      WithinConcat(EtaRef(eta, buf, k - 1), EtaNibble(eta, b % 16), -e, e);
      WithinConcat(EtaRef(eta, buf, k - 1) + EtaNibble(eta, b % 16), EtaNibble(eta, b / 16), -e, e);
    }
  }

  lemma {:induction false} EtaPrefix(eta: int, buf: seq<Byte>, k: nat, k': nat)
    requires k <= k' <= |buf|
    ensures EtaRef(eta, buf, k) <= EtaRef(eta, buf, k')
    decreases k' - k
  {
    if k < k' {
      EtaPrefix(eta, buf, k, k' - 1);
    }
  }

  /** `t - ((205 * t) >>> 10) * 5` is t mod 5 for a nibble below 15. */
  lemma Div5(t: int)
    requires 0 <= t < 15
    ensures t - Ushr(205 * t, 10) * 5 == t % 5
  {
    Pow2Values();
    Shr(205 * t, 10, 1024);
    DivModUnique(205 * t, 1024, t / 5, 205 * t - 1024 * (t / 5));
  }

  /** `b & 0x0F` and `(b >> 4) & 0x0F` are the nibbles of a byte. */
  lemma Nibbles(b: Byte)
    ensures And(b, 0x0F) == b % 16 && And(Sar(b, 4), 0x0F) == b / 16
  {
    Pow2Values();
    Mask(b, 4, 16);
    ReadBits(b, 4, 16, 4, 16);
    DivModUnique(b / 16, 16, 0, b / 16);
  }

  /** `buf[pos] & 0x0F` and `(buf[pos] >> 4) & 0x0F`. */
  method ReadNibbles(b: Byte) returns (t0: int, t1: int)
    ensures t0 == b % 16 && t1 == b / 16
  {
    t0 := And(b, 0x0F);
    t1 := And(Sar(b, 4), 0x0F);
    Nibbles(b);
  }

  /** `t - ((205 * t) >>> 10) * 5`, the division-free remainder by 5. */
  method Mod5(t: int) returns (r: int)
    requires 0 <= t < 15
    ensures r == t % 5
  {
    Div5(t);
    r := t - Ushr(205 * t, 10) * 5;
  }

  /** The byte at pos extends the reference list by its two nibbles. */
  lemma EtaNext(eta: int, buf: seq<Byte>, pos: nat)
    requires pos < |buf|
    ensures EtaRef(eta, buf, pos + 1) == EtaRef(eta, buf, pos) + EtaNibble(eta, buf[pos] % 16) + EtaNibble(eta, buf[pos] / 16)
  {
  }

  /** When the loop stops, the capped list it stored is the capped
      reference list of all of buf[..buflen]. */
  lemma EtaCapDone(eta: int, buf: seq<Byte>, buflen: nat, pos: nat, len: nat, run: seq<int>)
    requires pos <= buflen <= |buf| && run == Cap(EtaRef(eta, buf, pos), len)
    requires |run| < len ==> pos == buflen
    ensures run == Cap(EtaRef(eta, buf, buflen), len)
  {
    EtaPrefix(eta, buf, pos, buflen);
    if |run| == len {
      assert EtaRef(eta, buf, buflen)[..len] == EtaRef(eta, buf, pos)[..len];
    }
  }

  /** What the `rej_eta` loop has stored when it stops. */
  lemma EtaDone(eta: int, coef: seq<int>, out: seq<int>, off: nat, len: nat, buf: seq<Byte>, buflen: nat, pos: nat)
    requires pos <= buflen <= |buf|
    requires Stored(coef, out, off, Cap(EtaRef(eta, buf, pos), len))
    requires |Cap(EtaRef(eta, buf, pos), len)| < len ==> pos == buflen
    ensures Cap(EtaRef(eta, buf, pos), len) == Cap(EtaRef(eta, buf, buflen), len)
    ensures Stored(coef, out, off, Cap(EtaRef(eta, buf, buflen), len))
    ensures forall i :: off <= i < off + |Cap(EtaRef(eta, buf, buflen), len)| ==> -EtaBound(eta) <= out[i] <= EtaBound(eta)
  {
    EtaCapDone(eta, buf, buflen, pos, len, Cap(EtaRef(eta, buf, pos), len));
    EtaRange(eta, buf, buflen);
    StoredRange(coef, out, off, Cap(EtaRef(eta, buf, buflen), len), -EtaBound(eta), EtaBound(eta));
  }

  /** One round of the `rej_eta` loop for eta = 2, on byte b with
      ctr < len values stored: the low nibble, then the high nibble while
      ctr < len. The stored run grows by the nibbles' values, capped at len. */
  method EtaRound2(coef: seq<int>, out: seq<int>, off: nat, len: nat, ctr: nat, b: Byte, ghost run: seq<int>)
    returns (out': seq<int>, ctr': nat)
    requires Stored(coef, out, off, run) && ctr == |run| < len && off + len <= |coef|
    ensures ctr' == |Cap(run + EtaNibble(2, b % 16) + EtaNibble(2, b / 16), len)|
    ensures Stored(coef, out', off, Cap(run + EtaNibble(2, b % 16) + EtaNibble(2, b / 16), len))
  {
    out', ctr' := out, ctr;
    ghost var cur := run;
    var t0, t1 := ReadNibbles(b);
    ghost var n0 := EtaNibble(2, t0);
    ghost var n1 := EtaNibble(2, t1);
    if t0 < 15 {
      t0 := Mod5(t0);
      Push(coef, out', off, cur, 2 - t0);
      out' := out'[off + ctr' := 2 - t0];
      ctr' := ctr' + 1;
      cur := cur + [2 - t0];
    }
    assert cur == run + n0 && ctr' == |cur|;
    if t1 < 15 && ctr' < len {
      t1 := Mod5(t1);
      Push(coef, out', off, cur, 2 - t1);
      out' := out'[off + ctr' := 2 - t1];
      ctr' := ctr' + 1;
      cur := cur + [2 - t1];
      assert cur == run + n0 + n1;
    } else if ctr' < len {
      assert n1 == [];
    }
    CapRound(run, n0, n1, len, cur);
  }

  /** The same round for every other eta. */
  method EtaRound4(eta: int, coef: seq<int>, out: seq<int>, off: nat, len: nat, ctr: nat, b: Byte, ghost run: seq<int>)
    returns (out': seq<int>, ctr': nat)
    requires eta != 2
    requires Stored(coef, out, off, run) && ctr == |run| < len && off + len <= |coef|
    ensures ctr' == |Cap(run + EtaNibble(eta, b % 16) + EtaNibble(eta, b / 16), len)|
    ensures Stored(coef, out', off, Cap(run + EtaNibble(eta, b % 16) + EtaNibble(eta, b / 16), len))
  {
    out', ctr' := out, ctr;
    ghost var cur := run;
    var t0, t1 := ReadNibbles(b);
    ghost var n0 := EtaNibble(eta, t0);
    ghost var n1 := EtaNibble(eta, t1);
    if t0 < 9 {
      Push(coef, out', off, cur, 4 - t0);
      out' := out'[off + ctr' := 4 - t0];
      ctr' := ctr' + 1;
      cur := cur + [4 - t0];
    }
    assert cur == run + n0 && ctr' == |cur|;
    if t1 < 9 && ctr' < len {
      Push(coef, out', off, cur, 4 - t1);
      out' := out'[off + ctr' := 4 - t1];
      ctr' := ctr' + 1;
      cur := cur + [4 - t1];
      assert cur == run + n0 + n1;
    } else if ctr' < len {
      assert n1 == [];
    }
    CapRound(run, n0, n1, len, cur);
  }

  /** One round of the `rej_eta` loop on buf[pos]: the stored run grows
      from the reference list of buf[..pos] to that of buf[..pos + 1],
      capped at len. */
  method EtaRound(eta: int, coef: seq<int>, out: seq<int>, off: nat, len: nat, ctr: nat, buf: seq<Byte>, pos: nat)
    returns (out': seq<int>, ctr': nat)
    requires pos < |buf| && ctr < len && off + len <= |coef|
    requires ctr == |Cap(EtaRef(eta, buf, pos), len)| && Stored(coef, out, off, Cap(EtaRef(eta, buf, pos), len))
    ensures ctr' == |Cap(EtaRef(eta, buf, pos + 1), len)| && Stored(coef, out', off, Cap(EtaRef(eta, buf, pos + 1), len))
  {
    EtaNext(eta, buf, pos);
    if eta == 2 {
      out', ctr' := EtaRound2(coef, out, off, len, ctr, buf[pos], EtaRef(eta, buf, pos));
    } else {
      out', ctr' := EtaRound4(eta, coef, out, off, len, ctr, buf[pos], EtaRef(eta, buf, pos));
    }
  }

  /** The two stores of one round leave the capped list extended by both
      nibbles. */
  lemma CapRound(run: seq<int>, n0: seq<int>, n1: seq<int>, len: nat, stored: seq<int>)
    requires |run| < len && |n0| <= 1 && |n1| <= 1
    requires |run + n0| < len ==> stored == run + n0 + n1
    requires |run + n0| == len ==> stored == run + n0
    ensures stored == Cap(run + n0 + n1, len)
  {
    if |run + n0| == len {
      assert (run + n0 + n1)[..len] == run + n0;
    }
  }

  /** `rej_eta(eta, coef, off, len, buf, buflen)`: stores at off the first
      ctr values buf[..buflen] yields, where ctr is len or all of them,
      whichever is fewer, and returns ctr. The values lie in [-2, 2] for
      eta = 2 and in [-4, 4] otherwise; nothing outside coef[off..off + ctr]
      changes. */
  method RejEta(eta: int, coef: seq<int>, off: nat, len: nat, buf: seq<Byte>, buflen: nat) returns (out: seq<int>, ctr: nat)
    requires off + len <= |coef| && buflen <= |buf|
    ensures ctr == Min(len, |EtaRef(eta, buf, buflen)|)
    ensures Stored(coef, out, off, Cap(EtaRef(eta, buf, buflen), len))
    ensures forall i :: off <= i < off + ctr ==> -EtaBound(eta) <= out[i] <= EtaBound(eta)
  {
    out := coef;
    ctr := 0;
    var pos := 0;
    while ctr < len && pos < buflen
      invariant pos <= buflen && ctr <= len
      invariant ctr == |Cap(EtaRef(eta, buf, pos), len)|
      invariant Stored(coef, out, off, Cap(EtaRef(eta, buf, pos), len))
    {
      out, ctr := EtaRound(eta, coef, out, off, len, ctr, buf, pos);
      pos := pos + 1;
    }
    EtaDone(eta, coef, out, off, len, buf, buflen, pos);
  }

  // ---------------------------------------------------------------------
  // generateChallenge

  /** The number of entries of s equal to v. */
  function CountOf(s: seq<int>, v: int): (n: nat)
    ensures n <= |s|
  {
    if |s| == 0 then 0 else (if s[|s| - 1] == v then 1 else 0) + CountOf(s[..|s| - 1], v)
  }

  /** Overwriting one entry moves one count. */
  lemma {:induction false} CountUpdate(s: seq<int>, j: int, x: int, v: int)
    requires 0 <= j < |s|
    ensures CountOf(s[j := x], v) == CountOf(s, v) - (if s[j] == v then 1 else 0) + (if x == v then 1 else 0)
    decreases |s|
  {
    var t := s[j := x];
    if j < |s| - 1 {
      assert t[..|t| - 1] == s[..|s| - 1][j := x];
      CountUpdate(s[..|s| - 1], j, x, v);
    } else {
      assert t[..|t| - 1] == s[..|s| - 1];
    }
  }

  /** One step of the shuffle: moving c[b] to the empty slot i and
      putting a sign at b adds one nonzero entry, of that sign. */
  lemma SwapCounts(c: seq<int>, i: int, b: int, sign: int)
    requires 0 <= b <= i < |c| && c[i] == 0 && (sign == 1 || sign == -1)
    ensures CountOf(c[i := c[b]][b := sign], 0) == CountOf(c, 0) - 1
    ensures CountOf(c[i := c[b]][b := sign], -1) == CountOf(c, -1) + (if sign == -1 then 1 else 0)
    ensures CountOf(c[i := c[b]][b := sign], 1) == CountOf(c, 1) + (if sign == 1 then 1 else 0)
  {
    var c1 := c[i := c[b]];
    CountUpdate(c, i, c[b], 0);
    CountUpdate(c, i, c[b], -1);
    CountUpdate(c, i, c[b], 1);
    CountUpdate(c1, b, sign, 0);
    CountUpdate(c1, b, sign, -1);
    CountUpdate(c1, b, sign, 1);
  }

  /** A sequence of zeros. */
  lemma {:induction false} CountZeros(n: nat)
    ensures CountOf(seq(n, i => 0), 0) == n
    ensures CountOf(seq(n, i => 0), 1) == 0 && CountOf(seq(n, i => 0), -1) == 0
  {
    if n > 0 {
      assert seq(n, i => 0)[..n - 1] == seq(n - 1, i => 0);
      CountZeros(n - 1);
    }
  }

  /** The little-endian value of a byte string. */
  function LittleEndian(b: seq<Byte>): (v: int)
    ensures v >= 0
  {
    if |b| == 0 then 0 else b[0] + 256 * LittleEndian(b[1..])
  }

  /** The number of set bits among the low t bits of x >= 0. */
  function PopCount(x: int, t: nat): (n: nat)
    requires x >= 0
    ensures n <= t
  {
    if t == 0 then 0 else x % 2 + PopCount(x / 2, t - 1)
  }

  /** The position drawn for slot i from the stream at pos: the first byte
      from pos on that is at most i, with the position after it, or None
      when the stream ends first. */
  function Draw(stream: seq<Byte>, pos: nat, i: int): (r: Option<(int, nat)>)
    ensures r.Some? ==> 0 <= r.value.0 <= i && pos < r.value.1 <= |stream|
    ensures r.Some? ==> r.value.0 == stream[r.value.1 - 1] as int
    decreases |stream| - pos
  {
    if pos >= |stream| then None
    else if stream[pos] as int <= i then Some((stream[pos] as int, pos + 1))
    else Draw(stream, pos + 1, i)
  }

  /** The shuffle from slot i on: each slot takes the entry at the drawn
      position, which becomes +1 or -1 by the next sign bit. */
  function Shuffle(c: seq<int>, signs: int, i: int, pos: nat, stream: seq<Byte>): (r: Option<Poly>)
    requires |c| == N && 0 <= i <= N
    decreases N - i
  {
    if i == N then Some(c)
    else match Draw(stream, pos, i)
      case None => None
      case Some((b, next)) => Shuffle(c[i := c[b]][b := 1 - 2 * (signs % 2)], signs / 2, i + 1, next, stream)
  }

  /** The challenge a stream determines: the first 8 bytes are the sign
      bits, the shuffle fills the last tau slots. */
  function Challenge(tau: nat, stream: seq<Byte>): (r: Option<Poly>)
    requires tau <= N
  {
    if |stream| < 8 then None
    else Shuffle(seq(N, j => 0), LittleEndian(stream[..8]), N - tau, 8, stream)
  }

  /** One slot of the shuffle, once its position is drawn. */
  lemma ShuffleStep(c: seq<int>, signs: int, i: int, pos: nat, stream: seq<Byte>, b: int, next: nat)
    requires |c| == N && 0 <= i < N && Draw(stream, pos, i) == Some((b, next))
    ensures 0 <= b <= i
    ensures Shuffle(c, signs, i, pos, stream) == Shuffle(c[i := c[b]][b := 1 - 2 * (signs % 2)], signs / 2, i + 1, next, stream)
  {
  }

  /** The inner loop of the shuffle: bytes are read from pos on until one
      is at most i. */
  method NextPosition(stream: seq<Byte>, pos: nat, i: int) returns (r: Option<(int, nat)>)
    ensures r == Draw(stream, pos, i)
  {
    if pos >= |stream| {
      return None;
    }
    var b := stream[pos];
    var next := pos + 1;
    while b as int > i
      invariant pos < next <= |stream| && b == stream[next - 1]
      invariant Draw(stream, pos, i) == Draw(stream, next - 1, i)
      decreases |stream| - next
    {
      if next >= |stream| {
        return None;
      }
      b := stream[next];
      next := next + 1;
    }
    return Some((b as int, next));
  }

  /** What the shuffle from slot i on does to the counts: the tau - i
      empty slots left each take a sign, -1 for every set bit among the
      next sign bits. */
  lemma {:induction false} ShuffleCounts(c: seq<int>, signs: int, i: int, pos: nat, stream: seq<Byte>)
    requires |c| == N && 0 <= i <= N && signs >= 0
    requires forall j :: 0 <= j < N ==> c[j] in {-1, 0, 1}
    requires forall j :: i <= j < N ==> c[j] == 0
    requires Shuffle(c, signs, i, pos, stream).Some?
    ensures var r := Shuffle(c, signs, i, pos, stream).value;
      && (forall j :: 0 <= j < N ==> r[j] in {-1, 0, 1})
      && CountOf(r, 0) == CountOf(c, 0) - (N - i)
      && CountOf(r, -1) == CountOf(c, -1) + PopCount(signs, N - i)
      && CountOf(r, 1) == CountOf(c, 1) + (N - i) - PopCount(signs, N - i)
    decreases N - i
  {
    if i < N {
      var d := Draw(stream, pos, i).value;
      var sign := 1 - 2 * (signs % 2);
      ShuffleStep(c, signs, i, pos, stream, d.0, d.1);
      SwapCounts(c, i, d.0, sign);
      ShuffleCounts(c[i := c[d.0]][d.0 := sign], signs / 2, i + 1, d.1, stream);
    }
  }

  /** The challenge has exactly tau nonzero coefficients, every one +1 or
      -1, and as many -1s as there are set bits among the first tau sign
      bits. */
  lemma ChallengeCounts(tau: nat, stream: seq<Byte>)
    requires tau <= N
    ensures Challenge(tau, stream).Some? ==> forall j :: 0 <= j < N ==> Challenge(tau, stream).value[j] in {-1, 0, 1}
    ensures Challenge(tau, stream).Some? ==> |stream| >= 8 && CountOf(Challenge(tau, stream).value, 0) == N - tau
    ensures Challenge(tau, stream).Some? ==> |stream| >= 8 && CountOf(Challenge(tau, stream).value, -1) == PopCount(LittleEndian(stream[..8]), tau)
    ensures Challenge(tau, stream).Some? ==> |stream| >= 8 && CountOf(Challenge(tau, stream).value, 1) == tau - PopCount(LittleEndian(stream[..8]), tau)
  {
    if |stream| >= 8 && Challenge(tau, stream).Some? {
      CountZeros(N);
      ShuffleCounts(seq(N, j => 0), LittleEndian(stream[..8]), N - tau, 8, stream);
    }
  }

  /** `generateChallenge(tau, seed)` on the bytes SHAKE256 squeezes from the
      seed: the first 8 bytes are 64 sign bits, later bytes are positions,
      rejected while above i. The source squeezes more bytes without end;
      here the stream is finite and None reports that it ran out. The
      challenge has exactly tau nonzero coefficients, every one +1 or -1,
      and the number of -1s is the number of set bits among the first tau
      sign bits. */
  method GenerateChallenge(tau: nat, stream: seq<Byte>) returns (r: Option<Poly>)
    requires tau <= N
    ensures r.Some? ==> forall j :: 0 <= j < N ==> r.value[j] in {-1, 0, 1}
    ensures r.Some? ==> CountOf(r.value, 0) == N - tau
    ensures r.Some? ==> |stream| >= 8 && CountOf(r.value, -1) == PopCount(LittleEndian(stream[..8]), tau)
    ensures r.Some? ==> |stream| >= 8 && CountOf(r.value, 1) == tau - PopCount(LittleEndian(stream[..8]), tau)
    ensures r == Challenge(tau, stream)
  {
    ChallengeCounts(tau, stream);
    if |stream| < 8 {
      return None;
    }
    // BigInt OR of the bytes shifted by 8 * i: the fields are disjoint, so
    // the OR is the little-endian value.
    var signs := LittleEndian(stream[..8]);
    var c: seq<int> := seq(N, j => 0);
    var pos: nat := 8;
    var i := N - tau;
    while i < N
      invariant N - tau <= i <= N && |c| == N
      invariant Shuffle(c, signs, i, pos, stream) == Challenge(tau, stream)
    {
      var drawn := NextPosition(stream, pos, i);
      if drawn.None? {
        return None;
      }
      var b := drawn.value.0;
      ghost var start := pos;
      pos := drawn.value.1;
      // signs & 1 and signs >> 1 on a non-negative BigInt
      var sign := 1 - 2 * (signs % 2);
      ShuffleStep(c, signs, i, start, stream, b, pos);
      c := c[i := c[b]][b := sign];
      signs := signs / 2;
      i := i + 1;
    }
    return Some(c);
  }
}
