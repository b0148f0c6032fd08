/** Ring elements and their coefficient arithmetic (src/poly.ts): the
    residue helpers, Montgomery reduction, the two rounding functions
    Power2Round and Decompose, the norm check and the shift by D. Every
    operation works coefficient by coefficient with the JavaScript integer
    semantics of the source. */
module Polynomial {
  import opened JsNumber
  import opened Params
  import opened Outcomes

  /** A polynomial of the ring, as its N coefficients. */
  type Poly = s: seq<int> | |s| == N witness seq(256, i => 0)

  const Zero: Poly := seq(N, i => 0)

  function Abs(x: int): int {
    if x < 0 then -x else x
  }

  // ---------------------------------------------------------------------
  // Residue helpers

  /** `(a + b) % Q` per coefficient, with JavaScript's truncating `%`. */
  function Add(a: Poly, b: Poly): Poly {
    seq(N, i requires 0 <= i < N => Rem(a[i] + b[i], Q))
  }

  /** Each coefficient of `Add(a, b)` is congruent to the sum, in (-Q, Q),
      of the sum's sign, and the sum itself when that is already in range.
      (Stated as a lemma so that callers of `Add` pay for it only when they
      need it.) */
  lemma AddCoefs(a: Poly, b: Poly)
    ensures forall i :: 0 <= i < N ==>
      && (a[i] + b[i] - Add(a, b)[i]) % Q == 0
      && -Q < Add(a, b)[i] < Q
      && (a[i] + b[i] >= 0 ==> Add(a, b)[i] >= 0)
      && (a[i] + b[i] <= 0 ==> Add(a, b)[i] <= 0)
      && (-Q < a[i] + b[i] < Q ==> Add(a, b)[i] == a[i] + b[i])
  {
  }

  /** `(a - b) % Q` per coefficient, with JavaScript's truncating `%`. */
  function Sub(a: Poly, b: Poly): (r: Poly)
    ensures forall i :: 0 <= i < N ==>
      && (a[i] - b[i] - r[i]) % Q == 0
      && -Q < r[i] < Q
      && (a[i] - b[i] >= 0 ==> r[i] >= 0)
      && (a[i] - b[i] <= 0 ==> r[i] <= 0)
      && (-Q < a[i] - b[i] < Q ==> r[i] == a[i] - b[i])
  {
    seq(N, i requires 0 <= i < N => Rem(a[i] - b[i], Q))
  }

  /** `(c + ((c >> 31) & Q)) | 0`: adds Q to a negative coefficient. */
  function CaddqCoef(c: int): (r: int)
    ensures IsInt32(c) && c >= 0 ==> r == c
    ensures IsInt32(c) && c < 0 ==> r == c + Q
    ensures -Q < c < Q ==> 0 <= r < Q && (r - c) % Q == 0
  {
    SarSign(c);
    AndZero(Q);
    AndAllOnes(Q);
    ToInt32(c + And(Sar(c, 31), Q))
  }

  /** Conditional addition of Q, the canonicalisation step before rounding. */
  function Caddq(p: Poly): (r: Poly)
    ensures forall i :: 0 <= i < N && -Q < p[i] < Q ==> 0 <= r[i] < Q && (r[i] - p[i]) % Q == 0
    ensures forall i :: 0 <= i < N && 0 <= p[i] < TWO31 ==> r[i] == p[i]
  {
    seq(N, i requires 0 <= i < N => CaddqCoef(p[i]))
  }

  /** `reduce32`: subtracts round(a / 2^23) multiples of Q. For every 32-bit
      input below 2^31 - 2^22 the result is congruent to a and lies in
      [-6283009, 6283008]. */
  function Reduce32(a: int): (r: int)
    ensures IsInt32(a) && a < TWO31 - 0x40_0000 ==>
      (r - a) % Q == 0 && -6283009 <= r <= 6283008
  {
    Pow2Values();
    var t := Sar(a + Pow2(22), 23);
    if IsInt32(a) && a < TWO31 - 0x40_0000 then
      ReduceFacts(a, t);
      ToInt32(a - ToInt32(t * Q))
    else
      ToInt32(a - ToInt32(t * Q))
  }

  lemma ReduceFacts(a: int, t: int)
    requires IsInt32(a) && a < TWO31 - 0x40_0000
    requires t == Sar(a + Pow2(22), 23)
    ensures -6283009 <= ToInt32(a - ToInt32(t * Q)) <= 6283008
    ensures (ToInt32(a - ToInt32(t * Q)) - a) % Q == 0
  {
    Pow2Values();
    var s := a + 0x40_0000;
    assert IsInt32(s);
    assert t == s / 0x80_0000;
    assert 0x80_0000 * t <= s < 0x80_0000 * t + 0x80_0000;
    assert -256 <= t <= 255;
    assert ToInt32(a - ToInt32(t * Q)) - a == Q * (-t);
    MultipleMod(Q, -t);
  }

  /** The constant behind QINV: Q * QINV == 1 + 2^32 * 114592. */
  const QINV_CARRY: int := 114592

  /** `montgomery_reduce` on a 64-bit `Long`: t = low 32 bits of a * QINV,
      then (a - t * Q) >> 32 taken as a 32-bit value. For |a| < 2^31 * Q it
      returns r with r * 2^32 congruent to a modulo Q and |r| < Q. */
  function MontgomeryReduce(a: int): (r: int)
    requires IsInt64(a)
    ensures -TWO31 * Q < a < TWO31 * Q ==> -Q < r < Q && (r * TWO32 - a) % Q == 0
  {
    var t := ToInt32(ToInt64(a * QINV));
    var u := ToInt64(a - ToInt64(t * Q));
    MontgomeryFacts(a, t, u);
    ToInt32(ToUint32(u / TWO32))
  }

  lemma ToInt32Congruent(x: int, y: int)
    requires (x - y) % TWO32 == 0
    ensures ToInt32(x) == ToInt32(y)
  {
    var c := (x - y) / TWO32;
    assert x == y + TWO32 * c;
    var q := y / TWO32;
    var m := y % TWO32;
    assert x == TWO32 * (q + c) + m;
    DivModUnique(x, TWO32, q + c, m);
  }

  lemma MontgomeryFacts(a: int, t: int, u: int)
    requires IsInt64(a)
    requires t == ToInt32(ToInt64(a * QINV))
    requires u == ToInt64(a - ToInt64(t * Q))
    ensures -TWO31 * Q < a < TWO31 * Q ==>
      var r := ToInt32(ToUint32(u / TWO32));
      -Q < r < Q && (r * TWO32 - a) % Q == 0
  {
    if -TWO31 * Q < a < TWO31 * Q {
      var x := a * QINV;
      assert (ToInt64(x) - x) % TWO32 == 0 by {
        var w := (x - ToInt64(x)) / TWO64;
        assert x - ToInt64(x) == TWO64 * w;
        assert x - ToInt64(x) == TWO32 * (TWO32 * w);
        MultipleMod(TWO32, -(TWO32 * w));
      }
      ToInt32Congruent(ToInt64(x), x);
      assert t == ToInt32(x);
      var m := (x - t) / TWO32;
      assert x - t == TWO32 * m;
      assert IsInt64(t * Q);
      // a - t * Q == 2^32 * (m * Q - a * QINV_CARRY), because Q * QINV == 1 + 2^32 * QINV_CARRY
      var v := m * Q - a * QINV_CARRY;
      assert a - t * Q == TWO32 * v;
      assert IsInt64(a - t * Q);
      assert u == TWO32 * v;
      DivModUnique(u, TWO32, v, 0);
      assert -Q < v < Q;
      ToInt32OfUint32(v);
      assert v * TWO32 - a == Q * (-t);
      MultipleMod(Q, -t);
    }
  }

  /** `pointwiseMontgomery`: the Montgomery product of matching coefficients. */
  function PointwiseMontgomery(a: Poly, b: Poly): Poly {
    seq(N, i requires 0 <= i < N => MontgomeryReduce(ToInt64(a[i] * b[i])))
  }

  /** Each coefficient of `PointwiseMontgomery(a, b)` whose product is in
      range is in (-Q, Q) and, times 2^32, congruent to the product. */
  lemma MontgomeryCoefs(a: Poly, b: Poly)
    ensures forall i :: 0 <= i < N && -TWO31 * Q < a[i] * b[i] < TWO31 * Q ==>
      -Q < PointwiseMontgomery(a, b)[i] < Q
      && (PointwiseMontgomery(a, b)[i] * TWO32 - a[i] * b[i]) % Q == 0
  {
  }

  /** `reduce`: `reduce32` on every coefficient. */
  function Reduce(p: Poly): (r: Poly)
    ensures forall i :: 0 <= i < N && IsInt32(p[i]) && p[i] < TWO31 - 0x40_0000 ==>
      (r[i] - p[i]) % Q == 0 && -6283009 <= r[i] <= 6283008
  {
    seq(N, i requires 0 <= i < N => Reduce32(p[i]))
  }

  /** `shiftl`: every coefficient times 2^D, as a 32-bit shift. */
  function Shiftl(p: Poly): (r: Poly)
    ensures forall i :: 0 <= i < N && 0 <= p[i] < 0x4_0000 ==> r[i] == p[i] * 8192
  {
    Pow2Values();
    seq(N, i requires 0 <= i < N => Shl(p[i], 13))
  }

  // ---------------------------------------------------------------------
  // Rounding

  /** Power2Round of one coefficient: a1 = (a + 2^12 - 1) >> 13 and
      a0 = a - (a1 << 13). For a in [0, Q) this splits a into a high part
      in [0, 1023] and a low part in (-2^12, 2^12]. */
  function PowerRoundCoef(a: int): (r: (int, int))
    ensures IsInt32(a) && a + 4095 < TWO31 ==> a == r.1 * 8192 + r.0 && -4096 < r.0 <= 4096
    ensures 0 <= a < Q ==> 0 <= r.1 <= 1023
  {
    Pow2Values();
    var a1 := ToInt32(Sar(a + Pow2(12) - 1, 13));
    var a0 := ToInt32(a - Shl(a1, 13));
    PowerRoundFacts(a, a1, a0);
    (a0, a1)
  }

  lemma PowerRoundFacts(a: int, a1: int, a0: int)
    requires a1 == ToInt32(Sar(a + Pow2(12) - 1, 13))
    requires a0 == ToInt32(a - Shl(a1, 13))
    ensures IsInt32(a) && a + 4095 < TWO31 ==> a == a1 * 8192 + a0 && -4096 < a0 <= 4096
    ensures 0 <= a < Q ==> 0 <= a1 <= 1023
  {
    Pow2Values();
    if IsInt32(a) && a + 4095 < TWO31 {
      var s := a + 4095;
      assert a1 == s / 8192;
      assert 8192 * a1 <= s < 8192 * a1 + 8192;
      assert Shl(a1, 13) == a1 * 8192;
    }
  }

  /** `powerRound`: the pair (t0, t1) of low and high parts. */
  function PowerRound(p: Poly): (r: (Poly, Poly))
    ensures forall i :: 0 <= i < N && 0 <= p[i] < Q ==>
      && p[i] == r.1[i] * 8192 + r.0[i]
      && -4096 < r.0[i] <= 4096
      && 0 <= r.1[i] <= 1023
  {
    (seq(N, i requires 0 <= i < N => PowerRoundCoef(p[i]).0),
     seq(N, i requires 0 <= i < N => PowerRoundCoef(p[i]).1))
  }

  predicate ValidGamma2(gamma2: int) {
    gamma2 == GAMMA2_32 || gamma2 == GAMMA2_88
  }

  /** Largest high part Decompose produces: 15 or 43. */
  function MaxHigh(gamma2: int): int {
    if gamma2 == GAMMA2_32 then 15 else 43
  }

  /** The high part of Decompose before the low part is formed:
      b = (a + 127) >> 7, then the level-specific rounding of b by
      2 * gamma2 / 128 (a multiply-and-shift approximation of the division),
      with the top value folded to 0: by masking to 4 bits for (Q-1)/32, by
      the branch-free `a1 ^= ((43 - a1) >> 31) & a1` for (Q-1)/88. */
  function HighBits(gamma2: int, a: int): (a1: int)
    requires ValidGamma2(gamma2)
  {
    var b := Sar(a + 127, 7);
    if gamma2 == GAMMA2_32 then
      And(Sar(b * 1025 + 0x20_0000, 22), 15)
    else
      var u := Sar(b * 11275 + 0x80_0000, 24);
      Xor(u, And(Sar(43 - u, 31), u))
  }

  /** Decompose of one coefficient into (a0, a1); on [0, Q) it is the
      arithmetic split SplitRef, whose facts SplitRefFacts states. */
  function DecomposeCoef(gamma2: int, a: int): (r: (int, int))
    requires ValidGamma2(gamma2)
    ensures 0 <= a < Q ==> r == SplitRef(gamma2, a)
  {
    var a1 := HighBits(gamma2, a);
    var a0 := ToInt32(a - a1 * 2 * gamma2);
    var a0' := a0 - And(Sar((Q - 1) / 2 - a0, 31), Q);
    if 0 <= a < Q then
      HighBitsSplit(gamma2, a);
      DecomposeFacts(gamma2, a, a1, a0, a0');
      (a0', ToInt32(a1))
    else
      (a0', ToInt32(a1))
  }

  /** The rounding quotient of the reference split: the high part before
      the top interval is folded, ceil((a - gamma2) / (2 * gamma2)). */
  function Quotient(gamma2: int, a: int): int
    requires ValidGamma2(gamma2)
  {
    if gamma2 == GAMMA2_32 then (a + 261887) / 523776 else (a + 95231) / 190464
  }

  /** The decomposition by plain arithmetic, as (low, high): a0 is a
      centered modulo 2 * gamma2, and when a - a0 = Q - 1 the high part
      folds to 0 and the low part drops by one, i.e. a0 = a - Q. */
  function SplitRef(gamma2: int, a: int): (r: (int, int))
    requires ValidGamma2(gamma2)
  {
    var a1 := Quotient(gamma2, a);
    if a1 == MaxHigh(gamma2) + 1 then (a - Q, 0) else (a - a1 * 2 * gamma2, a1)
  }

  /** The characterisation DecomposeCoef meets singles out SplitRef. */
  lemma SplitRefUnique(gamma2: int, a: int, a1: int, a0: int)
    requires ValidGamma2(gamma2) && 0 <= a < Q && 0 <= a1 <= MaxHigh(gamma2)
    requires (a0 == a - a1 * 2 * gamma2 && -gamma2 < a0 <= gamma2) || (a1 == 0 && a0 == a - Q && -gamma2 <= a0 < 0)
    ensures SplitRef(gamma2, a) == (a0, a1)
  {
    if gamma2 == GAMMA2_32 {
      QuotientOf(a, a1, a0, 261888, 15);
    } else {
      QuotientOf(a, a1, a0, 95232, 43);
    }
  }

  /** The quotient of the reference split for one gamma2 with m + 1 high
      parts. */
  lemma QuotientOf(a: int, a1: int, a0: int, g: int, m: int)
    requires g > 0 && 2 * g * (m + 1) == Q - 1 && 0 <= a < Q && 0 <= a1 <= m
    requires (a0 == a - a1 * 2 * g && -g < a0 <= g) || (a1 == 0 && a0 == a - Q && -g <= a0 < 0)
    ensures a0 == a - a1 * 2 * g ==> (a + g - 1) / (2 * g) == a1
    ensures a0 != a - a1 * 2 * g ==> (a + g - 1) / (2 * g) == m + 1 && a0 == a - Q
  {
    if a0 == a - a1 * 2 * g {
      DivModUnique(a + g - 1, 2 * g, a1, a0 + g - 1);
    } else {
      DivModUnique(a + g - 1, 2 * g, m + 1, a + g - 1 - (Q - 1));
    }
  }

  /** For a in [0, Q) the high part is in [0, 15] or [0, 43], the low part
      in [-gamma2, gamma2], and either a = a1 * 2 * gamma2 + a0 with a0 above
      -gamma2, or a1 folded to 0 and a0 = a - Q below 0. Either way
      a1 * 2 * gamma2 + a0 is congruent to a modulo Q. */
  lemma SplitRefFacts(gamma2: int, a: int)
    requires ValidGamma2(gamma2) && 0 <= a < Q
    ensures var r := SplitRef(gamma2, a);
      && 0 <= r.1 <= MaxHigh(gamma2)
      && -gamma2 <= r.0 <= gamma2
      && (r.1 * 2 * gamma2 + r.0 - a) % Q == 0
      && ((r.0 == a - r.1 * 2 * gamma2 && -gamma2 < r.0) || (r.1 == 0 && r.0 == a - Q && r.0 < 0))
  {
    var r := SplitRef(gamma2, a);
    if gamma2 == GAMMA2_32 {
      QuotientRange(a, 261888, 15);
    } else {
      QuotientRange(a, 95232, 43);
    }
    if r.1 * 2 * gamma2 + r.0 - a == 0 {
    } else {
      assert r.1 * 2 * gamma2 + r.0 - a == Q * -1;
      MultipleMod(Q, -1);
    }
  }

  /** The quotient ceil((a - g) / (2 * g)) of a in [0, Q). */
  lemma QuotientRange(a: int, g: int, m: int)
    requires g > 0 && 2 * g * (m + 1) == Q - 1 && 0 <= a < Q
    ensures var a1 := (a + g - 1) / (2 * g);
      && 0 <= a1 <= m + 1
      && (a1 <= m ==> -g < a - a1 * 2 * g <= g)
      && (a1 == m + 1 ==> -g <= a - Q < 0)
  {
    var a1 := (a + g - 1) / (2 * g);
    var rem := (a + g - 1) % (2 * g);
    assert a + g - 1 == 2 * g * a1 + rem;
    if a1 > m + 1 {
      MulMono(m + 2, a1, 2 * g);
    }
    if a1 < 0 {
      MulMono(a1, -1, 2 * g);
    }
  }

  /** The quotient HighBits computes before folding: b = ceil(a / 128),
      then b * 2^22 / 1025 or b * 2^24 / 11275 rounded to nearest, a
      multiply-and-shift approximation of division by 2 * gamma2 / 128. */
  function Approx(gamma2: int, a: int): int
    requires ValidGamma2(gamma2)
  {
    var b := (a + 127) / 128;
    if gamma2 == GAMMA2_32 then (b * 1025 + 2097152) / 4194304 else (b * 11275 + 8388608) / 16777216
  }

  /** The top quotient MaxHigh + 1 folded to 0. */
  function Fold(gamma2: int, u: int): int {
    if u == MaxHigh(gamma2) + 1 then 0 else u
  }

  /** HighBits computes the high part of SplitRef. */
  lemma HighBitsSplit(gamma2: int, a: int)
    requires ValidGamma2(gamma2) && 0 <= a < Q
    ensures HighBits(gamma2, a) == SplitRef(gamma2, a).1
  {
    ApproxIsQuotient(gamma2, a);
    if gamma2 == GAMMA2_32 {
      HighBits32(a, Approx(gamma2, a));
    } else {
      HighBits88(a, Approx(gamma2, a));
    }
  }

  /** The shifts and the 4-bit mask of HighBits for gamma2 = (Q-1)/32. */
  lemma HighBits32(a: int, u: int)
    requires 0 <= a < Q && u == Approx(GAMMA2_32, a) && 0 <= u <= 16
    ensures HighBits(GAMMA2_32, a) == Fold(GAMMA2_32, u)
  {
    var b := (a + 127) / 128;
    Shifts(a, b, 1025, 0x20_0000, 22, 0x40_0000, u);
    Fold15(u);
  }

  /** The shifts and the fold of 44 for gamma2 = (Q-1)/88. */
  lemma HighBits88(a: int, u: int)
    requires 0 <= a < Q && u == Approx(GAMMA2_88, a) && 0 <= u <= 44
    ensures HighBits(GAMMA2_88, a) == Fold(GAMMA2_88, u)
  {
    var b := (a + 127) / 128;
    Shifts(a, b, 11275, 0x80_0000, 24, 0x100_0000, u);
    Unfold88(a, b, u);
    Fold43(u);
  }

  lemma Unfold88(a: int, b: int, u: int)
    requires Sar(a + 127, 7) == b && Sar(b * 11275 + 0x80_0000, 24) == u
    ensures HighBits(GAMMA2_88, a) == Xor(u, And(Sar(43 - u, 31), u))
  {
  }

  /** On [0, Q) neither shift of HighBits leaves the non-negative 32-bit
      range, so both are exact divisions. */
  lemma Shifts(a: int, b: int, k: int, h: int, n: nat, d: int, u: int)
    requires 0 <= a < Q && b == (a + 127) / 128
    requires (k, h, n, d) == (1025, 0x20_0000, 22, 0x40_0000) || (k, h, n, d) == (11275, 0x80_0000, 24, 0x100_0000)
    requires u == (b * k + h) / d
    ensures Sar(a + 127, 7) == b && Sar(b * k + h, n) == u
  {
    Pow2Values();
    ShrExact(a + 127, 7);
    assert 0 <= b * k + h < TWO31;
    ShrExact(b * k + h, n);
  }

  /** The multiply-and-shift approximation agrees with exact rounding on
      [0, Q). */
  lemma ApproxIsQuotient(gamma2: int, a: int)
    requires ValidGamma2(gamma2) && 0 <= a < Q
    ensures Approx(gamma2, a) == Quotient(gamma2, a)
    ensures 0 <= Approx(gamma2, a) <= MaxHigh(gamma2) + 1
  {
    var b := (a + 127) / 128;
    var u := Approx(gamma2, a);
    if gamma2 == GAMMA2_32 {
      Decompose32Bounds(a, b, u);
      if u <= 15 {
        QuotientOf(a, u, a - u * 523776, 261888, 15);
      } else {
        QuotientOf(a, 0, a - Q, 261888, 15);
      }
    } else {
      Decompose88Bounds(a, b, u);
      if u <= 43 {
        QuotientOf(a, u, a - u * 190464, 95232, 43);
      } else {
        QuotientOf(a, 0, a - Q, 95232, 43);
      }
    }
  }

  /** Linear core of Decompose for gamma2 = (Q-1)/32: with b = ceil(a / 128)
      and u = round(1025 b / 2^22), u is at most 16 and u * 2 * gamma2 is
      within gamma2 of a, except u = 16 where a is within gamma2 below Q. */
  lemma Decompose32Bounds(a: int, b: int, u: int)
    requires 0 <= a < Q
    requires b == (a + 127) / 128
    requires u == (b * 1025 + 2097152) / 4194304
    ensures 0 <= u <= 16
    ensures u <= 15 ==> -261888 < a - u * 523776 <= 261888
    ensures u == 16 ==> -261888 <= a - Q < 0
  {
    assert 128 * b <= a + 127 < 128 * b + 128;
    assert 4194304 * u <= 1025 * b + 2097152 < 4194304 * u + 4194304;
    // 4194304 = 1025 * 4092 + 4 and 523776 = 128 * 4092
    var e := 4092 * u - b;
    assert 1025 * e + 4 * u <= 2097152 < 1025 * e + 4 * u + 4194304;
    assert e <= 2045;
    assert u <= 15 ==> e >= -2046;
  }

  /** The same for gamma2 = (Q-1)/88 with u = round(11275 b / 2^24). */
  lemma Decompose88Bounds(a: int, b: int, u: int)
    requires 0 <= a < Q
    requires b == (a + 127) / 128
    requires u == (b * 11275 + 8388608) / 16777216
    ensures 0 <= u <= 44
    ensures u <= 43 ==> -95232 < a - u * 190464 <= 95232
    ensures u == 44 ==> -95232 <= a - Q < 0
  {
    assert 128 * b <= a + 127 < 128 * b + 128;
    assert 16777216 * u <= 11275 * b + 8388608 < 16777216 * u + 16777216;
    // 16777216 = 11275 * 1488 + 16 and 190464 = 128 * 1488
    var e := 1488 * u - b;
    assert 11275 * e + 16 * u <= 8388608 < 11275 * e + 16 * u + 16777216;
    assert 1 <= u ==> e <= 743;
    assert u <= 43 ==> e >= -744;
  }

  /** `u & 15` folds 16 to 0 and keeps 0..15. */
  lemma Fold15(u: int)
    requires 0 <= u <= 16
    ensures And(u, 15) == if u <= 15 then u else 0
  {
    Mask15(u);
    if u <= 15 {
      DivModUnique(u, 16, 0, u);
    } else {
      DivModUnique(u, 16, 1, 0);
    }
  }

  lemma Mask15(u: int)
    ensures And(u, 15) == u % 16
  {
    Pow2Values();
    AndMask(u, 4);
  }

  /** `u ^= ((43 - u) >> 31) & u` folds 44 to 0 and keeps 0..43. */
  lemma Fold43(u: int)
    requires 0 <= u <= 44
    ensures Xor(u, And(Sar(43 - u, 31), u)) == if u <= 43 then u else 0
  {
    SarSign(43 - u);
    if u <= 43 {
      AndZero(u);
      XorZero(u);
    } else {
      AndAllOnes(u);
      XorSelf(u);
    }
  }

  /** Decompose's low part and 32-bit high part, given the high part of
      SplitRef, are SplitRef. */
  lemma DecomposeFacts(gamma2: int, a: int, a1: int, a0: int, a0': int)
    requires ValidGamma2(gamma2) && 0 <= a < Q
    requires a1 == SplitRef(gamma2, a).1
    requires a0 == ToInt32(a - a1 * 2 * gamma2)
    requires a0' == a0 - And(Sar((Q - 1) / 2 - a0, 31), Q)
    ensures (a0', ToInt32(a1)) == SplitRef(gamma2, a)
  {
    SplitRefFacts(gamma2, a);
    var m := a1 * 2 * gamma2;
    assert a1 == 0 ==> m == 0;
    LowPart(gamma2, a, m, a0, a0');
    assert ToInt32(a1) == a1;
  }

  /** The correction `a0 -= (((Q-1)/2 - a0) >> 31) & Q`: subtract Q from
      a0 exactly when a0 exceeds (Q-1)/2. */
  lemma Correction(x: int, x': int)
    requires IsInt32((Q - 1) / 2 - x) && x' == x - And(Sar((Q - 1) / 2 - x, 31), Q)
    ensures x' == if x > (Q - 1) / 2 then x - Q else x
  {
    SarSign((Q - 1) / 2 - x);
    if x > (Q - 1) / 2 {
      AndAllOnes(Q);
    } else {
      AndZero(Q);
    }
  }

  /** The low part of decompose, with the product a1 * 2 * gamma2 held in
      m: a - m when that is in (-gamma2, gamma2], and a - Q in the folded
      top interval, where m is 0. */
  lemma LowPart(gamma2: int, a: int, m: int, a0: int, a0': int)
    requires ValidGamma2(gamma2) && 0 <= a < Q
    requires -gamma2 < a - m <= gamma2 || (m == 0 && -gamma2 <= a - Q < 0)
    requires a0 == ToInt32(a - m)
    requires a0' == a0 - And(Sar((Q - 1) / 2 - a0, 31), Q)
    ensures -gamma2 < a - m <= gamma2 ==> a0' == a - m
    ensures !(-gamma2 < a - m <= gamma2) ==> a0' == a - Q
  {
    assert IsInt32(a - m) && a0 == a - m;
    Correction(a0, a0');
  }

  /** `decompose(gamma2)`: the pair (w0, w1) of low and high parts, which
      is SplitRef on every coefficient in [0, Q); any gamma2 other than
      (Q-1)/32 and (Q-1)/88 throws. */
  function Decompose(gamma2: int, p: Poly): (r: Result<(Poly, Poly)>)
    ensures r.Failure? <==> !ValidGamma2(gamma2)
    ensures r.Failure? ==> r.error == InvalidGamma2(gamma2)
    ensures r.Success? ==> forall i :: 0 <= i < N && 0 <= p[i] < Q ==>
      (r.value.0[i], r.value.1[i]) == SplitRef(gamma2, p[i])
  {
    if !ValidGamma2(gamma2) then Failure(InvalidGamma2(gamma2))
    else
      var lo: Poly := seq(N, i requires 0 <= i < N => DecomposeCoef(gamma2, p[i]).0);
      var hi: Poly := seq(N, i requires 0 <= i < N => DecomposeCoef(gamma2, p[i]).1);
      DecomposeParts(gamma2, p, lo, hi);
      Success((lo, hi))
  }

  /** For coefficients in [0, Q), decompose's high parts are in [0, 15] or
      [0, 43], its low parts in [-gamma2, gamma2], and high * 2 * gamma2 +
      low is congruent to the coefficient modulo Q. */
  lemma DecomposeBounds(gamma2: int, p: Poly)
    requires ValidGamma2(gamma2)
    ensures var r := Decompose(gamma2, p).value;
      forall i :: 0 <= i < N && 0 <= p[i] < Q ==>
        && 0 <= r.1[i] <= MaxHigh(gamma2)
        && -gamma2 <= r.0[i] <= gamma2
        && (r.1[i] * 2 * gamma2 + r.0[i] - p[i]) % Q == 0
  {
    var r := Decompose(gamma2, p).value;
    SplitParts(gamma2, p, r.0, r.1);
  }

  /** Decompose is SplitRef on every coefficient in [0, Q). */
  lemma DecomposeParts(gamma2: int, p: Poly, lo: Poly, hi: Poly)
    requires ValidGamma2(gamma2)
    requires forall i :: 0 <= i < N ==> lo[i] == DecomposeCoef(gamma2, p[i]).0 && hi[i] == DecomposeCoef(gamma2, p[i]).1
    ensures forall i :: 0 <= i < N && 0 <= p[i] < Q ==> (lo[i], hi[i]) == SplitRef(gamma2, p[i])
  {
  }

  /** The facts of SplitRef, collected over a polynomial. */
  lemma SplitParts(gamma2: int, p: Poly, lo: Poly, hi: Poly)
    requires ValidGamma2(gamma2)
    requires forall i :: 0 <= i < N && 0 <= p[i] < Q ==> (lo[i], hi[i]) == SplitRef(gamma2, p[i])
    ensures forall i :: 0 <= i < N && 0 <= p[i] < Q ==>
      && 0 <= hi[i] <= MaxHigh(gamma2)
      && -gamma2 <= lo[i] <= gamma2
      && (hi[i] * 2 * gamma2 + lo[i] - p[i]) % Q == 0
  {
    forall i | 0 <= i < N && 0 <= p[i] < Q
      ensures && 0 <= hi[i] <= MaxHigh(gamma2)
              && -gamma2 <= lo[i] <= gamma2
              && (hi[i] * 2 * gamma2 + lo[i] - p[i]) % Q == 0
    {
      SplitRefFacts(gamma2, p[i]);
    }
  }

  // ---------------------------------------------------------------------
  // Norm check

  /** `t = c >> 31; t = c - (t & 2 * c)`: the sign word masks 2c away for a
      non-negative c and keeps its 32-bit value for a negative one (see
      NormCoefBits). The absolute value of c, as long as doubling a negative
      c does not leave the 32-bit range. */
  function NormCoef(c: int): (t: int)
    ensures -0x4000_0000 <= c < TWO31 ==> t == Abs(c)
  {
    if ToInt32(c) < 0 then c - ToInt32(2 * c) else c
  }

  /** NormCoef is the bitwise expression of `chknorm`, evaluated with
      JavaScript's 32-bit `>>` and `&`. */
  lemma NormCoefBits(c: int)
    ensures NormCoef(c) == c - And(Sar(c, 31), 2 * c)
  {
    SarSign(c);
    AndZero(2 * c);
    AndAllOnes(2 * c);
  }

  /** `chknorm(B)`: true when B exceeds (Q-1)/8, or when the norm word
      NormCoef of some coefficient reaches B (no centering modulo Q). */
  predicate ChkNorm(p: Poly, bound: int) {
    bound > (Q - 1) / 8 || exists j {:trigger NormCoef(p[j])} :: 0 <= j < N && NormCoef(p[j]) >= bound
  }

  /** The statements of `chknorm`: the bound test, then the scan that
      returns at the first coefficient whose norm word reaches B. */
  method ChkNormScan(p: Poly, bound: int) returns (r: bool)
    ensures r == ChkNorm(p, bound)
  {
    if bound > (Q - 1) / 8 {
      return true;
    }
    var i := 0;
    while i < N
      invariant 0 <= i <= N
      invariant forall j :: 0 <= j < i ==> NormCoef(p[j]) < bound
    {
      var t := Sar(p[i], 31);
      t := p[i] - And(t, 2 * p[i]);
      NormCoefBits(p[i]);
      if t >= bound {
        return true;
      }
      i := i + 1;
    }
    return false;
  }

  /** For coefficients of magnitude below 2^30, chknorm(B) holds exactly
      when B exceeds (Q-1)/8 or some coefficient's absolute value reaches B. */
  lemma ChkNormIff(p: Poly, bound: int)
    requires forall j :: 0 <= j < N ==> -0x4000_0000 <= p[j] < TWO31
    ensures ChkNorm(p, bound) <==> bound > (Q - 1) / 8 || exists j :: 0 <= j < N && Abs(p[j]) >= bound
  {
    forall j | 0 <= j < N
      ensures NormCoef(p[j]) == Abs(p[j])
    {
    }
  }
}
