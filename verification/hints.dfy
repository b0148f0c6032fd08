/** The hint engine of src/hints.ts. The signer records, per coefficient,
    whether adding the low-order correction c * t0 moves the coefficient
    into a neighbouring rounding interval (`makeHint`); the verifier, which
    only knows the corrected value, uses the hint to step its high part back
    (`useHint`). The main theorem here, `HintRecovers`, is that the verifier
    recovers the signer's high part exactly. */
module Hints {
  import opened JsNumber
  import opened Outcomes
  import opened Params
  import opened Blocks
  import opened Polynomial

  // ---------------------------------------------------------------------
  // One coefficient

  /** `makeHint(gamma2, a0, a1)`, where a0 is the corrected low part as a
      residue in [0, Q) and a1 the signer's high part. */
  function MakeHint(gamma2: int, a0: int, a1: int): (h: int)
    ensures h == 0 || h == 1
  {
    if a0 <= gamma2 || a0 > Q - gamma2 || (a0 == Q - gamma2 && a1 == 0) then 0 else 1
  }

  /** Stated on the centered low part s, a hint is 0 exactly when s stays in
      the rounding interval (-gamma2, gamma2], or sits on its lower edge
      while the high part is 0. */
  lemma HintOfCentered(gamma2: int, s: int, a1: int)
    requires ValidGamma2(gamma2) && -Q + gamma2 < s < Q - gamma2
    ensures MakeHint(gamma2, s % Q, a1) == 0 <==> (-gamma2 < s <= gamma2 || (s == -gamma2 && a1 == 0))
  {
    if s >= 0 {
      DivModUnique(s, Q, 0, s);
    } else {
      DivModUnique(s, Q, -1, s + Q);
    }
  }

  /** The step a hint of 1 asks for: one interval up or down, modulo the
      number of high parts (16 for (Q-1)/32, 44 for (Q-1)/88). */
  function Step(gamma2: int, a1: int, up: bool): (r: int)
    ensures 0 <= r <= MaxHigh(gamma2)
  {
    var b := a1 + (if up then 1 else -1);
    if gamma2 == GAMMA2_32 then b % 16 else b % 44
  }

  /** The low part useHint forms: `a0 = a - a1 * 2 * gamma2` without the
      32-bit truncation decompose applies, then the same shift by Q. */
  function HintLow(gamma2: int, a: int, a1: int): int {
    var a0 := a - a1 * 2 * gamma2;
    a0 - And(Sar((Q - 1) / 2 - a0, 31), Q)
  }

  /** On [0, Q), given the high part of the reference split, the low part
      useHint forms is the reference low part. */
  lemma HintLowSplit(gamma2: int, a: int)
    requires ValidGamma2(gamma2) && 0 <= a < Q
    ensures HintLow(gamma2, a, SplitRef(gamma2, a).1) == SplitRef(gamma2, a).0
  {
    var r := SplitRef(gamma2, a);
    SplitRefFacts(gamma2, a);
    HintLowOf(gamma2, a, r.1, r.0);
  }

  /** useHint's low part for a split in range is the split's low part. */
  lemma HintLowOf(gamma2: int, a: int, a1: int, a0: int)
    requires ValidGamma2(gamma2) && 0 <= a < Q
    requires (a0 == a - a1 * 2 * gamma2 && -gamma2 < a0 <= gamma2) || (a1 == 0 && a0 == a - Q && -gamma2 <= a0 < 0)
    ensures HintLow(gamma2, a, a1) == a0
  {
    var m := a1 * 2 * gamma2;
    assert a1 == 0 ==> m == 0;
    Correction(a - m, HintLow(gamma2, a, a1));
  }

  /** `useHint(gamma2, a, hint)`: the high part of a, moved one interval
      towards the low part's sign when the hint is set. Any gamma2 other
      than (Q-1)/32 and (Q-1)/88 throws. */
  function UseHintCoef(gamma2: int, a: int, hint: int): (r: Result<int>)
    ensures r.Failure? <==> !ValidGamma2(gamma2)
    ensures r.Failure? ==> r.error == InvalidGamma2(gamma2)
    ensures r.Success? && 0 <= a < Q ==> 0 <= r.value <= MaxHigh(gamma2)
    ensures r.Success? && 0 <= a < Q && hint == 0 ==> r.value == SplitRef(gamma2, a).1
    ensures r.Success? && 0 <= a < Q && hint != 0 ==>
      r.value == Step(gamma2, SplitRef(gamma2, a).1, SplitRef(gamma2, a).0 > 0)
  {
    if !ValidGamma2(gamma2) then Failure(InvalidGamma2(gamma2))
    else
      var a1 := HighBits(gamma2, a);
      var a0 := HintLow(gamma2, a, a1);
      if 0 <= a < Q then
        HighBitsSplit(gamma2, a);
        HintLowSplit(gamma2, a);
        SplitRefFacts(gamma2, a);
        UseHintStep(gamma2, a1, a0, hint)
      else
        UseHintStep(gamma2, a1, a0, hint)
  }

  /** The tail of useHint once a1 and a0 are known. */
  function UseHintStep(gamma2: int, a1: int, a0: int, hint: int): (r: Result<int>)
    requires ValidGamma2(gamma2)
    ensures r.Success?
    ensures 0 <= a1 <= MaxHigh(gamma2) && hint == 0 ==> r.value == a1
    ensures 0 <= a1 <= MaxHigh(gamma2) && hint != 0 ==> r.value == Step(gamma2, a1, a0 > 0)
  {
    if hint == 0 then Success(a1)
    else if gamma2 == GAMMA2_32 then
      Step32(a1);
      Success(if a0 > 0 then And(a1 + 1, 15) else And(a1 - 1, 15))
    else
      if 0 <= a1 <= 43 then
        Step88(a1);
        Success(if a0 > 0 then (if a1 == 43 then 0 else a1 + 1) else (if a1 == 0 then 43 else a1 - 1))
      else
        Success(if a0 > 0 then (if a1 == 43 then 0 else a1 + 1) else (if a1 == 0 then 43 else a1 - 1))
  }

  /** `(a1 +- 1) & 15` is the step modulo 16. */
  lemma Step32(a1: int)
    ensures And(a1 + 1, 15) == Step(GAMMA2_32, a1, true)
    ensures And(a1 - 1, 15) == Step(GAMMA2_32, a1, false)
  {
    Mask15(a1 + 1);
    Mask15(a1 - 1);
  }

  /** The explicit wrap of 43 and 0 is the step modulo 44. */
  lemma Step88(a1: int)
    requires 0 <= a1 <= 43
    ensures (if a1 == 43 then 0 else a1 + 1) == Step(GAMMA2_88, a1, true)
    ensures (if a1 == 0 then 43 else a1 - 1) == Step(GAMMA2_88, a1, false)
  {
    if a1 == 43 { DivModUnique(44, 44, 1, 0); } else { DivModUnique(a1 + 1, 44, 0, a1 + 1); }
    if a1 == 0 { DivModUnique(-1, 44, -1, 43); } else { DivModUnique(a1 - 1, 44, 0, a1 - 1); }
  }

  /** A step up and a step down cancel, wrapping around at 0 and at the
      largest high part. */
  lemma StepInverse(gamma2: int, w1: int)
    requires ValidGamma2(gamma2) && 0 <= w1 <= MaxHigh(gamma2)
    ensures Step(gamma2, w1 + 1, false) == w1 && Step(gamma2, w1 - 1, true) == w1
    ensures Step(gamma2, 0, false) == MaxHigh(gamma2) && Step(gamma2, MaxHigh(gamma2), true) == 0
  {
    var n := MaxHigh(gamma2) + 1;
    DivModUnique(w1, n, 0, w1);
    DivModUnique(-1, n, -1, n - 1);
    DivModUnique(n, n, 1, 0);
  }

  // ---------------------------------------------------------------------
  // Hints recover the high part

  /** 2 * gamma2 times the number of high parts is Q - 1. */
  lemma Intervals(gamma2: int)
    requires ValidGamma2(gamma2)
    ensures 2 * gamma2 * (MaxHigh(gamma2) + 1) == Q - 1
  {
  }

  /** A centered correction that stays in its interval keeps the high part:
      w1 * 2 * gamma2 + s modulo Q splits into (s, w1). On the lower edge
      this holds only for w1 = 0, through the wrap of the top interval. */
  lemma SplitCentered(gamma2: int, w1: int, s: int)
    requires ValidGamma2(gamma2) && 0 <= w1 <= MaxHigh(gamma2)
    requires -gamma2 < s <= gamma2 || (s == -gamma2 && w1 == 0)
    ensures SplitRef(gamma2, (w1 * 2 * gamma2 + s) % Q) == (s, w1)
  {
    var v := w1 * 2 * gamma2 + s;
    Product(gamma2, w1);
    if v >= 0 {
      assert v % Q == v by { DivModUnique(v, Q, 0, v); }
      SplitRefUnique(gamma2, v, w1, s);
    } else {
      assert w1 == 0;
      assert v % Q == v + Q by { DivModUnique(v, Q, -1, v + Q); }
      SplitRefUnique(gamma2, v + Q, 0, s);
    }
  }

  /** The multiples of 2 * gamma2 that are high parts lie in [0, Q - 1 - 2 * gamma2]. */
  lemma Product(gamma2: int, w1: int)
    requires ValidGamma2(gamma2) && 0 <= w1 <= MaxHigh(gamma2)
    ensures 0 <= w1 * 2 * gamma2 <= Q - 1 - 2 * gamma2
    ensures w1 > 0 ==> 2 * gamma2 <= w1 * 2 * gamma2
  {
    Intervals(gamma2);
    MulMono(0, w1, 2 * gamma2);
    MulMono(w1, MaxHigh(gamma2), 2 * gamma2);
    if w1 > 0 {
      MulMono(1, w1, 2 * gamma2);
    }
  }

  /** A correction above gamma2 moves the value one interval up; from the
      top interval that is the wrapped interval below 0. */
  lemma SplitAbove(gamma2: int, w1: int, s: int)
    requires ValidGamma2(gamma2) && 0 <= w1 <= MaxHigh(gamma2)
    requires gamma2 < s < 2 * gamma2
    ensures SplitRef(gamma2, (w1 * 2 * gamma2 + s) % Q) ==
      if w1 < MaxHigh(gamma2) then (s - 2 * gamma2, w1 + 1) else (s - 2 * gamma2 - 1, 0)
  {
    var v := w1 * 2 * gamma2 + s;
    Product(gamma2, w1);
    assert v % Q == v by { DivModUnique(v, Q, 0, v); }
    if w1 < MaxHigh(gamma2) {
      SplitUp(gamma2, w1, s, v);
    } else {
      SplitRefUnique(gamma2, v, 0, s - 2 * gamma2 - 1);
    }
  }

  lemma SplitUp(gamma2: int, w1: int, s: int, v: int)
    requires ValidGamma2(gamma2) && 0 <= w1 < MaxHigh(gamma2) && gamma2 < s < 2 * gamma2
    requires v == w1 * 2 * gamma2 + s && 0 <= v < Q
    ensures SplitRef(gamma2, v) == (s - 2 * gamma2, w1 + 1)
  {
    assert (w1 + 1) * 2 * gamma2 == w1 * 2 * gamma2 + 2 * gamma2;
    SplitRefUnique(gamma2, v, w1 + 1, s - 2 * gamma2);
  }

  /** A correction at or below -gamma2 moves the value one interval down;
      from the bottom interval that is the top interval. */
  lemma SplitBelow(gamma2: int, w1: int, s: int)
    requires ValidGamma2(gamma2) && 0 <= w1 <= MaxHigh(gamma2)
    requires -2 * gamma2 < s <= -gamma2 && !(s == -gamma2 && w1 == 0)
    ensures SplitRef(gamma2, (w1 * 2 * gamma2 + s) % Q) ==
      if w1 > 0 then (s + 2 * gamma2, w1 - 1) else (s + 2 * gamma2 + 1, MaxHigh(gamma2))
  {
    var v := w1 * 2 * gamma2 + s;
    Product(gamma2, w1);
    if w1 > 0 {
      assert v % Q == v by { DivModUnique(v, Q, 0, v); }
      SplitDown(gamma2, w1, s, v);
    } else {
      assert v % Q == v + Q by { DivModUnique(v, Q, -1, v + Q); }
      SplitBottom(gamma2, s, v + Q);
    }
  }

  lemma SplitDown(gamma2: int, w1: int, s: int, v: int)
    requires ValidGamma2(gamma2) && 0 < w1 <= MaxHigh(gamma2) && -2 * gamma2 < s <= -gamma2
    requires v == w1 * 2 * gamma2 + s && 0 <= v < Q
    ensures SplitRef(gamma2, v) == (s + 2 * gamma2, w1 - 1)
  {
    assert (w1 - 1) * 2 * gamma2 == w1 * 2 * gamma2 - 2 * gamma2;
    SplitRefUnique(gamma2, v, w1 - 1, s + 2 * gamma2);
  }

  lemma SplitBottom(gamma2: int, s: int, r: int)
    requires ValidGamma2(gamma2) && -2 * gamma2 < s < -gamma2 && r == s + Q
    ensures SplitRef(gamma2, r) == (s + 2 * gamma2 + 1, MaxHigh(gamma2))
  {
    Intervals(gamma2);
    assert r == MaxHigh(gamma2) * 2 * gamma2 + (s + 2 * gamma2 + 1);
    SplitRefUnique(gamma2, r, MaxHigh(gamma2), s + 2 * gamma2 + 1);
  }

  /** The recovery argument on the reference split: the signer holds the
      high part w1 and a centered correction |s| < 2 * gamma2; the
      verifier's value w1 * 2 * gamma2 + s modulo Q splits, with the hint
      makeHint computes from the residue of s, back to w1. */
  lemma HintRecoversRef(gamma2: int, w1: int, s: int)
    requires ValidGamma2(gamma2) && 0 <= w1 <= MaxHigh(gamma2)
    requires -2 * gamma2 < s < 2 * gamma2
    ensures var d := SplitRef(gamma2, (w1 * 2 * gamma2 + s) % Q);
      && (MakeHint(gamma2, s % Q, w1) == 0 ==> d.1 == w1)
      && (MakeHint(gamma2, s % Q, w1) != 0 ==> Step(gamma2, d.1, d.0 > 0) == w1)
  {
    HintOfCentered(gamma2, s, w1);
    StepInverse(gamma2, w1);
    if -gamma2 < s <= gamma2 || (s == -gamma2 && w1 == 0) {
      SplitCentered(gamma2, w1, s);
    } else if s > gamma2 {
      SplitAbove(gamma2, w1, s);
    } else {
      SplitBelow(gamma2, w1, s);
    }
  }

  /** The verifier's coefficient w is the signer's high part w1, in range,
      shifted by a centered correction |s| < 2 * gamma2, modulo Q. */
  predicate Corrected(gamma2: int, w1: int, s: int, w: int) {
    0 <= w1 <= MaxHigh(gamma2) && -2 * gamma2 < s < 2 * gamma2 && w == (w1 * 2 * gamma2 + s) % Q
  }

  /** With the hint makeHint computes from the residue of the correction,
      useHint returns the signer's high part. */
  lemma HintRecovers(gamma2: int, w1: int, s: int, w: int, h: int)
    requires ValidGamma2(gamma2) && Corrected(gamma2, w1, s, w) && h == MakeHint(gamma2, s % Q, w1)
    ensures UseHintCoef(gamma2, w, h) == Success(w1)
  {
    HintRecoversRef(gamma2, w1, s);
  }

  // ---------------------------------------------------------------------
  // Polynomials and vectors

  /** The sum of the values of s. */
  function Sum(s: seq<int>): int {
    if |s| == 0 then 0 else s[0] + Sum(s[1..])
  }

  /** The positions i <= j < N where p is nonzero, in increasing order: the
      list the signature's hint section stores for p. */
  function Positions(p: Poly, i: nat): (r: seq<int>)
    requires i <= N
    ensures |r| <= N - i
    decreases N - i
  {
    if i == N then []
    else if p[i] != 0 then [i] + Positions(p, i + 1)
    else Positions(p, i + 1)
  }

  /** The list holds exactly the nonzero positions from i on, increasing. */
  lemma {:induction false} PositionsFacts(p: Poly, i: nat)
    requires i <= N
    ensures forall k :: 0 <= k < |Positions(p, i)| ==> i <= Positions(p, i)[k] < N
    ensures forall k, l :: 0 <= k < l < |Positions(p, i)| ==> Positions(p, i)[k] < Positions(p, i)[l]
    ensures forall j :: j in Positions(p, i) <==> i <= j < N && p[j] != 0
    decreases N - i
  {
    if i < N {
      PositionsFacts(p, i + 1);
    }
  }

  /** For a polynomial of 0/1 flags, the sum of the flags from i on is the
      number of set positions from i on. */
  lemma {:induction false} SumCountsOnes(p: Poly, i: nat)
    requires i <= N && Within(p, 0, 1)
    ensures Sum(p[i..]) == |Positions(p, i)|
    decreases N - i
  {
    if i < N {
      assert p[i..][1..] == p[i + 1..];
      SumCountsOnes(p, i + 1);
    }
  }

  /** A hint polynomial and its number of set flags. */
  datatype Hint = Hint(v: Poly, cnt: int)

  /** `polyMakeHint(gamma2, a, b)`: the flag of every coefficient and their
      sum, which is the number of set flags. */
  function PolyMakeHint(gamma2: int, a: Poly, b: Poly): (h: Hint)
    ensures forall i :: 0 <= i < N ==> h.v[i] == MakeHint(gamma2, a[i], b[i])
    ensures Within(h.v, 0, 1)
    ensures h.cnt == |Positions(h.v, 0)| && 0 <= h.cnt <= N
  {
    var v: Poly := seq(N, i requires 0 <= i < N => MakeHint(gamma2, a[i], b[i]));
    SumCountsOnes(v, 0);
    assert v[0..] == v;
    Hint(v, Sum(v))
  }

  /** The total number of set flags in a vector of hint polynomials. */
  function Ones(hs: seq<Poly>): (n: int)
    ensures n >= 0
  {
    if |hs| == 0 then 0 else |Positions(hs[0], 0)| + Ones(hs[1..])
  }

  /** Hint polynomials of a vector and the total count. */
  datatype Hints = Hints(v: seq<Poly>, cnt: int)

  /** `makeHints(gamma2, v0, v1)`: one hint polynomial per entry of v0, and
      the total number of set flags. */
  function MakeHints(gamma2: int, v0: seq<Poly>, v1: seq<Poly>): (hs: Hints)
    requires |v1| >= |v0|
    ensures |hs.v| == |v0|
    ensures forall i, j :: 0 <= i < |v0| && 0 <= j < N ==> hs.v[i][j] == MakeHint(gamma2, v0[i][j], v1[i][j])
    ensures hs.cnt == Ones(hs.v)
    decreases |v0|
  {
    if |v0| == 0 then Hints([], 0)
    else
      var h := PolyMakeHint(gamma2, v0[0], v1[0]);
      var rest := MakeHints(gamma2, v0[1..], v1[1..]);
      assert ([h.v] + rest.v)[1..] == rest.v;
      Hints([h.v] + rest.v, h.cnt + rest.cnt)
  }

  /** `polyUseHint(gamma2, u, h)`: useHint on every coefficient. */
  function PolyUseHint(gamma2: int, u: Poly, h: Poly): (r: Result<Poly>)
    ensures r.Failure? <==> !ValidGamma2(gamma2)
    ensures r.Failure? ==> r.error == InvalidGamma2(gamma2)
    ensures r.Success? ==> forall i :: 0 <= i < N ==> Success(r.value[i]) == UseHintCoef(gamma2, u[i], h[i])
  {
    if !ValidGamma2(gamma2) then Failure(InvalidGamma2(gamma2))
    else Success(seq(N, i requires 0 <= i < N => UseHintCoef(gamma2, u[i], h[i]).value))
  }

  /** `useHints(gamma2, u, h)`: polyUseHint on every entry of u. The error
      for an unsupported gamma2 surfaces only when u is not empty, as the
      source's loop body is where it throws. */
  function UseHints(gamma2: int, u: seq<Poly>, h: seq<Poly>): (r: Result<seq<Poly>>)
    requires |h| >= |u|
    ensures r.Failure? <==> !ValidGamma2(gamma2) && |u| > 0
    ensures r.Failure? ==> r.error == InvalidGamma2(gamma2)
    ensures r.Success? ==> |r.value| == |u|
    ensures r.Success? ==> forall i :: 0 <= i < |u| ==> Success(r.value[i]) == PolyUseHint(gamma2, u[i], h[i])
  {
    if |u| == 0 then Success([])
    else if !ValidGamma2(gamma2) then Failure(InvalidGamma2(gamma2))
    else Success(seq(|u|, i requires 0 <= i < |u| => PolyUseHint(gamma2, u[i], h[i]).value))
  }

  /** Recovery for one polynomial: every coefficient of the verifier's
      polynomial w is w1 * 2 * gamma2 + s modulo Q, and h holds the flags
      makeHint computes from the residues of s. */
  lemma PolyHintRecovers(gamma2: int, w1: Poly, s: Poly, w: Poly, h: Poly)
    requires ValidGamma2(gamma2)
    requires forall j :: 0 <= j < N ==> Corrected(gamma2, w1[j], s[j], w[j]) && h[j] == MakeHint(gamma2, s[j] % Q, w1[j])
    ensures PolyUseHint(gamma2, w, h) == Success(w1)
  {
    var p := PolyUseHint(gamma2, w, h).value;
    forall j | 0 <= j < N
      ensures p[j] == w1[j]
    {
      HintRecovers(gamma2, w1[j], s[j], w[j], h[j]);
    }
    assert p == w1;
  }

  /** Recovery lifted to vectors: when every coefficient of the verifier's
      vector is w1 * 2 * gamma2 + s modulo Q with the signer's high part w1
      and a centered correction |s| < 2 * gamma2, using the signer's hints
      gives back w1. */
  lemma HintsRecover(gamma2: int, w1: seq<Poly>, s: seq<Poly>, w: seq<Poly>)
    requires ValidGamma2(gamma2) && |s| == |w1| && |w| == |w1|
    requires forall i, j :: 0 <= i < |w1| && 0 <= j < N ==> Corrected(gamma2, w1[i][j], s[i][j], w[i][j])
    ensures UseHints(gamma2, w, MakeHints(gamma2, Residues(s), w1).v) == Success(w1)
  {
    var rs := Residues(s);
    var hs := MakeHints(gamma2, rs, w1).v;
    var r := UseHints(gamma2, w, hs);
    assert r.Success?;
    forall i | 0 <= i < |w1|
      ensures r.value[i] == w1[i]
    {
      HintFlags(gamma2, s, w1, i);
      PolyHintRecovers(gamma2, w1[i], s[i], w[i], hs[i]);
      assert Success(r.value[i]) == PolyUseHint(gamma2, w[i], hs[i]);
    }
    assert r.value == w1;
  }

  /** Entry i of the signer's hints flags the residues of entry i of s. */
  lemma HintFlags(gamma2: int, s: seq<Poly>, w1: seq<Poly>, i: int)
    requires |w1| >= |s| && 0 <= i < |s|
    ensures forall j :: 0 <= j < N ==>
      MakeHints(gamma2, Residues(s), w1).v[i][j] == MakeHint(gamma2, s[i][j] % Q, w1[i][j])
  {
    assert Residues(s)[i] == ResiduesOf(s[i]);
  }

  /** Every coefficient reduced to its residue in [0, Q), as caddq leaves
      the corrected low parts before makeHints. */
  function Residues(s: seq<Poly>): (r: seq<Poly>)
    ensures |r| == |s|
    ensures forall i :: 0 <= i < |s| ==> r[i] == ResiduesOf(s[i])
  {
    seq(|s|, i requires 0 <= i < |s| => ResiduesOf(s[i]))
  }

  /** The residues in [0, Q) of the coefficients of one polynomial. */
  function ResiduesOf(p: Poly): (r: Poly)
    ensures forall j :: 0 <= j < N ==> r[j] == p[j] % Q && 0 <= r[j] < Q
  {
    seq(N, j requires 0 <= j < N => p[j] % Q)
  }
}
