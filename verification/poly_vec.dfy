/** The vector layer of src/poly-vec.ts: vectors and matrices of
    polynomials, the nonce schemes that sample them, the componentwise
    lifts of the polynomial operations and the matrix-vector product in
    the NTT domain. The samplers and the NTT are parameters: `gen` stands
    for `genRandom`, `genRandomGamma1` or `genUniformRandom` with its seed
    fixed, and `f` for whichever polynomial operation a lift applies. */
module PolyVec {
  import opened JsNumber
  import opened Params
  import opened Outcomes
  import opened Polynomial
  import opened Sampling

  type Vec = seq<Poly>
  type Matrix = seq<Vec>

  // ---------------------------------------------------------------------
  // Sampling vectors and the matrix

  /** `randomVec(rho, eta, length, nonce)`: polynomial i is sampled with
      nonce + i, the nonce being incremented after each polynomial. */
  method RandomVec(gen: int -> Poly, length: nat, nonce: int) returns (v: Vec)
    ensures |v| == length
    ensures forall i :: 0 <= i < length ==> v[i] == gen(nonce + i)
  {
    v := [];
    var n := nonce;
    var i := 0;
    while i < length
      invariant i <= length && |v| == i && n == nonce + i
      invariant forall j :: 0 <= j < i ==> v[j] == gen(nonce + j)
    {
      v := v + [gen(n)];
      n := n + 1;
      i := i + 1;
    }
  }

  /** `randomVecGamma1(seed, length, gamma1, nonce)`: polynomial i is
      sampled with length * nonce + i. */
  method RandomVecGamma1(gen: int -> Poly, length: nat, nonce: int) returns (v: Vec)
    ensures |v| == length
    ensures forall i :: 0 <= i < length ==> v[i] == gen(length * nonce + i)
  {
    v := [];
    var i := 0;
    while i < length
      invariant i <= length && |v| == i
      invariant forall j :: 0 <= j < i ==> v[j] == gen(length * nonce + j)
    {
      v := v + [gen(length * nonce + i)];
      i := i + 1;
    }
  }

  /** The signing attempts κ and κ' != κ draw their masking vectors from
      disjoint nonce ranges [l * κ, l * κ + l). */
  lemma AttemptNoncesDisjoint(l: int, kappa: int, kappa': int, i: int, j: int)
    requires 0 <= i < l && 0 <= j < l && kappa != kappa'
    ensures l * kappa + i != l * kappa' + j
  {
    if l * kappa + i == l * kappa' + j {
      DivModUnique(l * kappa + i, l, kappa, i);
      DivModUnique(l * kappa' + j, l, kappa', j);
    }
  }

  /** The nonce of matrix cell (i, j): `(i << 8) + j`. */
  function CellNonce(i: int, j: int): int {
    Shl(i, 8) + j
  }

  lemma CellNonceValue(i: int, j: int)
    requires 0 <= i < 0x80_0000
    ensures CellNonce(i, j) == 256 * i + j
  {
    ShlExact(i, 8);
  }

  /** `expandA(rho, k, l)`: k rows of l polynomials, cell (i, j) sampled
      with nonce `(i << 8) + j`, which is 256 * i + j for every row index
      below 2^23 (`CellNonceValue`). */
  method ExpandA(gen: int -> Poly, k: nat, l: nat) returns (a: Matrix)
    ensures |a| == k
    ensures forall i :: 0 <= i < k ==> |a[i]| == l
    ensures forall i, j :: 0 <= i < k && 0 <= j < l ==> a[i][j] == gen(CellNonce(i, j))
  {
    a := [];
    var i := 0;
    while i < k
      invariant i <= k && |a| == i
      invariant forall r :: 0 <= r < i ==> |a[r]| == l
      invariant forall r, j :: 0 <= r < i && 0 <= j < l ==> a[r][j] == gen(CellNonce(r, j))
    {
      var row: Vec := [];
      var j := 0;
      while j < l
        invariant j <= l && |row| == j
        invariant forall c :: 0 <= c < j ==> row[c] == gen(CellNonce(i, c))
      {
        row := row + [gen(CellNonce(i, j))];
        j := j + 1;
      }
      a := a + [row];
      i := i + 1;
    }
  }

  /** With at most 256 columns, distinct cells get distinct nonces, and
      a cell's nonce is absorbed as the two bytes j, i. */
  lemma CellNonces(i: int, j: int, i': int, j': int)
    requires 0 <= i < 256 && 0 <= j < 256 && 0 <= i' < 256 && 0 <= j' < 256
    ensures (i, j) != (i', j') ==> 256 * i + j != 256 * i' + j'
    ensures NonceBytes(256 * i + j) == [j, i]
  {
    DivModUnique(256 * i + j, 256, i, j);
    DivModUnique(256 * i' + j', 256, i', j');
    NonceBytesValue(256 * i + j);
    DivModUnique(i, 256, 0, i);
  }

  // ---------------------------------------------------------------------
  // Componentwise lifts

  /** The loop shared by `ntt`, `shift` and `pointwiseMontgomery(u)`, which
      return a fresh vector, and by `reduce`, `invnttTomont` and `caddq`,
      which overwrite each entry in place: f applied to every entry. */
  method Componentwise(f: Poly -> Poly, v: Vec) returns (r: Vec)
    ensures |r| == |v|
    ensures forall i :: 0 <= i < |v| ==> r[i] == f(v[i])
  {
    r := [];
    var i := 0;
    while i < |v|
      invariant i <= |v| && |r| == i
      invariant forall j :: 0 <= j < i ==> r[j] == f(v[j])
    {
      r := r + [f(v[i])];
      i := i + 1;
    }
  }

  /** The loop of `add` and `sub` (f is `Polynomial.Add` or
      `Polynomial.Sub`): entry i is f(u[i], other[i]), and stays null when
      other has no entry i. */
  method Pairwise(f: (Poly, Poly) -> Poly, u: Vec, other: seq<Option<Poly>>) returns (r: seq<Option<Poly>>)
    ensures |r| == |u|
    ensures forall i :: 0 <= i < |u| && i < |other| && other[i].Some? ==> r[i] == Some(f(u[i], other[i].value))
    ensures forall i :: 0 <= i < |u| && (i >= |other| || other[i].None?) ==> r[i].None?
  {
    r := [];
    var i := 0;
    while i < |u|
      invariant i <= |u| && |r| == i
      invariant forall j :: 0 <= j < i && j < |other| && other[j].Some? ==> r[j] == Some(f(u[j], other[j].value))
      invariant forall j :: 0 <= j < i && (j >= |other| || other[j].None?) ==> r[j].None?
    {
      if i >= |other| || other[i].None? {
        r := r + [None];
      } else {
        r := r + [Some(f(u[i], other[i].value))];
      }
      i := i + 1;
    }
  }

  /** A full vector as the nullable array the source holds. */
  function Somes(v: Vec): (r: seq<Option<Poly>>)
    ensures |r| == |v| && forall i :: 0 <= i < |v| ==> r[i] == Some(v[i])
  {
    seq(|v|, i requires 0 <= i < |v| => Some(v[i]))
  }

  /** The entries of an array with no null left in it. */
  function Values(o: seq<Option<Poly>>): (v: Vec)
    requires forall i :: 0 <= i < |o| ==> o[i].Some?
    ensures |v| == |o| && forall i :: 0 <= i < |o| ==> v[i] == o[i].value
  {
    seq(|o|, i requires 0 <= i < |o| => o[i].value)
  }

  /** `decompose(gamma2)` on a vector: the low and high parts of every
      entry. An empty vector never reaches the polynomial decompose, so it
      succeeds for every gamma2; otherwise a bad gamma2 throws. */
  method VecDecompose(gamma2: int, v: Vec) returns (r: Result<(Vec, Vec)>)
    ensures r.Failure? <==> |v| > 0 && !ValidGamma2(gamma2)
    ensures r.Failure? ==> r.error == InvalidGamma2(gamma2)
    ensures r.Success? ==> |r.value.0| == |v| && |r.value.1| == |v|
    ensures r.Success? ==> forall i :: 0 <= i < |v| ==> Decompose(gamma2, v[i]) == Success((r.value.0[i], r.value.1[i]))
  {
    var lo: Vec := [];
    var hi: Vec := [];
    var i := 0;
    while i < |v|
      invariant i <= |v| && |lo| == i && |hi| == i
      invariant i > 0 ==> ValidGamma2(gamma2)
      invariant forall j :: 0 <= j < i ==> Decompose(gamma2, v[j]) == Success((lo[j], hi[j]))
    {
      var d := Decompose(gamma2, v[i]);
      if d.Failure? {
        return Failure(d.error);
      }
      lo := lo + [d.value.0];
      hi := hi + [d.value.1];
      i := i + 1;
    }
    return Success((lo, hi));
  }

  /** On a vector whose coefficients lie in [0, Q), the parts satisfy the
      bounds and the recombination of decompose entry by entry. */
  lemma VecDecomposeBounds(gamma2: int, v: Vec, lo: Vec, hi: Vec)
    requires ValidGamma2(gamma2) && |lo| == |v| && |hi| == |v|
    requires forall i :: 0 <= i < |v| ==> Decompose(gamma2, v[i]) == Success((lo[i], hi[i]))
    ensures forall i, c :: 0 <= i < |v| && 0 <= c < N && 0 <= v[i][c] < Q ==>
      && 0 <= hi[i][c] <= MaxHigh(gamma2)
      && -gamma2 <= lo[i][c] <= gamma2
      && (hi[i][c] * 2 * gamma2 + lo[i][c] - v[i][c]) % Q == 0
  {
    forall i | 0 <= i < |v|
      ensures forall c :: 0 <= c < N && 0 <= v[i][c] < Q ==>
        && 0 <= hi[i][c] <= MaxHigh(gamma2)
        && -gamma2 <= lo[i][c] <= gamma2
        && (hi[i][c] * 2 * gamma2 + lo[i][c] - v[i][c]) % Q == 0
    {
      DecomposeBounds(gamma2, v[i]);
    }
  }

  /** `powerRound()` on a vector: the pair (t0, t1) of every entry. */
  method VecPowerRound(v: Vec) returns (t0: Vec, t1: Vec)
    ensures |t0| == |v| && |t1| == |v|
    ensures forall i :: 0 <= i < |v| ==> t0[i] == PowerRound(v[i]).0 && t1[i] == PowerRound(v[i]).1
    ensures forall i, c :: 0 <= i < |v| && 0 <= c < N && 0 <= v[i][c] < Q ==>
      && v[i][c] == t1[i][c] * 8192 + t0[i][c]
      && -4096 < t0[i][c] <= 4096
      && 0 <= t1[i][c] <= 1023
  {
    t0 := [];
    t1 := [];
    var i := 0;
    while i < |v|
      invariant i <= |v| && |t0| == i && |t1| == i
      invariant forall j :: 0 <= j < i ==> (t0[j], t1[j]) == PowerRound(v[j])
    {
      var r := PowerRound(v[i]);
      t0 := t0 + [r.0];
      t1 := t1 + [r.1];
      i := i + 1;
    }
    forall j | 0 <= j < |v|
      ensures forall c :: 0 <= c < N && 0 <= v[j][c] < Q ==>
        && v[j][c] == t1[j][c] * 8192 + t0[j][c]
        && -4096 < t0[j][c] <= 4096
        && 0 <= t1[j][c] <= 1023
    {
      assert (t0[j], t1[j]) == PowerRound(v[j]);
    }
  }

  /** The loop of `chknorm(bound)` on a vector, with `check` standing for
      the polynomial `chknorm(bound)`: true as soon as some entry's check is. */
  method VecChkNorm(check: Poly -> bool, v: Vec) returns (r: bool)
    ensures r <==> exists i :: 0 <= i < |v| && check(v[i])
  {
    var i := 0;
    while i < |v|
      invariant i <= |v|
      invariant forall j :: 0 <= j < i ==> !check(v[j])
    {
      if check(v[i]) {
        return true;
      }
      i := i + 1;
    }
    return false;
  }

  // ---------------------------------------------------------------------
  // Matrix times vector

  /** The left fold of add over the products mul(u[j], v[j]) of the first
      n entries. */
  function AccRef(mul: (Poly, Poly) -> Poly, add: (Poly, Poly) -> Poly, u: Vec, v: Vec, n: nat): Poly
    requires 1 <= n <= |v| && n <= |u|
  {
    if n == 1 then mul(u[0], v[0])
    else add(AccRef(mul, add, u, v, n - 1), mul(u[n - 1], v[n - 1]))
  }

  /** `pointwiseAccMontgomery(u, v)`, with mul for the polynomial
      `pointwiseMontgomery` and add for `add`: the product of entry 0, then
      each further product added in turn. */
  method PointwiseAcc(mul: (Poly, Poly) -> Poly, add: (Poly, Poly) -> Poly, u: Vec, v: Vec) returns (w: Poly)
    requires 1 <= |v| <= |u|
    ensures w == AccRef(mul, add, u, v, |v|)
  {
    w := mul(u[0], v[0]);
    var i := 1;
    while i < |v|
      invariant 1 <= i <= |v| && w == AccRef(mul, add, u, v, i)
    {
      var t := mul(u[i], v[i]);
      w := add(w, t);
      i := i + 1;
    }
  }

  /** `mulMatrixPointwiseMontgomery(M)` on v: one accumulated Montgomery
      product per row. */
  method MulMatrix(m: Matrix, v: Vec) returns (r: Vec)
    requires 1 <= |v| && forall i :: 0 <= i < |m| ==> |v| <= |m[i]|
    ensures |r| == |m|
    ensures forall i :: 0 <= i < |m| ==> r[i] == AccRef(PointwiseMontgomery, Add, m[i], v, |v|)
  {
    r := [];
    var i := 0;
    while i < |m|
      invariant i <= |m| && |r| == i
      invariant forall j :: 0 <= j < i ==> r[j] == AccRef(PointwiseMontgomery, Add, m[j], v, |v|)
    {
      var w := PointwiseAcc(PointwiseMontgomery, Add, m[i], v);
      r := r + [w];
      i := i + 1;
    }
  }

  /** The product of coefficient c of entry j. */
  function Prod(u: Vec, v: Vec, j: nat, c: int): int
    requires j < |u| && j < |v| && 0 <= c < N
  {
    u[j][c] * v[j][c]
  }

  /** The sum of the products of coefficient c over the first n entries. */
  function Dot(u: Vec, v: Vec, n: nat, c: int): int
    requires n <= |u| && n <= |v| && 0 <= c < N
  {
    if n == 0 then 0 else Dot(u, v, n - 1, c) + Prod(u, v, n - 1, c)
  }

  /** Every product of coefficient c among the first n entries is in the
      range where Montgomery reduction is exact modulo Q. */
  predicate Reducible(u: Vec, v: Vec, n: nat, c: int)
    requires n <= |u| && n <= |v| && 0 <= c < N
  {
    forall j :: 0 <= j < n ==> -TWO31 * Q < Prod(u, v, j, c) < TWO31 * Q
  }

  /** mul reduces the product of coefficient c modulo Q by 2^32 (as
      `pointwiseMontgomery` does, by `MontgomeryCoefs`) whenever the product
      is in Montgomery range. */
  ghost predicate MulCongruent(mul: (Poly, Poly) -> Poly, c: int)
    requires 0 <= c < N
  {
    forall a: Poly, b: Poly :: -TWO31 * Q < a[c] * b[c] < TWO31 * Q ==>
      -Q < mul(a, b)[c] < Q && (mul(a, b)[c] * TWO32 - a[c] * b[c]) % Q == 0
  }

  /** add adds coefficient c modulo Q into (-Q, Q) (as `add` does, by
      `AddCoefs`). */
  ghost predicate AddCongruent(add: (Poly, Poly) -> Poly, c: int)
    requires 0 <= c < N
  {
    forall a: Poly, b: Poly :: -Q < add(a, b)[c] < Q && (a[c] + b[c] - add(a, b)[c]) % Q == 0
  }

  /** The accumulation step on one coefficient, modulo Q: if w' * 2^32 is
      congruent to d, t * 2^32 to p, and w to w' + t, then w * 2^32 is
      congruent to d + p. */
  lemma StepCongruent(w': int, t: int, w: int, d: int, p: int)
    requires (w' * TWO32 - d) % Q == 0 && (t * TWO32 - p) % Q == 0 && (w' + t - w) % Q == 0
    ensures (w * TWO32 - (d + p)) % Q == 0
  {
    var x, y, z := w' * TWO32 - d, t * TWO32 - p, w' + t - w;
    MultipleMod(Q, x / Q + y / Q - (z / Q) * TWO32);
    assert Q * (x / Q + y / Q - (z / Q) * TWO32) == x + y - z * TWO32;
  }

  /** For any mul and add that are congruences modulo Q on coefficient c,
      coefficient c of the accumulated product, times 2^32, is the dot
      product of coefficient c modulo Q, and it stays in (-Q, Q). */
  lemma {:induction false} AccCongruentFrom(mul: (Poly, Poly) -> Poly, add: (Poly, Poly) -> Poly, u: Vec, v: Vec, n: nat, c: int)
    requires 1 <= n <= |v| && n <= |u| && 0 <= c < N
    requires MulCongruent(mul, c) && AddCongruent(add, c) && Reducible(u, v, n, c)
    ensures (AccRef(mul, add, u, v, n)[c] * TWO32 - Dot(u, v, n, c)) % Q == 0
    ensures -Q < AccRef(mul, add, u, v, n)[c] < Q
  {
    var t := mul(u[n - 1], v[n - 1]);
    if n > 1 {
      var w' := AccRef(mul, add, u, v, n - 1);
      AccCongruentFrom(mul, add, u, v, n - 1, c);
      StepCongruent(w'[c], t[c], add(w', t)[c], Dot(u, v, n - 1, c), Prod(u, v, n - 1, c));
    }
  }

  /** `pointwiseMontgomery` and `add` are such a mul and add. */
  lemma MontgomeryAdd(c: int)
    requires 0 <= c < N
    ensures MulCongruent(PointwiseMontgomery, c) && AddCongruent(Add, c)
  {
    forall a: Poly, b: Poly | -TWO31 * Q < a[c] * b[c] < TWO31 * Q
      ensures -Q < PointwiseMontgomery(a, b)[c] < Q
      ensures (PointwiseMontgomery(a, b)[c] * TWO32 - a[c] * b[c]) % Q == 0
    {
      MontgomeryCoefs(a, b);
    }
    forall a: Poly, b: Poly
      ensures -Q < Add(a, b)[c] < Q && (a[c] + b[c] - Add(a, b)[c]) % Q == 0
    {
      AddCoefs(a, b);
    }
  }

  /** Coefficient c of row i of `mulMatrixPointwiseMontgomery`, times 2^32,
      is the dot product of coefficient c of the row with v modulo Q, and it
      stays in (-Q, Q), whenever every coefficient product is in range. */
  lemma AccCongruent(u: Vec, v: Vec, n: nat, c: int)
    requires 1 <= n <= |v| && n <= |u| && 0 <= c < N
    requires Reducible(u, v, n, c)
    ensures (AccRef(PointwiseMontgomery, Add, u, v, n)[c] * TWO32 - Dot(u, v, n, c)) % Q == 0
    ensures -Q < AccRef(PointwiseMontgomery, Add, u, v, n)[c] < Q
  {
    MontgomeryAdd(c);
    AccCongruentFrom(PointwiseMontgomery, Add, u, v, n, c);
  }
}
