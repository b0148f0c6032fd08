/** The hint section of a signature: the last omega + k bytes, written by
    `packSig` (src/util.ts) and read back by `verify` (src/signature.ts).
    Bytes [0, omega) list the positions of the nonzero hint coefficients,
    polynomial after polynomial, each list increasing; byte omega + i is
    the running count after polynomial i; unused position bytes are 0.
    `verify` accepts only this canonical form.

    The section is modelled as a buffer of its own. Where the source
    stores a position past the end of the section (more than omega
    nonzero hints), the store is dropped here; `packSig` is only called
    after the signer has checked the count against omega. */
module HintCodec {
  import opened JsNumber
  import opened BitFields
  import opened Blocks
  import opened Outcomes
  import opened Params
  import opened Polynomial
  import opened Hints

  // ---------------------------------------------------------------------
  // The canonical encoding

  /** The position lists of the first i polynomials, one after the other. */
  function Idx(h: seq<Poly>, i: nat): seq<int>
    requires i <= |h|
  {
    if i == 0 then [] else Idx(h, i - 1) + Before(h[i - 1], N)
  }

  /** The positions below j where p is nonzero, in increasing order; with
      j = N, the list the section stores for p (`Hints.Positions`). */
  function Before(p: Poly, j: nat): seq<int>
    requires j <= N
  {
    if j == 0 then [] else Before(p, j - 1) + (if p[j - 1] != 0 then [j - 1] else [])
  }

  lemma {:induction false} BeforeFacts(p: Poly, j: nat)
    requires j <= N
    ensures forall t :: 0 <= t < |Before(p, j)| ==> 0 <= Before(p, j)[t] < j
    ensures forall c :: c in Before(p, j) <==> 0 <= c < j && p[c] != 0
  {
    if j > 0 {
      BeforeFacts(p, j - 1);
    }
  }

  lemma {:induction false} BeforeSorted(p: Poly, j: nat)
    requires j <= N
    ensures forall t :: 0 < t < |Before(p, j)| ==> Before(p, j)[t - 1] < Before(p, j)[t]
  {
    if j > 0 {
      BeforeSorted(p, j - 1);
      BeforeFacts(p, j - 1);
    }
  }

  lemma {:induction false} IdxRange(h: seq<Poly>, i: nat)
    requires i <= |h|
    ensures forall t :: 0 <= t < |Idx(h, i)| ==> 0 <= Idx(h, i)[t] < N
  {
    if i > 0 {
      IdxRange(h, i - 1);
      BeforeFacts(h[i - 1], N);
    }
  }

  /** The number of nonzero coefficients in the first i polynomials. */
  function Cum(h: seq<Poly>, i: nat): nat
    requires i <= |h|
  {
    |Idx(h, i)|
  }

  /** Every polynomial holds 0/1 flags. */
  predicate Flags(h: seq<Poly>) {
    forall i :: 0 <= i < |h| ==> Within(h[i], 0, 1)
  }

  /** The section `packSig` writes for h when h has at most omega nonzero
      coefficients: positions, zero padding, then markers `k & 0xFF`. */
  function HintBytes(omega: nat, h: seq<Poly>): (r: seq<Byte>)
    requires Cum(h, |h|) <= omega
    ensures |r| == omega + |h|
  {
    var idx := Idx(h, |h|);
    IdxRange(h, |h|);
    seq<Byte>(omega + |h|, t requires 0 <= t < omega + |h| =>
      if t < |idx| then idx[t] else if t < omega then 0 else Cum(h, t - omega + 1) % 256)
  }

  // ---------------------------------------------------------------------
  // What the decoder accepts

  /** The running count before polynomial i: 0, or the previous marker. */
  function Prev(omega: nat, region: seq<Byte>, i: nat): int
    requires omega + i <= |region|
  {
    if i == 0 then 0 else region[omega + i - 1]
  }

  /** Markers never decrease and never pass omega. */
  predicate MarkersOk(omega: nat, k: nat, region: seq<Byte>)
    requires |region| == omega + k
  {
    forall i :: 0 <= i < k ==> Prev(omega, region, i) <= region[omega + i] <= omega
  }

  /** Position j is above position j - 1. */
  predicate Ascends(region: seq<Byte>, j: int)
    requires 0 < j < |region|
  {
    region[j - 1] < region[j]
  }

  /** Positions strictly increase within each polynomial's list. */
  predicate Increasing(omega: nat, k: nat, region: seq<Byte>)
    requires |region| == omega + k && MarkersOk(omega, k, region)
  {
    forall i, j :: 0 <= i < k && Prev(omega, region, i) < j < region[omega + i] ==> Ascends(region, j)
  }

  /** Every position byte past the last marker is zero. */
  predicate TrailingZeros(omega: nat, k: nat, region: seq<Byte>)
    requires |region| == omega + k && MarkersOk(omega, k, region)
  {
    forall j :: Prev(omega, region, k) <= j < omega ==> region[j] == 0
  }

  /** The canonical form `verify` accepts. */
  predicate Canonical(omega: nat, k: nat, region: seq<Byte>)
    requires |region| == omega + k
  {
    MarkersOk(omega, k, region) && Increasing(omega, k, region) && TrailingZeros(omega, k, region)
  }

  /** The polynomial whose coefficients listed in region[lo..hi] are 1. */
  function Group(region: seq<Byte>, lo: int, hi: int): (p: Poly)
    requires 0 <= lo <= hi <= |region|
    ensures forall c :: 0 <= c < N ==> p[c] == if c in region[lo..hi] then 1 else 0
  {
    seq(N, c => if c in region[lo..hi] then 1 else 0)
  }

  /** The hint polynomials a well-formed section lists. */
  function HintsOf(omega: nat, k: nat, region: seq<Byte>): (h: seq<Poly>)
    requires |region| == omega + k && MarkersOk(omega, k, region)
    ensures |h| == k
  {
    seq(k, i requires 0 <= i < k => Group(region, Prev(omega, region, i), region[omega + i]))
  }

  // ---------------------------------------------------------------------
  // The decoder of `verify`

  predicate MarkersBelow(omega: nat, k: nat, region: seq<Byte>, n: nat)
    requires |region| == omega + k && n <= k
  {
    forall i :: 0 <= i < n ==> Prev(omega, region, i) <= region[omega + i] <= omega
  }

  predicate IncreasingBelow(omega: nat, k: nat, region: seq<Byte>, n: nat)
    requires |region| == omega + k && n <= k && MarkersBelow(omega, k, region, n)
  {
    forall i, j :: 0 <= i < n && Prev(omega, region, i) < j < region[omega + i] ==> Ascends(region, j)
  }

  /** A list that does not increase rules the section out. */
  lemma Unordered(omega: nat, k: nat, region: seq<Byte>, i: nat)
    requires |region| == omega + k && i < k && Prev(omega, region, i) <= region[omega + i] <= omega
    requires !(forall j :: Prev(omega, region, i) < j < region[omega + i] ==> Ascends(region, j))
    ensures !Canonical(omega, k, region)
  {
    var j :| Prev(omega, region, i) < j < region[omega + i] && !Ascends(region, j);
  }

  /** The inner loop of `verify` for one polynomial: the positions in
      region[lo..hi] must strictly increase; they are set to 1. */
  method DecodeList(region: seq<Byte>, lo: int, hi: int) returns (ok: bool, p: Poly)
    requires 0 <= lo <= hi <= |region|
    ensures ok <==> forall j :: lo < j < hi ==> Ascends(region, j)
    ensures ok ==> p == Group(region, lo, hi)
  {
    p := Zero;
    assert p == Group(region, lo, lo);
    var j := lo;
    while j < hi
      invariant lo <= j <= hi && p == Group(region, lo, j)
      invariant forall j' :: lo < j' < j ==> Ascends(region, j')
    {
      if j > lo && Rd(region[j]) <= Rd(region[j - 1]) {
        assert !Ascends(region, j);
        return false, p;
      }
      assert region[lo..j + 1] == region[lo..j] + [region[j]];
      p := p[Rd(region[j]) := 1];
      j := j + 1;
    }
    return true, p;
  }

  /** The hint loop of `verify` on the section: false (None) at the first
      marker out of order or past omega, the first position not above its
      predecessor, or the first nonzero unused byte; otherwise the hints. */
  method DecodeHints(omega: nat, k: nat, region: seq<Byte>) returns (r: Option<seq<Poly>>)
    requires |region| == omega + k
    ensures r.Some? <==> Canonical(omega, k, region)
    ensures r.Some? ==> r.value == HintsOf(omega, k, region)
  {
    var h: seq<Poly> := [];
    var kk := 0;
    var i := 0;
    while i < k
      invariant i <= k && |h| == i && kk == Prev(omega, region, i)
      invariant MarkersBelow(omega, k, region, i) && IncreasingBelow(omega, k, region, i)
      invariant forall i' :: 0 <= i' < i ==> h[i'] == Group(region, Prev(omega, region, i'), region[omega + i'])
    {
      var m := Rd(region[omega + i]);
      if m < kk || m > omega {
        return None;
      }
      var ok, p := DecodeList(region, kk, m);
      if !ok {
        Unordered(omega, k, region, i);
        return None;
      }
      h := h + [p];
      kk := m;
      i := i + 1;
    }
    var j := kk;
    while j < omega
      invariant kk <= j && (j <= omega || j == kk)
      invariant forall j' :: kk <= j' < j ==> region[j'] == 0
    {
      if region[j] != 0 {
        Untrailing(omega, k, region, j);
        return None;
      }
      j := j + 1;
    }
    Accepted(omega, k, region, h);
    return Some(h);
  }

  /** A nonzero byte past the last marker rules the section out. */
  lemma Untrailing(omega: nat, k: nat, region: seq<Byte>, j: int)
    requires |region| == omega + k && MarkersBelow(omega, k, region, k)
    requires Prev(omega, region, k) <= j < omega && region[j] != 0
    ensures !Canonical(omega, k, region)
  {
  }

  /** A section that passes every check of the loop is canonical, and the
      loop has collected its hints. */
  lemma Accepted(omega: nat, k: nat, region: seq<Byte>, h: seq<Poly>)
    requires |region| == omega + k && MarkersBelow(omega, k, region, k) && IncreasingBelow(omega, k, region, k)
    requires forall j :: Prev(omega, region, k) <= j < omega ==> region[j] == 0
    requires |h| == k && forall i :: 0 <= i < k ==> h[i] == Group(region, Prev(omega, region, i), region[omega + i])
    ensures Canonical(omega, k, region) && h == HintsOf(omega, k, region)
  {
  }

  // ---------------------------------------------------------------------
  // The encoder of `packSig`

  /** `x & 0xFF` stored into the signature. */
  method StoreLow(x: int) returns (b: Byte)
    ensures b == x % 256
  {
    LowByteOf(x);
    b := ToByte(And(x, 0xFF));
  }

  /** A store into the section; stores past its end are dropped. */
  function Store(r: seq<Byte>, at: int, v: Byte): (r': seq<Byte>)
    ensures |r'| == |r|
  {
    if 0 <= at < |r| then r[at := v] else r
  }

  lemma CumStep(h: seq<Poly>, i: nat)
    requires i < |h|
    ensures Idx(h, i + 1) == Idx(h, i) + Before(h[i], N)
    ensures Cum(h, i + 1) == Cum(h, i) + |Before(h[i], N)|
  {
  }

  lemma {:induction false} CumMono(h: seq<Poly>, i: nat, n: nat)
    requires i <= n <= |h|
    ensures Cum(h, i) <= Cum(h, n)
  {
    if i < n {
      CumMono(h, i, n - 1);
    }
  }

  lemma {:induction false} BeforeMono(p: Poly, j: nat, n: nat)
    requires j <= n <= N
    ensures |Before(p, j)| <= |Before(p, n)|
  {
    if j < n {
      BeforeMono(p, j, n - 1);
    }
  }

  /** The section after the encoder has written the position list pre and
      the markers of the first i polynomials. */
  predicate Filled(omega: nat, h: seq<Poly>, r: seq<Byte>, i: nat, pre: seq<int>)
    requires i <= |h|
  {
    && |r| == omega + |h| && |pre| <= omega
    && (forall t :: 0 <= t < |pre| ==> r[t] == pre[t])
    && (forall t :: |pre| <= t < omega ==> r[t] == 0)
    && (forall t :: omega <= t < omega + i ==> r[t] == Cum(h, t - omega + 1) % 256)
    && (forall t :: omega + i <= t < |r| ==> r[t] == 0)
  }

  lemma FilledStart(omega: nat, h: seq<Poly>)
    ensures Filled(omega, h, seq<Byte>(omega + |h|, _ => 0), 0, [])
  {
  }

  /** Storing the next position at the running count. */
  lemma FilledPosition(omega: nat, h: seq<Poly>, r: seq<Byte>, i: nat, pre: seq<int>, v: Byte)
    requires i <= |h| && Filled(omega, h, r, i, pre) && |pre| < omega
    ensures Filled(omega, h, Store(r, |pre|, v), i, pre + [v])
  {
  }

  /** Storing polynomial i's marker once its list is complete. */
  lemma FilledMarker(omega: nat, h: seq<Poly>, r: seq<Byte>, i: nat)
    requires i < |h| && Filled(omega, h, r, i, Idx(h, i + 1))
    ensures Filled(omega, h, Store(r, omega + i, Cum(h, i + 1) % 256), i + 1, Idx(h, i + 1))
  {
  }

  lemma FilledAll(omega: nat, h: seq<Poly>, r: seq<Byte>)
    requires Cum(h, |h|) <= omega && Filled(omega, h, r, |h|, Idx(h, |h|))
    ensures r == HintBytes(omega, h)
  {
    var e := HintBytes(omega, h);
    var idx := Idx(h, |h|);
    forall t | 0 <= t < |r|
      ensures r[t] == e[t]
    {
      if t < |idx| {
        assert r[t] == idx[t];
      } else if t < omega {
        assert r[t] == 0;
      }
    }
  }

  /** `packSig`'s hint loop on the section: zeroed, then for each
      polynomial every nonzero position `j & 0xFF` at the running count,
      and the count `k & 0xFF` at omega + i. When h has at most omega
      nonzero coefficients this is the canonical encoding. */
  method EncodeHints(omega: nat, h: seq<Poly>) returns (r: seq<Byte>)
    ensures |r| == omega + |h|
    ensures Cum(h, |h|) <= omega ==> r == HintBytes(omega, h)
  {
    var fits := Cum(h, |h|) <= omega;
    r := seq<Byte>(omega + |h|, _ => 0);
    FilledStart(omega, h);
    var k := 0;
    var i := 0;
    while i < |h|
      invariant i <= |h| && |r| == omega + |h|
      invariant fits ==> k == Cum(h, i) && Filled(omega, h, r, i, Idx(h, i))
    {
      r, k := EncodeList(omega, h, i, r, k);
      var m := StoreLow(k);
      if fits {
        CumStep(h, i);
        FilledMarker(omega, h, r, i);
      }
      r := Store(r, omega + i, m);
      i := i + 1;
    }
    if fits {
      FilledAll(omega, h, r);
    }
  }

  /** The inner loop of `packSig` for polynomial i: each nonzero position
      stored at the running count k, which moves on by one. */
  method EncodeList(omega: nat, h: seq<Poly>, i: nat, r: seq<Byte>, k: int) returns (r': seq<Byte>, k': int)
    requires i < |h| && |r| == omega + |h|
    ensures |r'| == |r|
    ensures Cum(h, |h|) <= omega && k == Cum(h, i) && Filled(omega, h, r, i, Idx(h, i)) ==>
      k' == Cum(h, i) + |Before(h[i], N)| && Filled(omega, h, r', i, Idx(h, i) + Before(h[i], N))
  {
    var fits := Cum(h, |h|) <= omega && k == Cum(h, i) && Filled(omega, h, r, i, Idx(h, i));
    r', k' := r, k;
    if fits {
      assert Idx(h, i) + Before(h[i], 0) == Idx(h, i);
    }
    var j := 0;
    while j < N
      invariant j <= N && |r'| == omega + |h|
      invariant fits ==> k' == Cum(h, i) + |Before(h[i], j)| && Filled(omega, h, r', i, Idx(h, i) + Before(h[i], j))
    {
      if h[i][j] != 0 {
        var b := StoreLow(j);
        if fits {
          EncodeRoom(omega, h, i, j);
          FilledPosition(omega, h, r', i, Idx(h, i) + Before(h[i], j), b);
          assert Idx(h, i) + Before(h[i], j + 1) == (Idx(h, i) + Before(h[i], j)) + [b];
        }
        r' := Store(r', k', b);
        k' := k' + 1;
      }
      j := j + 1;
    }
  }

  /** A position the encoder stores lands below omega. */
  lemma EncodeRoom(omega: nat, h: seq<Poly>, i: nat, j: nat)
    requires i < |h| && j < N && Cum(h, |h|) <= omega && h[i][j] != 0
    ensures Cum(h, i) + |Before(h[i], j)| < omega
    ensures Before(h[i], j + 1) == Before(h[i], j) + [j]
  {
    BeforeMono(h[i], j + 1, N);
    CumStep(h, i);
    CumMono(h, i + 1, |h|);
  }

  // ---------------------------------------------------------------------
  // Round trip

  /** Polynomial i's list sits between the counts before and after it. */
  lemma {:induction false} IdxSlice(h: seq<Poly>, n: nat, i: nat)
    requires i < n <= |h|
    ensures Cum(h, i) <= Cum(h, i + 1) <= |Idx(h, n)|
    ensures Idx(h, n)[Cum(h, i) .. Cum(h, i + 1)] == Before(h[i], N)
  {
    CumMono(h, i + 1, n);
    if i < n - 1 {
      IdxSlice(h, n - 1, i);
      assert Idx(h, n)[..Cum(h, n - 1)] == Idx(h, n - 1);
    }
  }

  /** The markers of the encoding are the running counts. */
  lemma EncodedMarkers(omega: nat, h: seq<Poly>, i: nat)
    requires Cum(h, |h|) <= omega < 256 && i <= |h|
    ensures Prev(omega, HintBytes(omega, h), i) == Cum(h, i)
  {
    if i > 0 {
      CumMono(h, i, |h|);
      assert HintBytes(omega, h)[omega + i - 1] == Cum(h, i) % 256;
    }
  }

  /** Polynomial i's stretch of the encoding is its position list. */
  lemma EncodedGroup(omega: nat, h: seq<Poly>, i: nat)
    requires Cum(h, |h|) <= omega < 256 && i < |h|
    ensures Prev(omega, HintBytes(omega, h), i) == Cum(h, i)
    ensures HintBytes(omega, h)[omega + i] == Cum(h, i + 1) <= omega
    ensures Cum(h, i) <= Cum(h, i + 1)
    ensures HintBytes(omega, h)[Cum(h, i) .. Cum(h, i + 1)] == Before(h[i], N)
  {
    EncodedMarkers(omega, h, i);
    EncodedMarkers(omega, h, i + 1);
    CumMono(h, i + 1, |h|);
    EncodedSlice(omega, h, i);
  }

  lemma EncodedSlice(omega: nat, h: seq<Poly>, i: nat)
    requires Cum(h, |h|) <= omega < 256 && i < |h|
    ensures Cum(h, i) <= Cum(h, i + 1) <= omega
    ensures HintBytes(omega, h)[Cum(h, i) .. Cum(h, i + 1)] == Before(h[i], N)
  {
    var r := HintBytes(omega, h);
    IdxSlice(h, |h|, i);
    var idx := Idx(h, |h|);
    assert r[..|idx|] == idx;
  }

  lemma EncodedMarkersOk(omega: nat, h: seq<Poly>)
    requires Cum(h, |h|) <= omega < 256
    ensures MarkersOk(omega, |h|, HintBytes(omega, h))
  {
    forall i | 0 <= i < |h|
      ensures Prev(omega, HintBytes(omega, h), i) <= HintBytes(omega, h)[omega + i] <= omega
    {
      EncodedGroup(omega, h, i);
    }
  }

  lemma EncodedIncreasing(omega: nat, h: seq<Poly>)
    requires Cum(h, |h|) <= omega < 256
    ensures MarkersOk(omega, |h|, HintBytes(omega, h))
    ensures Increasing(omega, |h|, HintBytes(omega, h))
  {
    var r := HintBytes(omega, h);
    EncodedMarkersOk(omega, h);
    forall i, j | 0 <= i < |h| && Prev(omega, r, i) < j < r[omega + i]
      ensures Ascends(r, j)
    {
      EncodedGroup(omega, h, i);
      var ps := Before(h[i], N);
      BeforeSorted(h[i], N);
      var lo := Cum(h, i);
      assert r[j - 1] == r[lo .. Cum(h, i + 1)][j - 1 - lo];
      assert r[j] == r[lo .. Cum(h, i + 1)][j - lo];
    }
  }

  lemma EncodedTrailing(omega: nat, h: seq<Poly>)
    requires Cum(h, |h|) <= omega < 256
    ensures MarkersOk(omega, |h|, HintBytes(omega, h))
    ensures TrailingZeros(omega, |h|, HintBytes(omega, h))
  {
    EncodedMarkersOk(omega, h);
    EncodedMarkers(omega, h, |h|);
  }

  /** The canonical encoding of 0/1 hints with at most omega < 256 ones is
      accepted by the decoder and decodes to the same hints. */
  lemma HintRoundTrip(omega: nat, h: seq<Poly>)
    requires Flags(h) && Cum(h, |h|) <= omega < 256
    ensures Canonical(omega, |h|, HintBytes(omega, h))
    ensures HintsOf(omega, |h|, HintBytes(omega, h)) == h
  {
    var r := HintBytes(omega, h);
    EncodedIncreasing(omega, h);
    EncodedTrailing(omega, h);
    var d := HintsOf(omega, |h|, r);
    forall i | 0 <= i < |h|
      ensures d[i] == h[i]
    {
      EncodedGroup(omega, h, i);
      var lo, hi := Cum(h, i), Cum(h, i + 1);
      assert Within(h[i], 0, 1);
      assert 0 <= lo <= hi <= |r|;
      assert r[lo..hi] == Before(h[i], N);
      GroupOfList(h[i], r, lo, hi);
    }
  }

  /** A 0/1 polynomial is the group of its own position list. */
  lemma GroupOfList(p: Poly, region: seq<Byte>, lo: int, hi: int)
    requires Within(p, 0, 1) && 0 <= lo <= hi <= |region| && region[lo..hi] == Before(p, N)
    ensures Group(region, lo, hi) == p
  {
    BeforeFacts(p, N);
  }

  /** The counts here are those of `makeHints`: the total is the number of
      set flags `Hints.Ones` counts. */
  lemma {:induction false} OnesIsCum(h: seq<Poly>)
    ensures Ones(h) == Cum(h, |h|)
  {
    if |h| > 0 {
      OnesIsCum(h[1..]);
      CumFront(h, |h|);
    }
  }

  lemma {:induction false} CumFront(h: seq<Poly>, n: nat)
    requires 1 <= n <= |h|
    ensures Cum(h, n) == |Positions(h[0], 0)| + Cum(h[1..], n - 1)
  {
    if n == 1 {
      BeforeAll(h[0]);
      assert Idx(h, 1) == Idx(h, 0) + Before(h[0], N);
    } else {
      CumFront(h, n - 1);
      assert h[1..][n - 2] == h[n - 1];
    }
  }

  /** The encoder's list for p is `Hints.Positions(p, 0)`. */
  lemma BeforeAll(p: Poly)
    ensures Before(p, N) == Positions(p, 0)
  {
    BeforeAndAfter(p, N);
  }

  lemma {:induction false} BeforeAndAfter(p: Poly, j: nat)
    requires j <= N
    ensures Before(p, j) + Positions(p, j) == Positions(p, 0)
  {
    if j > 0 {
      BeforeAndAfter(p, j - 1);
      assert Positions(p, j - 1) == (if p[j - 1] != 0 then [j - 1] else []) + Positions(p, j);
    }
  }
}
