/** Byte buffers and fixed-size groups. The packers of src/poly.ts walk a
    polynomial in groups of a few coefficients and write a fixed number of
    bytes per group at `off + bytesPerGroup * i + j`; the unpackers read the
    same positions back. Here a packer is the concatenation of its group
    encodings, placed into a buffer by `WriteAt`, and an unpacker decodes
    the block `ReadBlock` takes from the buffer. */
module Blocks {
  import opened JsNumber

  /** The n bytes at off, reading 0 outside the buffer (JavaScript reads
      `undefined` there, and `undefined & 0xFF` is 0). */
  function ReadBlock(buf: seq<Byte>, off: int, n: nat): (r: seq<Byte>)
    ensures |r| == n
    ensures forall j :: 0 <= j < n ==> r[j] == ByteAt(buf, off + j)
  {
    seq<Byte>(n, j => ByteAt(buf, off + j))
  }

  /** Stores block at off; stores outside the typed array are dropped. */
  function WriteAt(buf: seq<Byte>, off: int, block: seq<Byte>): (r: seq<Byte>)
    ensures |r| == |buf|
  {
    seq<Byte>(|buf|, i requires 0 <= i < |buf| => if off <= i < off + |block| then block[i - off] else buf[i])
  }

  /** What was written in range is read back, and nothing else changed. */
  lemma ReadWritten(buf: seq<Byte>, off: int, block: seq<Byte>)
    requires 0 <= off && off + |block| <= |buf|
    ensures ReadBlock(WriteAt(buf, off, block), off, |block|) == block
    ensures forall i :: 0 <= i < |buf| && !(off <= i < off + |block|) ==> WriteAt(buf, off, block)[i] == buf[i]
  {
    var r := ReadBlock(WriteAt(buf, off, block), off, |block|);
    assert forall j :: 0 <= j < |block| ==> r[j] == block[j];
  }

  /** Reading a block that lies inside an earlier write. */
  lemma ReadInside(buf: seq<Byte>, off: int, block: seq<Byte>, at: int, n: nat)
    requires 0 <= off && off + |block| <= |buf|
    requires off <= at && at + n <= off + |block|
    ensures ReadBlock(WriteAt(buf, off, block), at, n) == block[at - off .. at - off + n]
  {
    var r := ReadBlock(WriteAt(buf, off, block), at, n);
    assert forall j :: 0 <= j < n ==> r[j] == block[at - off + j];
  }

  /** Reading a block that lies outside a write. */
  lemma ReadOutside(buf: seq<Byte>, off: int, block: seq<Byte>, at: int, n: nat)
    requires 0 <= off && off + |block| <= |buf|
    requires at + n <= off || off + |block| <= at
    ensures ReadBlock(WriteAt(buf, off, block), at, n) == ReadBlock(buf, at, n)
  {
    var r := ReadBlock(WriteAt(buf, off, block), at, n);
    assert forall j :: 0 <= j < n ==> r[j] == ReadBlock(buf, at, n)[j];
  }

  /** blk lies in bytes from off on. */
  predicate BlockAt(bytes: seq<Byte>, off: int, blk: seq<Byte>) {
    0 <= off && off + |blk| <= |bytes| && ReadBlock(bytes, off, |blk|) == blk
  }

  /** Every group of c values encodes to b bytes. */
  ghost predicate Encodes(c: nat, b: nat, enc: seq<int> --> seq<Byte>) {
    forall g :: |g| == c ==> enc.requires(g) && |enc(g)| == b
  }

  /** Every block of b bytes decodes to c values. */
  ghost predicate Decodes(b: nat, c: nat, dec: seq<Byte> --> seq<int>) {
    forall blk :: |blk| == b ==> dec.requires(blk) && |dec(blk)| == c
  }

  /** The group encodings of s, c values at a time, one after the other;
      a trailing partial group is not encoded. */
  function EncodeGroups(s: seq<int>, c: nat, b: nat, enc: seq<int> --> seq<Byte>): (r: seq<Byte>)
    requires c > 0 && Encodes(c, b, enc)
    decreases |s|
  {
    if |s| < c then [] else enc(s[..c]) + EncodeGroups(s[c..], c, b, enc)
  }

  /** The group decodings of bytes, b bytes at a time, one after the other. */
  function DecodeGroups(bytes: seq<Byte>, b: nat, c: nat, dec: seq<Byte> --> seq<int>): (r: seq<int>)
    requires b > 0 && Decodes(b, c, dec)
    decreases |bytes|
  {
    if |bytes| < b then [] else dec(bytes[..b]) + DecodeGroups(bytes[b..], b, c, dec)
  }

  /** n groups of c values encode to n groups of b bytes. */
  lemma {:induction false} EncodeLength(s: seq<int>, c: nat, b: nat, enc: seq<int> --> seq<Byte>, n: nat)
    requires c > 0 && Encodes(c, b, enc) && |s| == c * n
    ensures |EncodeGroups(s, c, b, enc)| == b * n
  {
    if n > 0 {
      assert |s[c..]| == c * (n - 1);
      EncodeLength(s[c..], c, b, enc, n - 1);
    }
  }

  /** n blocks of b bytes decode to n groups of c values. */
  lemma {:induction false} DecodeLength(bytes: seq<Byte>, b: nat, c: nat, dec: seq<Byte> --> seq<int>, n: nat)
    requires b > 0 && Decodes(b, c, dec) && |bytes| == b * n
    ensures |DecodeGroups(bytes, b, c, dec)| == c * n
  {
    if n > 0 {
      assert |bytes[b..]| == b * (n - 1);
      DecodeLength(bytes[b..], b, c, dec, n - 1);
    }
  }

  // Two short sequences are equal when their elements are, stated once per
  // group size so that a group round trip can conclude from per-element facts.

  lemma Same2<T>(s: seq<T>, t: seq<T>)
    requires |s| == 2 && |t| == 2 && s[0] == t[0] && s[1] == t[1]
    ensures s == t
  {
  }

  lemma Same4<T>(s: seq<T>, t: seq<T>)
    requires |s| == 4 && |t| == 4 && s[0] == t[0] && s[1] == t[1] && s[2] == t[2] && s[3] == t[3]
    ensures s == t
  {
  }

  lemma Same5<T>(s: seq<T>, t: seq<T>)
    requires |s| == 5 && |t| == 5 && s[0] == t[0] && s[1] == t[1] && s[2] == t[2] && s[3] == t[3]
    requires s[4] == t[4]
    ensures s == t
  {
  }

  lemma Same8<T>(s: seq<T>, t: seq<T>)
    requires |s| == 8 && |t| == 8 && s[0] == t[0] && s[1] == t[1] && s[2] == t[2] && s[3] == t[3]
    requires s[4] == t[4] && s[5] == t[5] && s[6] == t[6] && s[7] == t[7]
    ensures s == t
  {
  }

  /** Every value lies in [lo, hi]. */
  predicate Within(s: seq<int>, lo: int, hi: int) {
    forall i :: 0 <= i < |s| ==> lo <= s[i] <= hi
  }

  /** When every group decoding lies in [lo, hi], so does the whole decoding. */
  lemma {:induction false} DecodeWithin(bytes: seq<Byte>, b: nat, c: nat, dec: seq<Byte> --> seq<int>, lo: int, hi: int)
    requires b > 0 && Decodes(b, c, dec)
    requires forall blk :: |blk| == b ==> Within(dec(blk), lo, hi)
    ensures Within(DecodeGroups(bytes, b, c, dec), lo, hi)
    decreases |bytes|
  {
    if |bytes| >= b {
      DecodeWithin(bytes[b..], b, c, dec, lo, hi);
      assert Within(dec(bytes[..b]), lo, hi);
    }
  }

  /** A group round trip on every in-range group gives a round trip on the
      whole sequence. */
  lemma {:induction false} DecodeEncode(s: seq<int>, c: nat, b: nat, enc: seq<int> --> seq<Byte>,
                                        dec: seq<Byte> --> seq<int>, lo: int, hi: int, n: nat)
    requires c > 0 && b > 0 && |s| == c * n && Encodes(c, b, enc) && Decodes(b, c, dec)
    requires forall g :: |g| == c && Within(g, lo, hi) ==> dec(enc(g)) == g
    requires Within(s, lo, hi)
    ensures DecodeGroups(EncodeGroups(s, c, b, enc), b, c, dec) == s
  {
    if n > 0 {
      var e := EncodeGroups(s, c, b, enc);
      var g := s[..c];
      assert Within(g, lo, hi);
      assert Within(s[c..], lo, hi);
      assert e[..b] == enc(g);
      assert e[b..] == EncodeGroups(s[c..], c, b, enc);
      assert |s[c..]| == c * (n - 1);
      EncodeLength(s[c..], c, b, enc, n - 1);
      DecodeEncode(s[c..], c, b, enc, dec, lo, hi, n - 1);
      assert s == g + s[c..];
    }
  }

  /** The first group of a decoded encoding is the decoding of the first
      group's encoding. */
  lemma FirstGroup(s: seq<int>, c: nat, b: nat, enc: seq<int> --> seq<Byte>, dec: seq<Byte> --> seq<int>)
    requires c > 0 && b > 0 && Encodes(c, b, enc) && Decodes(b, c, dec) && |s| >= c
    ensures |DecodeGroups(EncodeGroups(s, c, b, enc), b, c, dec)| >= c
    ensures DecodeGroups(EncodeGroups(s, c, b, enc), b, c, dec)[..c] == dec(enc(s[..c]))
  {
    var e := EncodeGroups(s, c, b, enc);
    assert e[..b] == enc(s[..c]);
  }

  /** f applied to every value. */
  function Map(f: int -> int, s: seq<int>): (r: seq<int>)
    ensures |r| == |s|
    ensures forall i :: 0 <= i < |s| ==> r[i] == f(s[i])
  {
    seq(|s|, i requires 0 <= i < |s| => f(s[i]))
  }

  /** When decoding an encoded group applies f to each of its values, so
      does decoding an encoded sequence. */
  lemma {:induction false} DecodeEncodeMap(s: seq<int>, c: nat, b: nat, enc: seq<int> --> seq<Byte>,
                                           dec: seq<Byte> --> seq<int>, f: int -> int, n: nat)
    requires c > 0 && b > 0 && |s| == c * n && Encodes(c, b, enc) && Decodes(b, c, dec)
    requires forall g :: |g| == c ==> dec(enc(g)) == Map(f, g)
    ensures DecodeGroups(EncodeGroups(s, c, b, enc), b, c, dec) == Map(f, s)
  {
    if n > 0 {
      var e := EncodeGroups(s, c, b, enc);
      var g := s[..c];
      assert e[..b] == enc(g);
      assert e[b..] == EncodeGroups(s[c..], c, b, enc);
      assert |s[c..]| == c * (n - 1);
      EncodeLength(s[c..], c, b, enc, n - 1);
      DecodeEncodeMap(s[c..], c, b, enc, dec, f, n - 1);
      MapSplit(f, s, c);
    }
  }

  lemma MapSplit(f: int -> int, s: seq<int>, c: nat)
    requires c <= |s|
    ensures Map(f, s) == Map(f, s[..c]) + Map(f, s[c..])
  {
    assert forall i :: 0 <= i < |s| ==> Map(f, s)[i] == (Map(f, s[..c]) + Map(f, s[c..]))[i];
  }

  /** A group round trip on every block gives a round trip on all bytes. */
  lemma {:induction false} EncodeDecode(bytes: seq<Byte>, b: nat, c: nat, dec: seq<Byte> --> seq<int>,
                                        enc: seq<int> --> seq<Byte>, n: nat)
    requires c > 0 && b > 0 && |bytes| == b * n && Encodes(c, b, enc) && Decodes(b, c, dec)
    requires forall blk :: |blk| == b ==> enc(dec(blk)) == blk
    ensures EncodeGroups(DecodeGroups(bytes, b, c, dec), c, b, enc) == bytes
  {
    if n > 0 {
      var d := DecodeGroups(bytes, b, c, dec);
      var blk := bytes[..b];
      assert d[..c] == dec(blk);
      assert d[c..] == DecodeGroups(bytes[b..], b, c, dec);
      assert |bytes[b..]| == b * (n - 1);
      EncodeDecode(bytes[b..], b, c, dec, enc, n - 1);
      assert bytes == blk + bytes[b..];
    }
  }
}
