/** Stretches of bytes in a file and in an image. */
module Slices {
  import opened Words
  import opened BitStream

  /** `n` bytes from `p` on; past the end there are zeros. */
  function Bytes(s: seq<Byte>, p: nat, n: nat): (r: seq<Byte>)
    ensures |r| == n
    decreases n
  {
    if n == 0 then [] else [ByteAt(s, p)] + Bytes(s, p + 1, n - 1)
  }

  /** The file holds `b` at `p`. */
  predicate Has(s: seq<Byte>, p: nat, b: seq<Byte>)
  {
    p + |b| <= |s| && s[p..p + |b|] == b
  }

  lemma {:induction false} BytesAre(s: seq<Byte>, p: nat, b: seq<Byte>)
    requires Has(s, p, b)
    ensures Bytes(s, p, |b|) == b
    decreases |b|
  {
    if b != [] {
      var t := s[p..p + |b|];
      assert s[p] == t[0] && s[p + 1..p + |b|] == t[1..];
      BytesAre(s, p + 1, b[1..]);
    }
  }

  lemma HasSplit(s: seq<Byte>, p: nat, a: seq<Byte>, b: seq<Byte>)
    ensures Has(s, p, a + b) <==> Has(s, p, a) && Has(s, p + |a|, b)
  {
    if p + |a| + |b| <= |s| {
      var t := s[p..p + |a| + |b|];
      assert t[..|a|] == s[p..p + |a|] && t[|a|..] == s[p + |a|..p + |a| + |b|];
      assert t == t[..|a|] + t[|a|..];
      assert (a + b)[..|a|] == a && (a + b)[|a|..] == b;
    }
  }

  lemma {:induction false} BytesSplit(s: seq<Byte>, p: nat, a: nat, b: nat)
    ensures Bytes(s, p, a + b) == Bytes(s, p, a) + Bytes(s, p + a, b)
    decreases a
  {
    if a > 0 {
      BytesSplit(s, p + 1, a - 1, b);
    }
  }

  /** Pixel `n` of an image with `b` bytes to a pixel. */
  function Pixel(s: seq<Byte>, n: nat, b: nat): (r: seq<Byte>)
    requires n * b + b <= |s|
    ensures |r| == b
  {
    MulNonneg(n, b);
    s[n * b..n * b + b]
  }
}
