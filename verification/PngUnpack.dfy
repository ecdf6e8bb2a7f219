/** Expansion of 1-, 2- and 4-bit samples in place: packed bytes lie at the right end of a row and
    are spread over it from the left. Then alpha is inserted, from the right. */
module PngUnpack {
  import opened Words
  import opened PngFilter
  import opened PngLines

  predicate SmallDepth(d: nat)
  {
    d == 1 || d == 2 || d == 4
  }

  /** Samples in a byte. */
  function Per(d: nat): (p: nat)
    requires SmallDepth(d)
    ensures p == 2 || p == 4 || p == 8
  {
    if d == 1 then 8 else if d == 2 then 4 else 2
  }

  /** Bytes that `n` samples take: `(n * d + 7) >> 3`. */
  function PackedBytes(n: nat, d: nat): nat
    requires SmallDepth(d)
  {
    if d == 1 then (n + 7) / 8 else if d == 2 then (n * 2 + 7) / 8 else (n * 4 + 7) / 8
  }

  /** Samples in `t` whole bytes. */
  function Samples(t: nat, d: nat): nat
    requires SmallDepth(d)
  {
    MulNonneg(t, Per(d));
    t * Per(d)
  }

  lemma SamplesStep(t: nat, d: nat)
    requires SmallDepth(d)
    ensures Samples(0, d) == 0 && Samples(t + 1, d) == Samples(t, d) + Per(d)
  {
    MulSucc(t, Per(d));
  }

  /** How far to the right sample `s` is shifted. */
  function Shift(s: nat, d: nat): nat
    requires SmallDepth(d) && s < Per(d)
  {
    if d == 1 then 7 - s else if d == 2 then 6 - 2 * s else 4 - 4 * s
  }

  /** Sample `s` of a byte, the first in the highest bits, times `scale`. */
  function Sample(b: Byte, s: nat, d: nat, scale: nat): nat
    requires SmallDepth(d) && s < Per(d)
  {
    MulNonneg(scale, Shr(b, Shift(s, d)) % Pow2(d));
    scale * (Shr(b, Shift(s, d)) % Pow2(d))
  }

  /** Scaled samples are bytes. */
  predicate ScaleFits(d: nat, scale: nat)
  {
    scale * (Pow2(d) - 1) < 256
  }

  lemma SampleIsByte(b: Byte, s: nat, d: nat, scale: nat)
    requires SmallDepth(d) && s < Per(d) && ScaleFits(d, scale)
    ensures Sample(b, s, d, scale) < 256
  {
    var v := Shr(b, Shift(s, d)) % Pow2(d);
    hide Pow2, Shr, Shift;
    MulLe(v, Pow2(d) - 1, scale);
  }

  /** The samples of a packed row, out of place. */
  ghost predicate Expanded(row: seq<Byte>, packed: seq<Byte>, d: nat, scale: nat)
    requires SmallDepth(d)
  {
    && |packed| == PackedBytes(|row|, d)
    && forall m: nat :: m < |row| ==>
       m / Per(d) < |packed| && row[m] == Sample(packed[m / Per(d)], m % Per(d), d, scale)
  }

  /** `stbi__depth_scale_table`, for grey images. */
  function DepthScale(d: nat, color: nat): (s: nat)
    requires SmallDepth(d)
    ensures ScaleFits(d, s)
  {
    Pow2Values();
    if color != 0 then 1 else if d == 1 then 0xff else if d == 2 then 0x55 else 0x11
  }

  /** The first `n` samples of a byte, read as digits. */
  function Digits(b: Byte, d: nat, n: nat): nat
    requires SmallDepth(d) && n <= Per(d)
  {
    if n == 0 then 0 else Digits(b, d, n - 1) * Pow2(d) + Sample(b, n - 1, d, 1)
  }

  /** The samples of a byte, the first one highest, make up the byte. */
  lemma SamplesMake(b: Byte, d: nat)
    requires SmallDepth(d)
    ensures Digits(b, d, Per(d)) == b
  {
    hide Digits, Pow2;
    Pow2Values();
    DigitsTo(b, d, Per(d), 0);
  }

  lemma {:induction false} DigitsTo(b: Byte, d: nat, n: nat, rest: nat)
    requires SmallDepth(d) && n <= Per(d) && rest + d * n == 8
    ensures Digits(b, d, n) == Shr(b, rest)
    decreases n
  {
    hide Pow2, Digits, Shr, Sample, Per;
    if n == 0 {
      NoDigits(b, d, rest);
    } else {
      DigitsTo(b, d, n - 1, rest + d);
      DigitNext(b, d, n, rest);
      TopOf(b, rest, d);
      Halved(Shr(b, rest), Pow2(d));
    }
  }

  lemma NoDigits(b: Byte, d: nat, rest: nat)
    requires SmallDepth(d) && rest == 8
    ensures Digits(b, d, 0) == 0 == Shr(b, rest)
  {
    Pow2Values();
  }

  lemma DigitNext(b: Byte, d: nat, n: nat, rest: nat)
    requires SmallDepth(d) && 0 < n <= Per(d) && rest + d * n == 8
    ensures Digits(b, d, n) == Digits(b, d, n - 1) * Pow2(d) + Shr(b, rest) % Pow2(d)
  {
    hide Pow2, Shr;
  }

  lemma TopOf(b: Byte, rest: nat, d: nat)
    ensures Shr(b, rest) / Pow2(d) == Shr(b, rest + d)
  {
    hide Pow2;
    DivDiv(b, rest, d);
  }

  lemma Halved(v: nat, m: nat)
    requires m > 0
    ensures v == v / m * m + v % m
  {
  }

  /** The scale takes the largest sample of a grey image to 255, and leaves the indices of a palette alone. */
  lemma LargestSample(d: nat, color: nat)
    requires SmallDepth(d)
    ensures DepthScale(d, color) * (Pow2(d) - 1) == if color == 0 then 255 else Pow2(d) - 1
  {
    hide Pow2;
    Pow2Values();
  }

  // ----- the reads stay ahead of the writes

  /** Before the last sample of a byte is read, writes stay left of it. */
  lemma Ahead(k: nat, d: nat)
    requires SmallDepth(d) && k >= Per(d)
    ensures PackedBytes(k, d) + Per(d) <= k + 1
    ensures PackedBytes(k - Per(d), d) == PackedBytes(k, d) - 1
  {
  }

  /** The samples of one byte, each written before the byte is read for the next. */
  method UnpackByte(a: array<Byte>, cur: nat, src: nat, count: nat, d: nat, scale: nat)
    requires SmallDepth(d) && 1 <= count <= Per(d) && ScaleFits(d, scale)
    requires cur + count <= src + 1 && src < a.Length
    modifies a
    ensures forall q :: 0 <= q < a.Length && !(cur <= q < cur + count) ==> a[q] == old(a[q])
    ensures forall s: nat :: s < count ==> a[cur + s] == Sample(old(a[src]), s, d, scale)
  {
    hide Pow2, And, Shr, Shift;
    for s := 0 to count
      invariant forall q :: 0 <= q < a.Length && !(cur <= q < cur + s) ==> a[q] == old(a[q])
      invariant forall m: nat :: m < s ==> a[cur + m] == Sample(old(a[src]), m, d, scale)
    {
      var v := Shr(a[src], Shift(s, d));
      AndMask(v, d);
      if s == 0 {
        TopSample(a[src], d);
      } else {
        v := And(v, Pow2(d) - 1);
      }
      SampleIsByte(a[src], s, d, scale);
      a[cur + s] := scale * v;
    }
  }

  lemma TopSample(b: Byte, d: nat)
    requires SmallDepth(d)
    ensures Shr(b, Shift(0, d)) % Pow2(d) == Shr(b, Shift(0, d))
  {
    Pow2Values();
  }

  /** One row of `n` samples with `room` bytes: in place as if out of place. */
  method UnpackRow(a: array<Byte>, base: nat, room: nat, n: nat, d: nat, scale: nat)
    requires SmallDepth(d) && ScaleFits(d, scale) && n <= room && base + room <= a.Length
    modifies a
    ensures PackedBytes(n, d) <= n
    ensures forall q :: 0 <= q < a.Length && !(base <= q < base + n) ==> a[q] == old(a[q])
    ensures Expanded(a[base..base + n], old(a[base + room - PackedBytes(n, d)..base + room]), d, scale)
  {
    hide Pow2, Sample, ScaleFits, PackedBytes, Per, Samples, Done, SmallDepth, Expanded;
    PackedFits(n, d);
    SamplesStep(0, d);
    var per, wb := Per(d), PackedBytes(n, d);
    ghost var packed := a[base + room - wb..base + room];
    var cur: nat, src: nat, k: nat := base, base + room - wb, n;
    assert Done([], packed, d, scale) by { NoneDone(packed, d, scale); }
    assert a[base..cur] == [];
    ghost var t: nat := 0;
    while k >= per
      invariant cur + k == base + n && src == base + room - PackedBytes(k, d) && t == src - (base + room - wb)
      invariant cur == base + Samples(t, d) && PackedBytes(k, d) <= wb
      invariant forall q :: 0 <= q < a.Length && !(base <= q < cur) ==> a[q] == old(a[q])
      invariant Done(a[base..cur], packed, d, scale)
    {
      Ahead(k, d);
      SamplesStep(t, d);
      UnpackMore(a, base, cur, src, per, d, scale, packed, t);
      cur, k, src := cur + per, k - per, src + 1;
      t := t + 1;
    }
    if k > 0 {
      Short(k, d);
      UnpackMore(a, base, cur, src, k, d, scale, packed, t);
      cur := cur + k;
    }
    assert a[base..base + n] == a[base..cur];
    AllDone(a[base..base + n], packed, d, scale);
  }

  lemma NoneDone(packed: seq<Byte>, d: nat, scale: nat)
    requires SmallDepth(d)
    ensures Done([], packed, d, scale)
  {
  }

  lemma AllDone(row: seq<Byte>, packed: seq<Byte>, d: nat, scale: nat)
    requires SmallDepth(d) && Done(row, packed, d, scale) && |packed| == PackedBytes(|row|, d)
    ensures Expanded(row, packed, d, scale)
  {
  }

  /** One byte more of a row. */
  method UnpackMore(a: array<Byte>, base: nat, cur: nat, src: nat, count: nat, d: nat, scale: nat,
                    ghost packed: seq<Byte>, ghost t: nat)
    requires SmallDepth(d) && 1 <= count <= Per(d) && ScaleFits(d, scale)
    requires base <= cur && cur + count <= src + 1 && src < a.Length
    requires t < |packed| && a[src] == packed[t] && cur - base == Samples(t, d) && Done(a[base..cur], packed, d, scale)
    modifies a
    ensures forall q :: 0 <= q < a.Length && !(cur <= q < cur + count) ==> a[q] == old(a[q])
    ensures Done(a[base..cur + count], packed, d, scale)
  {
    hide Pow2, Sample, ScaleFits, Per, Done, Samples;
    ghost var before := a[base..cur];
    UnpackByte(a, cur, src, count, d, scale);
    assert a[base..cur] == before;
    MoreDone(before, a[cur..cur + count], packed, t, d, scale);
    assert a[base..cur + count] == a[base..cur] + a[cur..cur + count];
  }

  lemma PackedFits(n: nat, d: nat)
    requires SmallDepth(d)
    ensures PackedBytes(n, d) <= n && (n == 0 ==> PackedBytes(n, d) == 0)
  {
  }

  lemma Short(k: nat, d: nat)
    requires SmallDepth(d) && 0 < k < Per(d)
    ensures PackedBytes(k, d) == 1
  {
  }

  ghost predicate Done(row: seq<Byte>, packed: seq<Byte>, d: nat, scale: nat)
    requires SmallDepth(d)
  {
    forall m: nat :: m < |row| ==> m / Per(d) < |packed| && row[m] == Sample(packed[m / Per(d)], m % Per(d), d, scale)
  }

  lemma MoreDone(row: seq<Byte>, more: seq<Byte>, packed: seq<Byte>, t: nat, d: nat, scale: nat)
    requires SmallDepth(d) && Done(row, packed, d, scale) && |row| == Samples(t, d) && t < |packed| && |more| <= Per(d)
    requires forall s: nat :: s < |more| ==> more[s] == Sample(packed[t], s, d, scale)
    ensures Done(row + more, packed, d, scale)
  {
    hide Sample, Per;
    var all := row + more;
    forall m: nat | m < |all|
      ensures m / Per(d) < |packed| && all[m] == Sample(packed[m / Per(d)], m % Per(d), d, scale)
    {
      if m >= |row| {
        DivModIs(m, Per(d), t, m - |row|);
        assert all[m] == more[m - |row|];
      } else {
        assert all[m] == row[m];
      }
    }
  }

  // ----- alpha

  /** 255 after every sample, from the right end of the row. */
  method SpreadAlpha(a: array<Byte>, base: nat, x: nat)
    requires base + 2 * x <= a.Length
    modifies a
    ensures a[base..base + 2 * x] == WithAlpha(old(a[base..base + x]), 1, x)
    ensures forall q :: 0 <= q < a.Length && !(base <= q < base + 2 * x) ==> a[q] == old(a[q])
  {
    hide WithAlpha;
    var q := x;
    while q > 0
      invariant 0 <= q <= x
      invariant forall r :: q <= r < x ==> a[base + 2 * r] == old(a[base + r]) && a[base + 2 * r + 1] == 255
      invariant forall p :: 0 <= p < a.Length && !(base + 2 * q <= p < base + 2 * x) ==> a[p] == old(a[p])
    {
      q := q - 1;
      a[base + q * 2 + 1] := 255;
      a[base + q * 2] := a[base + q];
    }
    SpreadIs(old(a[base..base + x]), a[base..base + 2 * x], x);
  }

  lemma SpreadIs(row: seq<Byte>, wide: seq<Byte>, x: nat)
    requires |row| == x && |wide| == 2 * x
    requires forall r :: 0 <= r < x ==> wide[2 * r] == row[r] && wide[2 * r + 1] == 255
    ensures wide == WithAlpha(row, 1, x)
  {
    hide WithAlpha;
    var z := WithAlpha(row, 1, x);
    forall i | 0 <= i < 2 * x ensures wide[i] == z[i] {
      var r := i / 2;
      WithAlphaAt(row, 1, x, r, 0);
      AlphaAt(row, x, r);
    }
  }

  lemma {:induction false} AlphaAt(row: seq<Byte>, x: nat, r: nat)
    requires x <= |row| && r < x
    ensures WithAlpha(row, 1, x)[2 * r + 1] == 255
  {
    if r < x - 1 {
      AlphaAt(row, x - 1, r);
    }
  }

  // ----- a whole image

  /** The bytes of row `j`. */
  function RowOf(a: seq<Byte>, stride: nat, j: nat): (r: seq<Byte>)
    requires j * stride + stride <= |a|
    ensures |r| == stride
  {
    MulNonneg(j, stride);
    RowAt(a, j * stride, stride)
  }

  /** A row, expanded out of place from the bytes packed at its right end. */
  ghost predicate RowExpanded(row: seq<Byte>, was: seq<Byte>, x: nat, d: nat, scale: nat, alpha: bool)
    requires SmallDepth(d)
  {
    PackedFits(x, d);
    && |row| == |was| == (if alpha then 2 * x else x)
    && exists samples: seq<Byte> ::
         |samples| == x && Expanded(samples, was[|was| - PackedBytes(x, d)..], d, scale)
         && row == if alpha then WithAlpha(samples, 1, x) else samples
  }

  method ExpandRow(a: array<Byte>, base: nat, x: nat, d: nat, scale: nat, alpha: bool)
    requires SmallDepth(d) && ScaleFits(d, scale) && base + (if alpha then 2 * x else x) <= a.Length
    modifies a
    ensures var stride := if alpha then 2 * x else x;
            && RowExpanded(a[base..base + stride], old(a[base..base + stride]), x, d, scale, alpha)
            && forall q :: 0 <= q < a.Length && !(base <= q < base + stride) ==> a[q] == old(a[q])
  {
    hide Pow2, Sample, ScaleFits, PackedBytes, Per, Expanded, WithAlpha;
    PackedFits(x, d);
    var stride := if alpha then 2 * x else x;
    ghost var was := a[base..base + stride];
    UnpackRow(a, base, stride, x, d, scale);
    ghost var samples := a[base..base + x];
    assert was[|was| - PackedBytes(x, d)..] == old(a[base + stride - PackedBytes(x, d)..base + stride]);
    if alpha {
      SpreadAlpha(a, base, x);
    }
    assert |samples| == x && Expanded(samples, was[|was| - PackedBytes(x, d)..], d, scale);
  }

  /** The separate pass over an image of 1-, 2- or 4-bit samples. */
  method ExpandImage(a: array<Byte>, x: nat, y: nat, d: nat, color: nat, alpha: bool)
    requires SmallDepth(d) && a.Length == y * (if alpha then 2 * x else x)
    modifies a
    ensures var stride := if alpha then 2 * x else x;
            forall j: nat :: j < y ==>
              j * stride + stride <= a.Length
              && RowExpanded(RowOf(a[..], stride, j), old(RowOf(a[..], stride, j)), x, d, DepthScale(d, color), alpha)
  {
    hide RowExpanded, RowAt;
    var stride := if alpha then 2 * x else x;
    var scale := DepthScale(d, color);
    ghost var was := a[..];
    for j := 0 to y
      invariant forall q :: 0 <= q < a.Length && q >= j * stride ==> a[q] == was[q]
      invariant forall i: nat :: i < j ==>
        && i * stride + stride <= a.Length
        && RowExpanded(RowOf(a[..], stride, i), RowOf(was, stride, i), x, d, scale, alpha)
    {
      ghost var before := a[..];
      RowBounds(j, y, stride);
      ExpandRow(a, j * stride, x, d, scale, alpha);
      RowsKept(before, a[..], was, stride, j);
      MulSucc(j, stride);
    }
    forall j: nat | j < y ensures j * stride + stride <= a.Length {
      RowBounds(j, y, stride);
    }
  }

  lemma RowBounds(j: nat, y: nat, stride: nat)
    requires j < y
    ensures 0 <= j * stride && j * stride + stride <= y * stride
  {
    MulNonneg(j, stride);
    MulLe(j + 1, y, stride);
    MulSucc(j, stride);
  }

  /** Rows above the one just expanded stay as they are. */
  lemma RowsKept(before: seq<Byte>, after: seq<Byte>, was: seq<Byte>, stride: nat, j: nat)
    requires |before| == |after| == |was| && 0 <= j * stride && j * stride + stride <= |after|
    requires forall q :: 0 <= q < |after| && !(j * stride <= q < j * stride + stride) ==> after[q] == before[q]
    requires forall q :: 0 <= q < |was| && q >= j * stride ==> before[q] == was[q]
    ensures forall i: nat :: i < j ==>
              i * stride + stride <= |after| && RowOf(after, stride, i) == RowOf(before, stride, i)
    ensures RowOf(after, stride, j) == after[j * stride..j * stride + stride]
    ensures RowOf(was, stride, j) == before[j * stride..j * stride + stride]
  {
    forall i: nat | i < j
      ensures i * stride + stride <= |after| && RowOf(after, stride, i) == RowOf(before, stride, i)
    {
      RowBounds(i, j, stride);
    }
  }
}
