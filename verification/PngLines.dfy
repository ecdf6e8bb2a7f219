/** Writing and reading single PNG lines: `stbiw__encode_png_line` and the row loops of
    `stbi__create_png_image_raw`, with their special filters for the first row. */
module PngLines {
  import opened Words
  import opened PngFilter

  /** Filter 5 and 6 stand for average and Paeth on a first row; "up" becomes "none" there. */
  function FirstRowFilter(filter: nat): (r: nat)
    requires filter <= 4
    ensures r <= 6
  {
    match filter
    case 0 => 0
    case 1 => 1
    case 2 => 0
    case 3 => 5
    case _ => 6
  }

  /** What the loops subtract (writing) or add (reading) at the first pixel of a row. */
  function FirstPixelTerm(kind: nat, up: Byte): int
    requires kind <= 6
  {
    match kind
    case 2 => up
    case 3 => up / 2
    case 4 => Paeth(0, up, 0)
    case _ => 0
  }

  /** What they subtract or add at every later pixel. */
  function Term(kind: nat, left: Byte, up: Byte, corner: Byte): int
    requires kind <= 6
  {
    var l: int, u: int := left, up;
    match kind
    case 0 => 0
    case 1 => left
    case 2 => up
    case 3 => (l + u) / 2
    case 4 => Paeth(left, up, corner)
    case 5 => left / 2
    case _ => Paeth(left, 0, 0)
  }

  /** The special cases are the general filters with zeros outside the image. */
  lemma TermIsPredict(filter: nat, first: bool, left: Byte, up: Byte, corner: Byte)
    requires filter <= 4 && (first ==> up == 0 && corner == 0)
    ensures var kind := if first then FirstRowFilter(filter) else filter;
            Term(kind, left, up, corner) == Predict(filter, left, up, corner)
    ensures var kind := if first then FirstRowFilter(filter) else filter;
            left == 0 && corner == 0 ==> FirstPixelTerm(kind, up) == Predict(filter, left, up, corner)
  {
  }

  /** The row at `z` and the row above it. */
  function RowAt(pixels: seq<Byte>, z: nat, w: nat): (r: Row)
    requires z + w <= |pixels|
    ensures |r| == w
  {
    pixels[z..z + w]
  }

  function PriorAt(pixels: seq<Byte>, z: nat, stride: nat, w: nat, first: bool): (r: Row)
    requires first || (stride <= z && z - stride + w <= |pixels|)
    ensures |r| == w
  {
    if first then Zeros(w) else pixels[z - stride..z - stride + w]
  }

  /** A line that needs no filtering is its own filtered form. */
  lemma NoFilter(filter: nat, n: nat, row: Row, prior: Row, first: bool)
    requires filter <= 4 && |row| == |prior|
    requires (if first then FirstRowFilter(filter) else filter) == 0
    requires first ==> prior == Zeros(|row|)
    ensures FilterRow(filter, n, row, prior) == row
  {
    assert filter == 0 || (first && filter == 2);
  }

  /** `memcpy(line_buffer, z, width * n)`. */
  method CopyLine(pixels: seq<Byte>, z: nat, line_buffer: array<Byte>)
    requires z + line_buffer.Length <= |pixels|
    modifies line_buffer
    ensures line_buffer[..] == RowAt(pixels, z, line_buffer.Length)
  {
    for i := 0 to line_buffer.Length
      invariant forall k :: 0 <= k < i ==> line_buffer[k] == pixels[z + k]
    {
      line_buffer[i] := pixels[z + i];
    }
  }

  method EncodeLine(pixels: seq<Byte>, stride: nat, z: nat, first: bool, w: nat, n: nat, filter_type: nat,
                    line_buffer: array<Byte>)
    requires 1 <= n <= w && filter_type <= 4 && line_buffer.Length == w
    requires z + w <= |pixels| && (first || (stride <= z && z - stride + w <= |pixels|))
    modifies line_buffer
    ensures line_buffer[..] == FilterRow(filter_type, n, RowAt(pixels, z, w), PriorAt(pixels, z, stride, w, first))
  {
    hide Term, FirstPixelTerm, FilteredByte, RowAt, PriorAt;
    ghost var row, prior := RowAt(pixels, z, w), PriorAt(pixels, z, stride, w, first);
    var kind := if first then FirstRowFilter(filter_type) else filter_type;
    if kind == 0 {
      ZeroPrior(pixels, z, stride, w, first);
      NoFilter(filter_type, n, row, prior, first);
      CopyLine(pixels, z, line_buffer);
      return;
    }
    for i := 0 to n
      invariant forall k :: 0 <= k < i ==> line_buffer[k] == FilteredByte(filter_type, n, row, prior, k)
    {
      var up := if first then 0 else pixels[z + i - stride];
      EncodedByte(pixels, stride, z, first, w, n, filter_type, i, 0, up, 0);
      line_buffer[i] := (pixels[z + i] - FirstPixelTerm(kind, up)) % 256;
    }
    for i := n to w
      invariant forall k :: 0 <= k < i ==> line_buffer[k] == FilteredByte(filter_type, n, row, prior, k)
    {
      var up := if first then 0 else pixels[z + i - stride];
      var corner := if first then 0 else pixels[z + i - stride - n];
      EncodedByte(pixels, stride, z, first, w, n, filter_type, i, pixels[z + i - n], up, corner);
      line_buffer[i] := (pixels[z + i] - Term(kind, pixels[z + i - n], up, corner)) % 256;
    }
  }

  lemma ZeroPrior(pixels: seq<Byte>, z: nat, stride: nat, w: nat, first: bool)
    requires first || (stride <= z && z - stride + w <= |pixels|)
    ensures first ==> PriorAt(pixels, z, stride, w, first) == Zeros(w)
  {
  }

  /** The filtered byte from its neighbours in the image. */
  lemma EncodedByte(pixels: seq<Byte>, stride: nat, z: nat, first: bool, w: nat, n: nat, filter: nat, i: nat,
                    left: Byte, up: Byte, corner: Byte)
    requires 1 <= n <= w && filter <= 4 && i < w && z + w <= |pixels|
    requires (first || (stride <= z && z - stride + w <= |pixels|))
    requires up == if first then 0 else pixels[z + i - stride]
    requires left == if i < n then 0 else pixels[z + i - n]
    requires corner == if first || i < n then 0 else pixels[z + i - stride - n]
    ensures var kind := if first then FirstRowFilter(filter) else filter;
            FilteredByte(filter, n, RowAt(pixels, z, w), PriorAt(pixels, z, stride, w, first), i)
            == (pixels[z + i] - if i < n then FirstPixelTerm(kind, up) else Term(kind, left, up, corner)) % 256
  {
    hide Term, FirstPixelTerm, Predict;
    TermIsPredict(filter, first, left, up, corner);
  }

  /** Unfilter one line into `out[cur..cur + w]`; the row above lies `stride` bytes earlier. */
  method DecodeLine(out: array<Byte>, cur: nat, stride: nat, first: bool, filter: nat, fb: nat, raw: seq<Byte>)
    requires 1 <= fb <= |raw| && filter <= 4 && cur + |raw| <= out.Length
    requires !first ==> |raw| <= stride <= cur
    modifies out
    ensures out[cur..cur + |raw|]
         == Recon(filter, fb, raw, old(PriorAt(out[..], cur, stride, |raw|, first)), |raw|)
    ensures forall k :: 0 <= k < out.Length && !(cur <= k < cur + |raw|) ==> out[k] == old(out[k])
  {
    hide Term, FirstPixelTerm, Predict, Recon;
    ghost var prior := PriorAt(out[..], cur, stride, |raw|, first);
    ghost var row := Recon(filter, fb, raw, prior, |raw|);
    var kind := if first then FirstRowFilter(filter) else filter;
    for k := 0 to fb
      invariant forall m :: 0 <= m < k ==> out[cur + m] == row[m]
      invariant forall m :: 0 <= m < out.Length && !(cur <= m < cur + k) ==> out[m] == old(out[m])
    {
      var up := if first then 0 else out[cur + k - stride];
      LineByte(filter, first, fb, raw, prior, k, 0, up, 0);
      out[cur + k] := (raw[k] + FirstPixelTerm(kind, up)) % 256;
    }
    for k := fb to |raw|
      invariant forall m :: 0 <= m < k ==> out[cur + m] == row[m]
      invariant forall m :: 0 <= m < out.Length && !(cur <= m < cur + k) ==> out[m] == old(out[m])
    {
      var up := if first then 0 else out[cur + k - stride];
      var corner := if first then 0 else out[cur + k - stride - fb];
      var left := out[cur + k - fb];
      assert left == out[cur + (k - fb)] == row[k - fb];
      LineByte(filter, first, fb, raw, prior, k, left, up, corner);
      out[cur + k] := (raw[k] + Term(kind, left, up, corner)) % 256;
    }
  }

  /** A byte unfiltered from its neighbours is the byte of the row. */
  lemma LineByte(filter: nat, first: bool, fb: nat, raw: Row, prior: Row, k: nat, left: Byte, up: Byte, corner: Byte)
    requires fb >= 1 && filter <= 4 && |raw| == |prior| && k < |raw| && (first ==> prior == Zeros(|raw|))
    requires up == prior[k] && left == LeftOf(Recon(filter, fb, raw, prior, |raw|), k, fb)
    requires corner == LeftOf(prior, k, fb)
    ensures var kind := if first then FirstRowFilter(filter) else filter;
            Recon(filter, fb, raw, prior, |raw|)[k]
            == (raw[k] + if k < fb then FirstPixelTerm(kind, up) else Term(kind, left, up, corner)) % 256
  {
    hide Term, FirstPixelTerm, Predict, Recon;
    ReconAt(filter, fb, raw, prior, |raw|, k);
    TermIsPredict(filter, first, left, up, corner);
  }

  // ----- unfiltering while inserting an alpha channel

  /** One pixel of `n` bytes at `at`, then 255; `q` is where the pixel lies in the plain row. */
  method AlphaPixel(out: array<Byte>, at: nat, stride: nat, first: bool, start: bool, filter: nat, n: nat,
                    raw: seq<Byte>, q: nat, ghost prior: Row)
    requires n >= 1 && filter <= 4 && |raw| == |prior| && q + n <= |raw| && at + n < out.Length
    requires start <==> q == 0
    requires !start ==> n <= q && n < at && out[at - n - 1..at - 1] == Recon(filter, n, raw, prior, |raw|)[q - n..q]
    requires first ==> prior == Zeros(|raw|)
    requires !first ==> n < stride <= at && out[at - stride..at - stride + n] == prior[q..q + n]
    requires !first && !start ==> n < at - stride && out[at - stride - n - 1..at - stride - 1] == prior[q - n..q]
    modifies out
    ensures out[at..at + n] == Recon(filter, n, raw, prior, |raw|)[q..q + n] && out[at + n] == 255
    ensures forall k :: 0 <= k < out.Length && !(at <= k <= at + n) ==> out[k] == old(out[k])
  {
    hide DecodedByte, Predict, Recon;
    ghost var row := Recon(filter, n, raw, prior, |raw|);
    ghost var pixel, was := row[q..q + n], out[..];
    var kind := if first then FirstRowFilter(filter) else filter;
    for k := 0 to n
      invariant forall m :: 0 <= m < k ==> out[at + m] == pixel[m]
      invariant forall m :: 0 <= m < out.Length && !(at <= m < at + k) ==> out[m] == was[m]
    {
      var up := if first then 0 else out[at + k - stride];
      var left := if start then 0 else out[at + k - n - 1];
      var corner := if first || start then 0 else out[at + k - stride - n - 1];
      AlphaNeighbours(was, at, stride, first, start, n, q, k, row, prior);
      AlphaByte(filter, first, start, n, raw, prior, q + k, left, up, corner);
      out[at + k] := DecodedByte(kind, start, raw[q + k], left, up, corner);
    }
    out[at + n] := 255;
  }

  /** One byte of output: the special case at the first pixel, the general one after it. */
  function DecodedByte(kind: nat, start: bool, x: Byte, left: Byte, up: Byte, corner: Byte): Byte
    requires kind <= 6
  {
    (x + if start then FirstPixelTerm(kind, up) else Term(kind, left, up, corner)) % 256
  }

  lemma DecodedIs(filter: nat, first: bool, start: bool, x: Byte, left: Byte, up: Byte, corner: Byte)
    requires filter <= 4 && (first ==> up == 0 && corner == 0) && (start ==> left == 0 && corner == 0)
    ensures DecodedByte(if first then FirstRowFilter(filter) else filter, start, x, left, up, corner)
         == (x + Predict(filter, left, up, corner)) % 256
  {
    hide Term, FirstPixelTerm, Predict, FirstRowFilter;
    TermIsPredict(filter, first, left, up, corner);
  }

  /** The neighbours of byte `k` of the pixel, where the output holds them. */
  /** A byte decoded from its neighbours is the byte of the row. */
  lemma AlphaByte(filter: nat, first: bool, start: bool, n: nat, raw: Row, prior: Row, i: nat,
                  left: Byte, up: Byte, corner: Byte)
    requires n >= 1 && filter <= 4 && |raw| == |prior| && i < |raw|
    requires up == prior[i] && left == LeftOf(Recon(filter, n, raw, prior, |raw|), i, n)
    requires corner == LeftOf(prior, i, n)
    requires (first ==> up == 0 && corner == 0) && (start ==> left == 0 && corner == 0)
    ensures DecodedByte(if first then FirstRowFilter(filter) else filter, start, raw[i], left, up, corner)
         == Recon(filter, n, raw, prior, |raw|)[i]
  {
    hide DecodedByte, Predict, Recon;
    ReconAt(filter, n, raw, prior, |raw|, i);
    DecodedIs(filter, first, start, raw[i], left, up, corner);
  }

  lemma AlphaNeighbours(was: seq<Byte>, at: nat, stride: nat, first: bool, start: bool, n: nat, q: nat, k: nat,
                        row: Row, prior: Row)
    requires n >= 1 && k < n && |row| == |prior| && q + n <= |row| && at + n < |was|
    requires start <==> q == 0
    requires !start ==> n <= q && n < at && was[at - n - 1..at - 1] == row[q - n..q]
    requires first ==> prior == Zeros(|row|)
    requires !first ==> n < stride <= at && was[at - stride..at - stride + n] == prior[q..q + n]
    requires !first && !start ==> n < at - stride && was[at - stride - n - 1..at - stride - 1] == prior[q - n..q]
    ensures prior[q + k] == if first then 0 else was[at + k - stride]
    ensures LeftOf(row, q + k, n) == if start then 0 else was[at + k - n - 1]
    ensures LeftOf(prior, q + k, n) == if first || start then 0 else was[at + k - stride - n - 1]
  {
    if !first {
      assert was[at - stride..at - stride + n][k] == prior[q..q + n][k];
    }
    if !start {
      assert was[at - n - 1..at - 1][k] == row[q - n..q][k];
      if !first {
        assert was[at - stride - n - 1..at - stride - 1][k] == prior[q - n..q][k];
      }
    }
  }

  /** A whole line: the plain row with 255 after every pixel. */
  method DecodeLineAlpha(out: array<Byte>, cur: nat, first: bool, filter: nat, n: nat, x: nat, raw: seq<Byte>,
                         ghost prior: Row)
    requires n >= 1 && x >= 1 && filter <= 4 && |raw| == |prior| == x * n && cur + x * n + x <= out.Length
    requires first ==> prior == Zeros(|raw|)
    requires !first ==> x * n + x <= cur && out[cur - (x * n + x)..cur] == WithAlpha(prior, n, x)
    modifies out
    ensures out[cur..cur + x * n + x] == WithAlpha(Recon(filter, n, raw, prior, |raw|), n, x)
    ensures forall k :: 0 <= k < out.Length && !(cur <= k < cur + x * n + x) ==> out[k] == old(out[k])
  {
    hide Recon, WithAlpha, Spelled;
    ghost var row := Recon(filter, n, raw, prior, |raw|);
    var w := x * n;
    var stride := w + x;
    if !first {
      IsSpelled(out[..], cur - stride, cur, prior, n, x);
    }
    NoneSpelled(out[..], cur, row, n);
    var at, q := cur, 0;
    for p := 0 to x
      invariant q == p * n && at == cur + q + p <= cur + stride
      invariant Spelled(out[..], cur, at, row, n, p)
      invariant !first ==> Spelled(out[..], cur - stride, cur, prior, n, x)
      invariant forall k :: 0 <= k < out.Length && !(cur <= k < at) ==> out[k] == old(out[k])
    {
      Advance(p, x, n);
      AlphaStep(out, cur, at, stride, first, filter, n, x, raw, p, q, prior);
      q := q + n;
      at := at + (n + 1);
    }
    AllSpelled(out[..], cur, at, row, n, x);
    assert out[..][cur..at] == out[cur..at];
  }

  /** From `lo` to `hi` lie the first `p` pixels of the row, each followed by 255. */
  ghost predicate Spelled(out: seq<Byte>, lo: nat, hi: nat, row: Row, n: nat, p: nat)
  {
    p * n <= |row| && lo <= hi <= |out| && out[lo..hi] == WithAlpha(row, n, p)
  }

  lemma IsSpelled(out: seq<Byte>, lo: nat, hi: nat, row: Row, n: nat, p: nat)
    requires p * n <= |row| && lo <= hi <= |out| && out[lo..hi] == WithAlpha(row, n, p)
    ensures Spelled(out, lo, hi, row, n, p)
  {
  }

  lemma NoneSpelled(out: seq<Byte>, lo: nat, row: Row, n: nat)
    requires lo <= |out|
    ensures Spelled(out, lo, lo, row, n, 0)
  {
  }

  lemma AllSpelled(out: seq<Byte>, lo: nat, hi: nat, row: Row, n: nat, p: nat)
    requires Spelled(out, lo, hi, row, n, p)
    ensures p * n <= |row| && lo <= hi <= |out| && out[lo..hi] == WithAlpha(row, n, p)
  {
  }

  lemma SpelledMore(was: seq<Byte>, out: seq<Byte>, lo: nat, hi: nat, row: Row, n: nat, p: nat, q: nat)
    requires Spelled(was, lo, hi, row, n, p) && |out| == |was| && q == p * n && q + n <= |row| && hi + n < |out|
    requires forall k :: lo <= k < hi ==> out[k] == was[k]
    requires out[hi..hi + n] == row[q..q + n] && out[hi + n] == 255
    ensures Spelled(out, lo, hi + (n + 1), row, n, p + 1)
  {
    hide WithAlpha;
    MulSucc(p, n);
    WithAlphaNext(row, n, p);
    assert out[lo..hi] == was[lo..hi];
    assert out[lo..hi + n + 1] == out[lo..hi] + out[hi..hi + n] + [out[hi + n]];
  }

  lemma SpelledKept(was: seq<Byte>, out: seq<Byte>, lo: nat, hi: nat, row: Row, n: nat, p: nat)
    requires Spelled(was, lo, hi, row, n, p) && |out| == |was| && forall k :: lo <= k < hi ==> out[k] == was[k]
    ensures Spelled(out, lo, hi, row, n, p)
  {
    hide WithAlpha;
    assert out[lo..hi] == was[lo..hi];
  }

  /** Pixel `r` of a spelled row. */
  lemma SpelledPixel(out: seq<Byte>, lo: nat, hi: nat, row: Row, n: nat, p: nat, r: nat, k: nat)
    requires Spelled(out, lo, hi, row, n, p) && r < p && k == r * n
    ensures k + n <= |row| && lo + k + r + n < hi <= |out| && out[lo + k + r..lo + k + r + n] == row[k..k + n]
  {
    hide WithAlpha;
    WithAlphaPixel(row, n, p, r);
    Within(out, lo, hi, k + r, n);
  }

  /** Pixel `p` of the line. */
  method AlphaStep(out: array<Byte>, ghost cur: nat, at: nat, stride: nat, first: bool, filter: nat, n: nat,
                   ghost x: nat, raw: seq<Byte>, p: nat, q: nat, ghost prior: Row)
    requires n >= 1 && filter <= 4 && p < x && |raw| == |prior| && stride == |raw| + x
    requires q == p * n && at == cur + q + p && at + n < out.Length && q + n <= |raw|
    requires q == 0 <==> p == 0
    requires p > 0 ==> q >= n && q - n == (p - 1) * n
    requires first ==> prior == Zeros(|raw|)
    requires !first ==> stride <= cur && Spelled(out[..], cur - stride, cur, prior, n, x)
    requires Spelled(out[..], cur, at, Recon(filter, n, raw, prior, |raw|), n, p)
    modifies out
    ensures Spelled(out[..], cur, at + (n + 1), Recon(filter, n, raw, prior, |raw|), n, p + 1)
    ensures !first ==> Spelled(out[..], cur - stride, cur, prior, n, x)
    ensures forall k :: 0 <= k < out.Length && !(at <= k <= at + n) ==> out[k] == old(out[k])
  {
    hide Recon, Spelled;
    ghost var row, was := Recon(filter, n, raw, prior, |raw|), out[..];
    PixelContext(was, cur, at, stride, first, n, x, p, q, row, prior);
    AlphaPixel(out, at, stride, first, p == 0, filter, n, raw, q, prior);
    SpelledMore(was, out[..], cur, at, row, n, p, q);
    if !first {
      SpelledKept(was, out[..], cur - stride, cur, prior, n, x);
    }
  }

  lemma WithAlphaNone(row: Row, n: nat)
    ensures WithAlpha(row, n, 0) == []
  {
  }

  lemma WithAlphaNext(row: Row, n: nat, p: nat)
    requires (p + 1) * n <= |row|
    ensures p * n + n == (p + 1) * n
    ensures WithAlpha(row, n, p + 1) == WithAlpha(row, n, p) + row[p * n..p * n + n] + [255]
  {
    Products(p + 1, n);
  }

  lemma Advance(p: nat, x: nat, n: nat)
    requires p < x && n >= 1
    ensures p * n + n == (p + 1) * n <= x * n
    ensures p * n + p + n + 1 <= x * n + x
    ensures p * n == 0 <==> p == 0
    ensures p > 0 ==> p * n >= n && p * n - n == (p - 1) * n
  {
    MulSucc(p, n);
    MulLe(p + 1, x, n);
    if p > 0 {
      MulGe(p, n);
      MulSub(p, 1, n);
    }
  }

  /** What the pixel loop finds to the left of and above pixel `p`. */
  lemma PixelContext(out: seq<Byte>, cur: nat, at: nat, stride: nat, first: bool, n: nat, x: nat, p: nat, q: nat,
                     row: Row, prior: Row)
    requires n >= 1 && p < x && |row| == |prior| && stride == |row| + x
    requires q == p * n && at == cur + q + p && at + n < |out| && q + n <= |row|
    requires p > 0 ==> q >= n && q - n == (p - 1) * n
    requires Spelled(out, cur, at, row, n, p)
    requires !first ==> stride <= cur && Spelled(out, cur - stride, cur, prior, n, x)
    ensures p > 0 ==> n < at && out[at - n - 1..at - 1] == row[q - n..q]
    ensures !first ==> n < stride <= at && out[at - stride..at - stride + n] == prior[q..q + n]
    ensures !first && p > 0 ==> n < at - stride && out[at - stride - n - 1..at - stride - 1] == prior[q - n..q]
  {
    hide Spelled;
    if p > 0 {
      SpelledPixel(out, cur, at, row, n, p, p - 1, q - n);
    }
    if !first {
      SpelledPixel(out, cur - stride, cur, prior, n, x, p, q);
      if p > 0 {
        SpelledPixel(out, cur - stride, cur, prior, n, x, p - 1, q - n);
      }
    }
  }

  lemma Within(s: seq<Byte>, lo: nat, hi: nat, k: nat, n: nat)
    requires lo + k + n <= hi <= |s|
    ensures s[lo..hi][k..k + n] == s[lo + k..lo + k + n]
  {
    var a, b := s[lo..hi][k..k + n], s[lo + k..lo + k + n];
    assert |a| == |b|;
    assert forall i :: 0 <= i < n ==> a[i] == s[lo..hi][k + i] == b[i];
  }
}
