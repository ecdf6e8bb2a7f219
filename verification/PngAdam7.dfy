/** De-interlacing: the seven passes of section 2.6 of RFC 2083. */
module PngAdam7 {
  import opened Words
  import opened Slices
  import opened PngImage

  const XORIG: seq<nat> := [0, 4, 0, 2, 0, 1, 0]
  const YORIG: seq<nat> := [0, 0, 4, 0, 2, 0, 1]
  const XSPC: seq<nat> := [8, 8, 4, 4, 2, 2, 1]
  const YSPC: seq<nat> := [8, 8, 8, 4, 4, 2, 2]

  /** `(v - orig + spc - 1) / spc` in 32-bit unsigned arithmetic. */
  function PassSize(v: nat, orig: nat, spc: nat): nat
    requires spc > 0
  {
    Shrink((v - orig + spc - 1) % 0x1_0000_0000, spc)
  }

  function Shrink(v: nat, d: nat): nat
    requires d > 0
  {
    DivNonneg(v, d);
    v / d
  }

  function PassX(w: nat, p: nat): nat
    requires p < 7
  {
    PassSize(w, XORIG[p], XSPC[p])
  }

  function PassY(h: nat, p: nat): nat
    requires p < 7
  {
    PassSize(h, YORIG[p], YSPC[p])
  }

  /** Sizes the reader accepts. */
  const MAX_DIMENSION: nat := 0x100_0000

  /** No size wraps: a pass has exactly the columns (or rows) that fall on its grid. */
  lemma PassSizeCounts(v: nat, orig: nat, spc: nat, i: nat)
    requires v <= MAX_DIMENSION && orig < spc <= 8
    ensures i < PassSize(v, orig, spc) <==> i * spc + orig < v
  {
    var top := v - orig + spc - 1;
    DivModIs(top, 0x1_0000_0000, 0, top);
    DivLt(top, spc, i + 1);
    MulSucc(i, spc);
  }

  // ----- every pixel belongs to exactly one pass

  function PassOf(x: nat, y: nat): (p: nat)
    ensures p < 7
  {
    if y % 2 == 1 then 6
    else if x % 2 == 1 then 5
    else if y % 4 == 2 then 4
    else if x % 4 == 2 then 3
    else if y % 8 == 4 then 2
    else if x % 8 == 4 then 1
    else 0
  }

  /** The pattern of section 2.6 of RFC 2083, with passes counted from one. */
  const PATTERN: seq<seq<nat>> := [
    [1, 6, 4, 6, 2, 6, 4, 6],
    [7, 7, 7, 7, 7, 7, 7, 7],
    [5, 6, 5, 6, 5, 6, 5, 6],
    [7, 7, 7, 7, 7, 7, 7, 7],
    [3, 6, 4, 6, 3, 6, 4, 6],
    [7, 7, 7, 7, 7, 7, 7, 7],
    [5, 6, 5, 6, 5, 6, 5, 6],
    [7, 7, 7, 7, 7, 7, 7, 7]]

  /** A pixel belongs to the pass its place in the pattern says. */
  lemma PassByPattern(x: nat, y: nat)
    ensures PATTERN[y % 8][x % 8] == PassOf(x, y) + 1
  {
    SameRemainders(x);
    SameRemainders(y);
    PatternAt(x % 8, y % 8);
    hide PATTERN;
  }

  lemma SameRemainders(x: nat)
    ensures x % 8 % 2 == x % 2 && x % 8 % 4 == x % 4 && x % 8 % 8 == x % 8
  {
    var q, m := x / 8, x % 8;
    DivModIs(x, 2, 4 * q + m / 2, m % 2);
    DivModIs(x, 4, 2 * q + m / 4, m % 4);
  }

  lemma PatternAt(a: nat, b: nat)
    requires a < 8 && b < 8
    ensures PATTERN[b][a] == PassOf(a, b) + 1
  {
    match b
    case 0 =>
    case 1 =>
    case 2 =>
    case 3 =>
    case 4 =>
    case 5 =>
    case 6 =>
    case 7 =>
  }

  predicate OnGrid(x: nat, y: nat, p: nat)
    requires p < 7
  {
    x % XSPC[p] == XORIG[p] && y % YSPC[p] == YORIG[p]
  }

  lemma OnePass(x: nat, y: nat, p: nat)
    requires p < 7
    ensures OnGrid(x, y, p) <==> p == PassOf(x, y)
  {
    Eighths(x);
    Eighths(y);
    match p
    case 0 =>
    case 1 =>
    case 2 =>
    case 3 =>
    case 4 =>
    case 5 =>
    case 6 =>
  }

  lemma Eighths(v: nat)
    ensures v % 8 < 8 && v % 4 == v % 8 % 4 && v % 2 == v % 8 % 2
  {
    var q, m := v / 8, v % 8;
    DivModIs(v, 4, 2 * q + m / 4, m % 4);
    DivModIs(v, 2, 4 * q + m / 2, m % 2);
  }

  /** A size split by parity, as the passes split it. */
  lemma SizeSplits(v: nat)
    requires v <= MAX_DIMENSION
    ensures PassSize(v, 0, 8) + PassSize(v, 4, 8) == PassSize(v, 0, 4)
    ensures PassSize(v, 0, 4) + PassSize(v, 2, 4) == PassSize(v, 0, 2)
    ensures PassSize(v, 0, 2) + PassSize(v, 1, 2) == PassSize(v, 0, 1) == v
  {
    SizeIs(v, 0, 8);
    SizeIs(v, 4, 8);
    SizeIs(v, 0, 4);
    SizeIs(v, 2, 4);
    SizeIs(v, 0, 2);
    SizeIs(v, 1, 2);
    SizeIs(v, 0, 1);
    Halves(v, PassSize(v, 0, 8), PassSize(v, 4, 8), PassSize(v, 0, 4), PassSize(v, 2, 4));
  }

  lemma SizeIs(v: nat, orig: nat, spc: nat)
    requires v <= MAX_DIMENSION && orig < spc <= 8
    ensures PassSize(v, orig, spc) == (v - orig + spc - 1) / spc
  {
    DivModIs(v - orig + spc - 1, 0x1_0000_0000, 0, v - orig + spc - 1);
  }

  lemma Halves(v: nat, a: int, b: int, c: int, d: int)
    requires a == (v + 7) / 8 && b == (v + 3) / 8 && c == (v + 3) / 4 && d == (v + 1) / 4
    ensures a + b == c && c + d == (v + 1) / 2 && (v + 1) / 2 + v / 2 == v
  {
    var q, m := v / 8, v % 8;
    assert v == 8 * q + m;
    HalvesOf(q, m);
    SmallHalves(m);
  }

  lemma SmallHalves(m: nat)
    requires m < 8
    ensures (m + 7) / 8 + (m + 3) / 8 == (m + 3) / 4 && (m + 3) / 4 + (m + 1) / 4 == (m + 1) / 2
    ensures (m + 1) / 2 + m / 2 == m
  {
  }

  lemma HalvesOf(q: nat, m: nat)
    requires m < 8
    ensures var v := 8 * q + m;
            && (v + 7) / 8 == q + (m + 7) / 8 && (v + 3) / 8 == q + (m + 3) / 8
            && (v + 3) / 4 == 2 * q + (m + 3) / 4 && (v + 1) / 4 == 2 * q + (m + 1) / 4
            && (v + 1) / 2 == 4 * q + (m + 1) / 2 && v / 2 == 4 * q + m / 2
  {
  }

  function Area(w: nat, h: nat, p: nat): int
    requires p < 7
  {
    PassX(w, p) * PassY(h, p)
  }

  /** The areas of the passes add up to the image. */
  lemma Areas(w: nat, h: nat)
    requires w <= MAX_DIMENSION && h <= MAX_DIMENSION
    ensures Area(w, h, 0) + Area(w, h, 1) + Area(w, h, 2) + Area(w, h, 3)
            + Area(w, h, 4) + Area(w, h, 5) + Area(w, h, 6) == w * h
  {
    hide PassSize;
    SizeSplits(w);
    SizeSplits(h);
    Tiles(PassSize(w, 0, 8), PassSize(w, 4, 8), PassSize(w, 2, 4), PassSize(w, 1, 2),
          PassSize(h, 0, 8), PassSize(h, 4, 8), PassSize(h, 2, 4), PassSize(h, 1, 2));
  }

  lemma Tiles(a: int, b: int, c: int, d: int, e: int, f: int, g: int, i: int)
    ensures a * e + b * e + (a + b) * f + c * (e + f) + (a + b + c) * g + d * (e + f + g) + (a + b + c + d) * i
         == (a + b + c + d) * (e + f + g + i)
  {
  }

  // ----- pixels

  function At(x: nat, y: nat, w: nat): nat
  {
    MulNonneg(y, w);
    y * w + x
  }

  lemma AtInside(x: nat, y: nat, w: nat, h: nat, b: nat)
    requires x < w && y < h
    ensures At(x, y, w) < w * h && 0 <= w * h
    ensures At(x, y, w) * b + b <= w * h * b
  {
    MulLe(y + 1, h, w);
    MulSucc(y, w);
    MulSucc(At(x, y, w), b);
    MulLe(At(x, y, w) + 1, w * h, b);
  }

  lemma AtOnce(x: nat, y: nat, x1: nat, y1: nat, w: nat)
    requires x < w && x1 < w && At(x, y, w) == At(x1, y1, w)
    ensures x == x1 && y == y1
  {
    DivModIs(At(x, y, w), w, y, x);
    DivModIs(At(x, y, w), w, y1, x1);
  }

  /** `memcpy` of one pixel. */
  method CopyPixel(out: array<Byte>, n: nat, src: seq<Byte>, m: nat, b: nat)
    requires n * b + b <= out.Length && m * b + b <= |src|
    modifies out
    ensures Pixel(out[..], n, b) == Pixel(src, m, b)
    ensures forall k: nat :: k != n && k * b + b <= out.Length ==> Pixel(out[..], k, b) == old(Pixel(out[..], k, b))
  {
    hide Pixel;
    MulNonneg(n, b);
    MulNonneg(m, b);
    var to, from := n * b, m * b;
    ghost var was := out[..];
    for c := 0 to b
      invariant forall q :: 0 <= q < out.Length && !(to <= q < to + c) ==> out[q] == was[q]
      invariant out[to..to + c] == src[from..from + c]
    {
      out[to + c] := src[from + c];
    }
    PixelCopied(was, out[..], n, src, m, b);
  }

  lemma PixelCopied(was: seq<Byte>, now: seq<Byte>, n: nat, src: seq<Byte>, m: nat, b: nat)
    requires |was| == |now| && n * b + b <= |now| && m * b + b <= |src| && 0 <= n * b && 0 <= m * b
    requires forall q :: 0 <= q < |now| && !(n * b <= q < n * b + b) ==> now[q] == was[q]
    requires now[n * b..n * b + b] == src[m * b..m * b + b]
    ensures Pixel(now, n, b) == Pixel(src, m, b)
    ensures forall k: nat :: k != n && k * b + b <= |now| ==> Pixel(now, k, b) == Pixel(was, k, b)
  {
    forall k: nat | k != n && k * b + b <= |now| ensures Pixel(now, k, b) == Pixel(was, k, b) {
      MulNonneg(k, b);
      if k < n {
        MulLe(k + 1, n, b);
        MulSucc(k, b);
      } else {
        MulLe(n + 1, k, b);
        MulSucc(n, b);
      }
    }
  }

  // ----- de-interlacing

  /** Each pass image has the size of its pass. */
  ghost predicate PassesFit(passes: seq<seq<Byte>>, w: nat, h: nat, b: nat)
  {
    |passes| == 7 && forall p :: 0 <= p < 7 ==> |passes[p]| == Area(w, h, p) * b
  }

  /** Pixel (`x`, `y`) of the image is pixel (`i`, `j`) of its pass. */
  ghost predicate Restored(out: seq<Byte>, passes: seq<seq<Byte>>, w: nat, b: nat, x: nat, y: nat)
  {
    var p := PassOf(x, y);
    var i, j := x / XSPC[p], y / YSPC[p];
    && |passes| == 7 && At(x, y, w) * b + b <= |out| && At(i, j, PassX(w, p)) * b + b <= |passes[p]|
    && Pixel(out, At(x, y, w), b) == Pixel(passes[p], At(i, j, PassX(w, p)), b)
  }

  ghost predicate Assembled(out: seq<Byte>, passes: seq<seq<Byte>>, w: nat, h: nat, b: nat)
  {
    |out| == w * h * b && forall x: nat, y: nat :: x < w && y < h ==> Restored(out, passes, w, b, x, y)
  }

  /** The order in which pixels are written. */
  predicate Before(x: nat, y: nat, p: nat, j: nat, i: nat)
  {
    var q := PassOf(x, y);
    q < p || (q == p && (y / YSPC[q] < j || (y / YSPC[q] == j && x / XSPC[q] < i)))
  }

  ghost predicate Sofar(out: seq<Byte>, passes: seq<seq<Byte>>, w: nat, h: nat, b: nat, p: nat, j: nat, i: nat)
  {
    |out| == w * h * b
    && forall x: nat, y: nat :: x < w && y < h && Before(x, y, p, j, i) ==> Restored(out, passes, w, b, x, y)
  }

  /** Where pixel (`i`, `j`) of a pass goes. */
  lemma Target(p: nat, i: nat, j: nat, w: nat, h: nat, x: nat, y: nat)
    requires p < 7 && w <= MAX_DIMENSION && h <= MAX_DIMENSION && i < PassX(w, p) && j < PassY(h, p)
    requires x == i * XSPC[p] + XORIG[p] && y == j * YSPC[p] + YORIG[p]
    ensures x < w && y < h && PassOf(x, y) == p && x / XSPC[p] == i && y / YSPC[p] == j
  {
    hide PassSize, PassOf;
    PassSizeCounts(w, XORIG[p], XSPC[p], i);
    PassSizeCounts(h, YORIG[p], YSPC[p], j);
    DivModIs(x, XSPC[p], i, XORIG[p]);
    DivModIs(y, YSPC[p], j, YORIG[p]);
    OnePass(x, y, p);
  }

  /** A pixel of a pass lies in the pass image. */
  lemma Source(x: nat, y: nat, w: nat, h: nat)
    requires w <= MAX_DIMENSION && h <= MAX_DIMENSION && x < w && y < h
    ensures var p := PassOf(x, y);
            && x / XSPC[p] < PassX(w, p) && y / YSPC[p] < PassY(h, p)
            && x == x / XSPC[p] * XSPC[p] + XORIG[p] && y == y / YSPC[p] * YSPC[p] + YORIG[p]
  {
    hide PassSize, PassOf;
    var p := PassOf(x, y);
    OnePass(x, y, p);
    PassSizeCounts(w, XORIG[p], XSPC[p], x / XSPC[p]);
    PassSizeCounts(h, YORIG[p], YSPC[p], y / YSPC[p]);
  }

  lemma OneMorePixel(was: seq<Byte>, now: seq<Byte>, passes: seq<seq<Byte>>, w: nat, h: nat, b: nat, p: nat, j: nat,
                     i: nat,
                     x0: nat, y0: nat)
    requires p < 7 && w <= MAX_DIMENSION && h <= MAX_DIMENSION && i < PassX(w, p) && j < PassY(h, p)
    requires x0 == i * XSPC[p] + XORIG[p] && y0 == j * YSPC[p] + YORIG[p]
    requires Sofar(was, passes, w, h, b, p, j, i) && |now| == |was|
    requires Restored(now, passes, w, b, x0, y0)
    requires forall k: nat :: k != At(x0, y0, w) && k * b + b <= |now| ==> Pixel(now, k, b) == Pixel(was, k, b)
    ensures Sofar(now, passes, w, h, b, p, j, i + 1)
  {
    hide PassSize, PassOf, At, Pixel;
    forall x: nat, y: nat | x < w && y < h && Before(x, y, p, j, i + 1) ensures Restored(now, passes, w, b, x, y) {
      Source(x, y, w, h);
      if x != x0 || y != y0 {
        assert Before(x, y, p, j, i);
        assert Restored(was, passes, w, b, x, y);
        Target(p, i, j, w, h, x0, y0);
        if At(x, y, w) == At(x0, y0, w) {
          AtOnce(x, y, x0, y0, w);
        }
      }
    }
  }

  lemma RowDone(out: seq<Byte>, passes: seq<seq<Byte>>, w: nat, h: nat, b: nat, p: nat, j: nat)
    requires p < 7 && w <= MAX_DIMENSION && h <= MAX_DIMENSION && Sofar(out, passes, w, h, b, p, j, PassX(w, p))
    ensures Sofar(out, passes, w, h, b, p, j + 1, 0)
  {
    hide PassSize, PassOf, Restored;
    forall x: nat, y: nat | x < w && y < h && Before(x, y, p, j + 1, 0) ensures Restored(out, passes, w, b, x, y) {
      Source(x, y, w, h);
      assert Before(x, y, p, j, PassX(w, p));
    }
  }

  /** A pass without columns or rows has no pixels. */
  lemma PassDone(out: seq<Byte>, passes: seq<seq<Byte>>, w: nat, h: nat, b: nat, p: nat, j: nat)
    requires p < 7 && w <= MAX_DIMENSION && h <= MAX_DIMENSION && Sofar(out, passes, w, h, b, p, j, 0)
    requires PassX(w, p) == 0 || j >= PassY(h, p)
    ensures Sofar(out, passes, w, h, b, p + 1, 0, 0)
  {
    hide PassSize, PassOf, Restored;
    forall x: nat, y: nat | x < w && y < h && Before(x, y, p + 1, 0, 0) ensures Restored(out, passes, w, b, x, y) {
      Source(x, y, w, h);
      assert Before(x, y, p, j, 0);
    }
  }

  /** The copy loops of one pass. */
  method CopyPass(out: array<Byte>, p: nat, pass: seq<Byte>, w: nat, h: nat, b: nat, ghost passes: seq<seq<Byte>>)
    requires p < 7 && w <= MAX_DIMENSION && h <= MAX_DIMENSION && |passes| == 7 && pass == passes[p]
    requires |pass| == Area(w, h, p) * b
    requires Sofar(out[..], passes, w, h, b, p, 0, 0)
    modifies out
    ensures Sofar(out[..], passes, w, h, b, p + 1, 0, 0)
  {
    hide PassSize, Sofar;
    var x, y := PassX(w, p), PassY(h, p);
    for j := 0 to y
      invariant Sofar(out[..], passes, w, h, b, p, j, 0)
    {
      for i := 0 to x
        invariant Sofar(out[..], passes, w, h, b, p, j, i)
      {
        CopyOne(out, p, pass, w, h, b, j, i, passes);
      }
      RowDone(out[..], passes, w, h, b, p, j);
    }
    PassDone(out[..], passes, w, h, b, p, y);
  }

  method CopyOne(out: array<Byte>, p: nat, pass: seq<Byte>, w: nat, h: nat, b: nat, j: nat, i: nat,
                 ghost passes: seq<seq<Byte>>)
    requires p < 7 && w <= MAX_DIMENSION && h <= MAX_DIMENSION && |passes| == 7 && pass == passes[p]
    requires |pass| == Area(w, h, p) * b
    requires i < PassX(w, p) && j < PassY(h, p) && Sofar(out[..], passes, w, h, b, p, j, i)
    modifies out
    ensures Sofar(out[..], passes, w, h, b, p, j, i + 1)
  {
    hide PassSize, PassOf, At, Pixel;
    MulNonneg(j, YSPC[p]);
    MulNonneg(i, XSPC[p]);
    var out_y := j * YSPC[p] + YORIG[p];
    var out_x := i * XSPC[p] + XORIG[p];
    Target(p, i, j, w, h, out_x, out_y);
    AtInside(out_x, out_y, w, h, b);
    AtInside(i, j, PassX(w, p), PassY(h, p), b);
    ghost var was := out[..];
    CopyPixel(out, At(out_x, out_y, w), pass, At(i, j, PassX(w, p)), b);
    OneMorePixel(was, out[..], passes, w, h, b, p, j, i, out_x, out_y);
  }

  lemma Finished(out: seq<Byte>, passes: seq<seq<Byte>>, w: nat, h: nat, b: nat)
    requires Sofar(out, passes, w, h, b, 7, 0, 0)
    ensures Assembled(out, passes, w, h, b)
  {
    hide PassOf, Restored;
    forall x: nat, y: nat | x < w && y < h ensures Restored(out, passes, w, b, x, y) {
      assert Before(x, y, 7, 0, 0);
    }
  }

  // ----- the inverse of sub-sampling

  /** The passes are the sub-images of an image. */
  ghost predicate Subsampled(passes: seq<seq<Byte>>, img: seq<Byte>, w: nat, h: nat, b: nat)
  {
    && PassesFit(passes, w, h, b) && |img| == w * h * b
    && forall p: nat, i: nat, j: nat :: p < 7 && i < PassX(w, p) && j < PassY(h, p) ==>
       SamePixel(passes, img, w, b, p, i, j)
  }

  ghost predicate SamePixel(passes: seq<seq<Byte>>, img: seq<Byte>, w: nat, b: nat, p: nat, i: nat, j: nat)
    requires p < 7
  {
    var x: int, y: int := i * XSPC[p] + XORIG[p], j * YSPC[p] + YORIG[p];
    && x >= 0 && y >= 0
    && |passes| == 7 && At(i, j, PassX(w, p)) * b + b <= |passes[p]| && At(x, y, w) * b + b <= |img|
    && Pixel(passes[p], At(i, j, PassX(w, p)), b) == Pixel(img, At(x, y, w), b)
  }

  lemma Reassembled(out: seq<Byte>, passes: seq<seq<Byte>>, img: seq<Byte>, w: nat, h: nat, b: nat)
    requires w <= MAX_DIMENSION && h <= MAX_DIMENSION && b > 0
    requires Assembled(out, passes, w, h, b) && Subsampled(passes, img, w, h, b)
    ensures out == img
  {
    hide PassSize, PassOf, Pixel, At;
    forall x: nat, y: nat | x < w && y < h
      ensures At(x, y, w) * b + b <= |out| && Pixel(out, At(x, y, w), b) == Pixel(img, At(x, y, w), b)
    {
      Source(x, y, w, h);
      assert Restored(out, passes, w, b, x, y);
      var p := PassOf(x, y);
      assert SamePixel(passes, img, w, b, p, x / XSPC[p], y / YSPC[p]);
    }
    ByPixels(out, img, w, h, b);
  }

  /** Images with equal pixels are equal. */
  lemma ByPixels(s: seq<Byte>, t: seq<Byte>, w: nat, h: nat, b: nat)
    requires |s| == |t| == w * h * b && b > 0
    requires forall x: nat, y: nat :: x < w && y < h ==>
               At(x, y, w) * b + b <= |s| && Pixel(s, At(x, y, w), b) == Pixel(t, At(x, y, w), b)
    ensures s == t
  {
    hide At, Pixel;
    forall q | 0 <= q < |s| ensures s[q] == t[q] {
      var n, c := PixelIndex(q, w * h, b);
      var x, y := Coordinates(n, w, h);
      assert At(x, y, w) == n by { CoordinatesAt(n, x, y, w); }
      SameInPixel(s, t, n, c, b);
    }
  }

  lemma PixelIndex(q: nat, n: nat, b: nat) returns (k: nat, c: nat)
    requires b > 0 && q < n * b
    ensures q == k * b + c && c < b && k < n
  {
    DivNonneg(q, b);
    DivLt(q, b, n);
    k, c := q / b, q % b;
  }

  lemma Coordinates(n: nat, w: nat, h: nat) returns (x: nat, y: nat)
    requires n < w * h
    ensures n == y * w + x && x < w && y < h
  {
    assert w > 0 by { assert w == 0 ==> w * h == 0; }
    DivNonneg(n, w);
    DivLt(n, w, h);
    x, y := n % w, n / w;
  }

  lemma CoordinatesAt(n: nat, x: nat, y: nat, w: nat)
    requires n == y * w + x
    ensures At(x, y, w) == n
  {
  }

  lemma SameInPixel(s: seq<Byte>, t: seq<Byte>, n: nat, c: nat, b: nat)
    requires |s| == |t| && n * b + b <= |s| && c < b && Pixel(s, n, b) == Pixel(t, n, b)
    ensures 0 <= n * b + c < |s| && s[n * b + c] == t[n * b + c]
  {
    MulNonneg(n, b);
    assert Pixel(s, n, b)[c] == s[n * b + c] && Pixel(t, n, b)[c] == t[n * b + c];
  }

  // ----- from the filtered data

  /** The image put together from its passes. */
  ghost function Interleaved(passes: seq<seq<Byte>>, w: nat, h: nat, b: nat): (r: seq<Byte>)
    ensures (exists out: seq<Byte> :: Assembled(out, passes, w, h, b)) ==> Assembled(r, passes, w, h, b)
  {
    if out: seq<Byte> :| Assembled(out, passes, w, h, b) then out else []
  }

  /** The passes determine every pixel, so only one image can be put together from them. */
  lemma AssembledOnce(out: seq<Byte>, passes: seq<seq<Byte>>, w: nat, h: nat, b: nat)
    requires b > 0 && Assembled(out, passes, w, h, b)
    ensures Interleaved(passes, w, h, b) == out
  {
    hide PassSize, PassOf, Pixel, At;
    var t := Interleaved(passes, w, h, b);
    assert Assembled(t, passes, w, h, b);
    forall x: nat, y: nat | x < w && y < h
      ensures At(x, y, w) * b + b <= |t| && At(x, y, w) * b + b <= |out|
      ensures Pixel(out, At(x, y, w), b) == Pixel(t, At(x, y, w), b)
    {
      assert Restored(out, passes, w, b, x, y) && Restored(t, passes, w, b, x, y);
    }
    ByPixels(out, t, w, h, b);
  }

  datatype PassList = PassList(images: seq<seq<Byte>>) | BadPass

  /** Bytes of filtered data of a pass of 8-bit samples. */
  function PassBytes(w: nat, h: nat, n: nat, p: nat): int
    requires p < 7
  {
    PassY(h, p) * (PassX(w, p) * n + 1)
  }

  /** The images of passes `p` and on, one after the other in the data; empty ones take no data. */
  function PassImages(raw: seq<Byte>, w: nat, h: nat, n: nat, alpha: bool, p: nat): (r: PassList)
    requires p <= 7
    ensures r.PassList? ==> |r.images| == 7 - p
    decreases 7 - p
  {
    if p == 7 then PassList([])
    else if PassX(w, p) == 0 || PassY(h, p) == 0 then
      match PassImages(raw, w, h, n, alpha, p + 1)
      case BadPass => BadPass
      case PassList(rest) => PassList([[]] + rest)
    else
      match RawImage(raw, PassX(w, p), PassY(h, p), n, alpha)
      case BadImage => BadPass
      case Image(pixels) =>
        PassBytesFit(raw, w, h, n, alpha, p);
        match PassImages(raw[PassBytes(w, h, n, p)..], w, h, n, alpha, p + 1)
        case BadPass => BadPass
        case PassList(rest) => PassList([pixels] + rest)
  }

  lemma PassBytesFit(raw: seq<Byte>, w: nat, h: nat, n: nat, alpha: bool, p: nat)
    requires p < 7
    requires RawImage(raw, PassX(w, p), PassY(h, p), n, alpha).Image?
    ensures 0 <= PassBytes(w, h, n, p) <= |raw|
  {
    MulNonneg(PassX(w, p), n);
    MulNonneg(PassY(h, p), PassX(w, p) * n + 1);
  }

  /** `stbi__create_png_image` for an interlaced image of 8-bit samples. */
  method CreateInterlaced(raw: seq<Byte>, w: nat, h: nat, n: nat, alpha: bool) returns (ok: bool, out: array<Byte>)
    requires n >= 1 && w <= MAX_DIMENSION && h <= MAX_DIMENSION
    ensures var r := PassImages(raw, w, h, n, alpha, 0);
            && ok == r.PassList?
            && (ok ==> Assembled(out[..], r.images, w, h, if alpha then n + 1 else n))
  {
    hide Sofar, PassImages;
    var b := if alpha then n + 1 else n;
    out := new Byte[Size3(w, h, b)];
    ghost var full := PassImages(raw, w, h, n, alpha, 0);
    ghost var passes: seq<seq<Byte>> := seq(7, _ => []);
    var data := raw;
    NothingYet(out[..], passes, w, h, b);
    assert passes[..0] == [];
    for p := 0 to 7
      invariant |passes| == 7 && Sofar(out[..], passes, w, h, b, p, 0, 0)
      invariant forall q :: p <= q < 7 ==> passes[q] == []
      invariant full == Prefixed(passes[..p], PassImages(data, w, h, n, alpha, p))
    {
      ghost var was, px := passes, [];
      ok, data, px := DoPass(out, data, w, h, n, alpha, p, passes);
      if !ok {
        return;
      }
      passes := passes[p := px];
      assert passes[..p + 1] == was[..p] + [px];
      PrefixedTwice(was[..p], px, PassImages(data, w, h, n, alpha, p + 1));
    }
    assert passes[..7] == passes;
    NoneLeft(data, w, h, n, alpha, passes);
    Finished(out[..], passes, w, h, b);
    ok := true;
  }

  function Prefixed(a: seq<seq<Byte>>, r: PassList): PassList
  {
    if r.BadPass? then BadPass else PassList(a + r.images)
  }

  lemma PrefixedTwice(a: seq<seq<Byte>>, x: seq<Byte>, r: PassList)
    ensures Prefixed(a, Prefixed([x], r)) == Prefixed(a + [x], r)
  {
    if r.PassList? {
      assert a + ([x] + r.images) == a + [x] + r.images;
    }
  }

  lemma NoneLeft(raw: seq<Byte>, w: nat, h: nat, n: nat, alpha: bool, passes: seq<seq<Byte>>)
    ensures Prefixed(passes, PassImages(raw, w, h, n, alpha, 7)) == PassList(passes)
  {
    assert passes + [] == passes;
  }

  /** One pass: decoded from the data and copied, or skipped when it is empty. */
  method DoPass(out: array<Byte>, data: seq<Byte>, w: nat, h: nat, n: nat, alpha: bool, p: nat,
                ghost passes: seq<seq<Byte>>)
    returns (ok: bool, rest: seq<Byte>, ghost px: seq<Byte>)
    requires n >= 1 && w <= MAX_DIMENSION && h <= MAX_DIMENSION && p < 7 && |passes| == 7 && passes[p] == []
    requires Sofar(out[..], passes, w, h, if alpha then n + 1 else n, p, 0, 0)
    modifies out
    ensures PassImages(data, w, h, n, alpha, p)
            == if ok then Prefixed([px], PassImages(rest, w, h, n, alpha, p + 1)) else BadPass
    ensures ok ==> Sofar(out[..], passes[p := px], w, h, if alpha then n + 1 else n, p + 1, 0, 0)
  {
    hide RawImage, Sofar, PassBytes, PassX, PassY;
    var b := if alpha then n + 1 else n;
    ok, rest, px := true, data, [];
    var x, y := PassX(w, p), PassY(h, p);
    if x != 0 && y != 0 {
      var img;
      ok, img := CreateRaw8(data, x, y, n, alpha);
      if !ok {
        return;
      }
      px := img[..];
      PassBytesFit(data, w, h, n, alpha, p);
      Spread3(x, y, n);
      SofarElsewhere(out[..], passes, px, w, h, b, p);
      CopyPass(out, p, img[..], w, h, b, passes[p := px]);
      rest := data[PassBytes(w, h, n, p)..];
    } else {
      PassDone(out[..], passes, w, h, b, p, 0);
      assert passes[p := []] == passes;
    }
  }

  function Size3(w: nat, h: nat, b: nat): nat
  {
    MulNonneg(w, h);
    MulNonneg(w * h, b);
    w * h * b
  }

  lemma Spread3(x: int, y: int, n: int)
    ensures y * (x * n + x) == x * y * (n + 1) && y * (x * n) == x * y * n
  {
  }

  lemma NothingYet(out: seq<Byte>, passes: seq<seq<Byte>>, w: nat, h: nat, b: nat)
    requires |out| == w * h * b
    ensures Sofar(out, passes, w, h, b, 0, 0, 0)
  {
    hide PassOf, Restored;
  }

  /** Filling in a pass does not touch what earlier passes restored. */
  lemma SofarElsewhere(out: seq<Byte>, passes: seq<seq<Byte>>, img: seq<Byte>, w: nat, h: nat, b: nat, p: nat)
    requires p < 7 && |passes| == 7 && Sofar(out, passes, w, h, b, p, 0, 0)
    ensures Sofar(out, passes[p := img], w, h, b, p, 0, 0)
  {
    hide PassOf, PassSize, Pixel, At;
    forall x: nat, y: nat | x < w && y < h && Before(x, y, p, 0, 0)
      ensures Restored(out, passes[p := img], w, b, x, y)
    {
      assert Restored(out, passes, w, b, x, y);
    }
  }
}
