/** The picture a raster leaves: every pixel of the frame holds the colour of its own index. */
module GifImage {
  import opened Words
  import opened GifRows
  import opened BitStream
  import opened GifCursor
  import opened GifLzw
  import opened GifDecoder

  function PixelOf(cv: Canvas, p: nat): seq<Byte>
    requires 4 * p + 3 < |cv.out|
  {
    cv.out[4 * p..4 * p + 4]
  }

  /** What painting index `i` makes of a pixel. */
  function Shown(colors: seq<Byte>, i: Byte, was: seq<Byte>): seq<Byte>
    requires |colors| == 1024
  {
    if colors[4 * i + 3] > 128
    then [colors[4 * i + 2], colors[4 * i + 1], colors[4 * i], colors[4 * i + 3]]
    else was
  }

  function SpotAt(f: Frame, n: nat): (p: nat)
    requires Inside(f) && n < Total(f.w, f.h, f.interlaced)
    ensures p < Pixels(f)
  {
    CellOnce(f.w, f.h, f.interlaced, n, n);
    Spot(f, CellAt(f.w, f.h, f.interlaced, n))
  }

  lemma SpotOnce(f: Frame, m: nat, n: nat)
    requires Inside(f) && m < Total(f.w, f.h, f.interlaced) && n < Total(f.w, f.h, f.interlaced)
    requires SpotAt(f, m) == SpotAt(f, n)
    ensures m == n
  {
    hide Total, CellAt, Pixels;
    CellOnce(f.w, f.h, f.interlaced, m, n);
    CellOnce(f.w, f.h, f.interlaced, n, m);
    var a, b := CellAt(f.w, f.h, f.interlaced, m), CellAt(f.w, f.h, f.interlaced, n);
    var p := SpotAt(f, m);
    DivModIs(p, f.gw, f.y + a.row, f.x + a.col);
    DivModIs(p, f.gw, f.y + b.row, f.x + b.col);
  }

  lemma PaintedThere(out: seq<Byte>, p: nat, colors: seq<Byte>, i: Byte)
    requires 4 * p + 3 < |out| && |colors| == 1024
    ensures Painted(out, p, colors, i)[4 * p..4 * p + 4] == Shown(colors, i, out[4 * p..4 * p + 4])
  {
  }

  lemma PaintedElsewhere(out: seq<Byte>, p: nat, colors: seq<Byte>, i: Byte, q: nat)
    requires 4 * p + 3 < |out| && 4 * q + 3 < |out| && |colors| == 1024 && p != q
    ensures Painted(out, p, colors, i)[4 * q..4 * q + 4] == out[4 * q..4 * q + 4]
  {
  }

  /** A pixel whose turn has not come is unchanged. */
  lemma {:induction false} NotDrawn(f: Frame, colors: seq<Byte>, cv: Canvas, s: seq<Byte>, p: nat)
    requires Inside(f) && Fits(cv, f) && |colors| == 1024 && p < Pixels(f)
    requires forall m: nat :: m < |s| && m < Total(f.w, f.h, f.interlaced) ==> SpotAt(f, m) != p
    ensures PixelOf(DrawAll(f, colors, cv, 0, s), p) == PixelOf(cv, p)
    ensures DrawAll(f, colors, cv, 0, s).history[p] == cv.history[p]
    decreases |s|
  {
    hide Total, CellAt, Pixels, Painted, Spot;
    if s != [] {
      var k := |s| - 1;
      NotDrawn(f, colors, cv, s[..k], p);
      var before := DrawAll(f, colors, cv, 0, s[..k]);
      if k < Total(f.w, f.h, f.interlaced) {
        PaintedElsewhere(before.out, SpotAt(f, k), colors, s[k], p);
      }
    }
  }

  /** The `n`-th index is the one its pixel shows at the end. */
  lemma {:induction false} DrawnPixel(f: Frame, colors: seq<Byte>, cv: Canvas, s: seq<Byte>, n: nat)
    requires Inside(f) && Fits(cv, f) && |colors| == 1024
    requires n < |s| && n < Total(f.w, f.h, f.interlaced)
    ensures var p := SpotAt(f, n);
            && PixelOf(DrawAll(f, colors, cv, 0, s), p) == Shown(colors, s[n], PixelOf(cv, p))
            && DrawAll(f, colors, cv, 0, s).history[p] == 1
    decreases |s|
  {
    hide Total, CellAt, Pixels, Painted, Spot, Shown;
    var k, p := |s| - 1, SpotAt(f, n);
    var before := DrawAll(f, colors, cv, 0, s[..k]);
    if n == k {
      forall m: nat | m < k && m < Total(f.w, f.h, f.interlaced) ensures SpotAt(f, m) != p {
        if SpotAt(f, m) == p {
          SpotOnce(f, m, n);
        }
      }
      NotDrawn(f, colors, cv, s[..k], p);
      PaintedThere(before.out, p, colors, s[k]);
    } else {
      DrawnPixel(f, colors, cv, s[..k], n);
      if k < Total(f.w, f.h, f.interlaced) {
        if SpotAt(f, k) == p {
          SpotOnce(f, k, n);
        }
        PaintedElsewhere(before.out, SpotAt(f, k), colors, s[k], p);
      }
    }
  }

  /** The first frame of a file on a cleared canvas: every pixel that the raster reaches shows the
      colour of its own index. */
  method DecodeFrame(gw: nat, gh: nat, x: nat, y: nat, w: nat, h: nat, lflags: Byte, s: seq<Byte>, start: nat,
                     colors: seq<Byte>)
    returns (ok: bool, out: seq<Byte>)
    requires |colors| == 1024
    ensures var f := Frame(gw, gh, x, y, w, h, And(lflags, 0x40) != 0);
            var r := Decode(SubBlocks(s, start + 1), ByteAt(s, start), MaskRule);
            && (ok <==> Inside(f) && r.Drawn?)
            && (ok ==> |out| == 4 * Pixels(f))
            && (ok ==> forall n: nat :: n < |r.indices| && n < Total(w, h, f.interlaced) ==>
                 Shows(f, colors, out, n, r.indices[n]))
  {
    hide SubBlocks, Decode, And, DrawAll, Cursor.Scaled, Cursor.Underway, Total, Times;
    out := [];
    var cursor := new Cursor(gw, gh);
    ok := cursor.Describe(gw, gh, x, y, w, h, lflags);
    if !ok {
      return;
    }
    ghost var cv := cursor.View();
    var gif := new Gif(cursor);
    var pos;
    ok, pos := gif.ProcessRaster(s, start, colors);
    out := cursor.out[..];
    if ok {
      ghost var f, r := cursor.f, Decode(SubBlocks(s, start + 1), ByteAt(s, start), MaskRule);
      forall n: nat | n < |r.indices| && n < Total(w, h, f.interlaced) ensures Shows(f, colors, out, n, r.indices[n]) {
        DrawnPixel(f, colors, cv, r.indices, n);
        ClearPixel(cv, SpotAt(f, n));
      }
    }
  }

  ghost predicate Shows(f: Frame, colors: seq<Byte>, out: seq<Byte>, n: nat, i: Byte)
    requires Inside(f) && n < Total(f.w, f.h, f.interlaced) && |out| == 4 * Pixels(f) && |colors| == 1024
  {
    out[4 * SpotAt(f, n)..4 * SpotAt(f, n) + 4] == Shown(colors, i, [0, 0, 0, 0])
  }

  lemma ClearPixel(cv: Canvas, p: nat)
    requires 4 * p + 3 < |cv.out| && forall i :: 0 <= i < |cv.out| ==> cv.out[i] == 0
    ensures PixelOf(cv, p) == [0, 0, 0, 0]
  {
  }
}
