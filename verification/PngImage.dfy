/** Undoing the filters of a whole 8-bit image: the row loop of
    `stbi__create_png_image_raw`, with and without an inserted alpha channel. */
module PngImage {
  import opened Words
  import opened PngFilter
  import opened PngLines

  function FlatAlpha(rows: seq<Row>, n: nat, x: nat): Row
    requires AllOf(rows, x * n)
  {
    if rows == [] then [] else FlatAlpha(rows[..|rows| - 1], n, x) + WithAlpha(rows[|rows| - 1], n, x)
  }

  datatype Image = Image(pixels: seq<Byte>) | BadImage

  /** The pixels that `y` filtered lines at the start of `raw` stand for. */
  function RawImage(raw: seq<Byte>, x: nat, y: nat, n: nat, alpha: bool): Image
  {
    var w := x * n;
    var img_len := y * (w + 1);
    if !SizesValid(x, y, if alpha then n + 1 else n, 0) || !SizesValid(n, x, 8, 7) || |raw| < img_len then BadImage
    else
      match Unfilter(raw[..img_len], n, w)
      case BadFilter => BadImage
      case Rows(rows) => Image(if alpha then FlatAlpha(rows, n, x) else Flat(rows))
  }

  // ----- facts about line lists

  lemma UnfilterNext(raw: seq<Byte>, n: nat, w: nat, pos: nat)
    requires pos + w + 1 <= |raw|
    ensures Unfilter(raw[..pos + (w + 1)], n, w) ==
            match Unfilter(raw[..pos], n, w)
            case BadFilter => BadFilter
            case Rows(rows) =>
              if raw[pos] > 4 then BadFilter
              else Rows(rows + [Recon(raw[pos], n, raw[pos + 1..pos + (w + 1)], Prior(rows, w), w)])
  {
    hide Recon;
    var head := raw[..pos + (w + 1)];
    assert head[..pos] == raw[..pos] && head[pos] == raw[pos] && head[pos + 1..] == raw[pos + 1..pos + (w + 1)];
  }

  /** A bad filter byte spoils every longer list. */
  lemma {:induction false} BadStays(raw: seq<Byte>, n: nat, w: nat, pos: nat, lines: nat)
    requires pos + lines * (w + 1) <= |raw| && Unfilter(raw[..pos], n, w) == BadFilter
    ensures Unfilter(raw[..pos + lines * (w + 1)], n, w) == BadFilter
    decreases lines
  {
    hide Unfilter;
    if lines > 0 {
      MulSub(lines, 1, w + 1);
      BadStays(raw, n, w, pos, lines - 1);
      UnfilterNext(raw, n, w, pos + (lines - 1) * (w + 1));
    }
  }

  /** With whole rows laid out one after the other, the row above is the last one. */
  lemma PriorIsLast(out: seq<Byte>, cur: nat, w: nat, rows: seq<Row>)
    requires cur + w <= |out| && AllOf(rows, w) && out[..cur] == Flat(rows)
    ensures rows != [] ==> w <= cur
    ensures PriorAt(out, cur, w, w, rows == []) == Prior(rows, w)
  {
    if rows != [] {
      var last := rows[|rows| - 1];
      assert out[cur - w..cur] == out[..cur][cur - w..];
      assert Flat(rows)[|Flat(rows)| - w..] == last;
    }
  }

  lemma FlatNext(rows: seq<Row>, row: Row)
    ensures Flat(rows + [row]) == Flat(rows) + row
  {
    assert (rows + [row])[..|rows|] == rows;
  }

  lemma FlatAlphaNext(rows: seq<Row>, row: Row, n: nat, x: nat)
    requires AllOf(rows, x * n) && |row| == x * n
    ensures AllOf(rows + [row], x * n)
    ensures FlatAlpha(rows + [row], n, x) == FlatAlpha(rows, n, x) + WithAlpha(row, n, x)
  {
    hide WithAlpha;
    assert (rows + [row])[..|rows|] == rows;
  }

  lemma LastAlpha(out: seq<Byte>, cur: nat, n: nat, x: nat, rows: seq<Row>)
    requires cur <= |out| && AllOf(rows, x * n) && rows != [] && out[..cur] == FlatAlpha(rows, n, x)
    ensures x * n + x <= cur && out[cur - (x * n + x)..cur] == WithAlpha(rows[|rows| - 1], n, x)
  {
    hide WithAlpha;
    var f := FlatAlpha(rows, n, x);
    var s := x * n + x;
    assert f[|f| - s..] == WithAlpha(rows[|rows| - 1], n, x);
    assert out[cur - s..cur] == out[..cur][cur - s..];
  }

  /** Inserting alpha row by row is inserting it after every pixel of the image. */
  lemma {:induction false} FlatAlphaIs(rows: seq<Row>, n: nat, x: nat)
    requires AllOf(rows, x * n)
    ensures |rows| * x * n == |Flat(rows)|
    ensures FlatAlpha(rows, n, x) == WithAlpha(Flat(rows), n, |rows| * x)
  {
    hide WithAlpha;
    if rows == [] {
      WithAlphaNone(Flat(rows), n);
    } else {
      var pre, last := rows[..|rows| - 1], rows[|rows| - 1];
      FlatAlphaIs(pre, n, x);
      MulSub(|rows|, 1, x);
      Spread(|pre| * x, x, n);
      WithAlphaConcat(Flat(pre), last, n, |pre| * x, x);
    }
  }

  lemma Spread(a: int, b: int, n: int)
    ensures (a + b) * n == a * n + b * n
  {
  }

  lemma {:induction false} WithAlphaConcat(a: Row, b: Row, n: nat, p: nat, q: nat)
    requires |a| == p * n && q * n <= |b|
    ensures (p + q) * n <= |a + b|
    ensures WithAlpha(a + b, n, p + q) == WithAlpha(a, n, p) + WithAlpha(b, n, q)
    decreases q
  {
    hide WithAlpha;
    Spread(p, q, n);
    if q == 0 {
      WithAlphaNone(b, n);
      WithAlphaPrefix(a, a + b, n, p);
    } else {
      Products(q, n);
      Spread(p, q - 1, n);
      WithAlphaConcat(a, b, n, p, q - 1);
      WithAlphaNext(a + b, n, p + q - 1);
      WithAlphaNext(b, n, q - 1);
      assert (a + b)[(p + q - 1) * n..(p + q - 1) * n + n] == b[(q - 1) * n..(q - 1) * n + n];
    }
  }

  // ----- the row loop

  /** The state before a row: the lines read so far, and what they have become. */
  ghost predicate RowsDone(out: seq<Byte>, cur: nat, raw: seq<Byte>, pos: nat, x: nat, n: nat, alpha: bool, j: nat,
                           rows: seq<Row>)
  {
    && cur <= |out| && pos <= |raw| && |rows| == j && AllOf(rows, x * n)
    && Unfilter(raw[..pos], n, x * n) == Rows(rows)
    && out[..cur] == (if alpha then FlatAlpha(rows, n, x) else Flat(rows))
  }

  /** One row without alpha. */
  method PlainRow(out: array<Byte>, cur: nat, raw: seq<Byte>, pos: nat, x: nat, n: nat, j: nat, ghost rows: seq<Row>)
    returns (ghost more: seq<Row>)
    requires n >= 1 && x >= 1 && RowsDone(out[..], cur, raw, pos, x, n, false, j, rows)
    requires pos + x * n + 1 <= |raw| && cur + x * n <= out.Length && raw[pos] <= 4
    modifies out
    ensures RowsDone(out[..], cur + x * n, raw, pos + (x * n + 1), x, n, false, j + 1, more)
  {
    hide Recon, Unfilter, Flat;
    var w := x * n;
    MulGe(x, n);
    PriorIsLast(out[..], cur, w, rows);
    UnfilterNext(raw, n, w, pos);
    ghost var before := out[..cur];
    DecodeLine(out, cur, w, j == 0, raw[pos], n, raw[pos + 1..pos + (w + 1)]);
    ghost var row := out[cur..cur + w];
    more := rows + [row];
    FlatNext(rows, row);
    assert out[..cur] == before;
    assert out[..cur + w] == out[..cur] + row;
    assert out[..][..cur + w] == out[..cur + w];
  }

  /** One row with 255 inserted after each pixel. */
  method AlphaRow(out: array<Byte>, cur: nat, raw: seq<Byte>, pos: nat, x: nat, n: nat, j: nat, ghost rows: seq<Row>)
    returns (ghost more: seq<Row>)
    requires n >= 1 && x >= 1 && RowsDone(out[..], cur, raw, pos, x, n, true, j, rows)
    requires pos + x * n + 1 <= |raw| && cur + x * n + x <= out.Length && raw[pos] <= 4
    modifies out
    ensures RowsDone(out[..], cur + x * n + x, raw, pos + (x * n + 1), x, n, true, j + 1, more)
  {
    hide Recon, Unfilter, FlatAlpha, WithAlpha;
    var w := x * n;
    if j > 0 {
      LastAlpha(out[..], cur, n, x, rows);
      assert out[..][cur - (x * n + x)..cur] == out[cur - (x * n + x)..cur];
    }
    UnfilterNext(raw, n, w, pos);
    ghost var before := out[..cur];
    ghost var line, prior := raw[pos + 1..pos + (w + 1)], Prior(rows, w);
    DecodeLineAlpha(out, cur, j == 0, raw[pos], n, x, raw[pos + 1..pos + (w + 1)], prior);
    ghost var row := Recon(raw[pos], n, line, prior, w);
    more := rows + [row];
    FlatAlphaNext(rows, row, n, x);
    assert out[..cur] == before;
    assert out[..cur + w + x] == out[..cur] + out[cur..cur + w + x];
    assert out[..][..cur + w + x] == out[..cur + w + x];
  }

  method CreateRaw8(raw: seq<Byte>, x: nat, y: nat, n: nat, alpha: bool) returns (ok: bool, out: array<Byte>)
    requires n >= 1 && x >= 1
    ensures RawImage(raw, x, y, n, alpha) == if ok then Image(out[..]) else BadImage
    ensures ok ==> out.Length == y * (if alpha then x * n + x else x * n)
  {
    hide Unfilter, Flat, FlatAlpha, Recon, WithAlpha, SizesValid;
    ok, out := false, new Byte[0];
    var out_n := if alpha then n + 1 else n;
    if !SizesValid(x, y, out_n, 0) || !SizesValid(n, x, 8, 7) {
      return;
    }
    var w := x * n;
    if |raw| < y * (w + 1) {
      return;
    }
    var stride := if alpha then w + x else w;
    out := new Byte[y * stride];
    ok := DecodeRows(raw, x, y, n, alpha, w, stride, out);
  }

  method DecodeRows(raw: seq<Byte>, x: nat, y: nat, n: nat, alpha: bool, w: nat, stride: nat, out: array<Byte>)
    returns (ok: bool)
    requires n >= 1 && x >= 1 && w == x * n && stride == (if alpha then w + x else w)
    requires y * (w + 1) <= |raw| && out.Length == y * stride
    modifies out
    ensures match Unfilter(raw[..y * (w + 1)], n, w)
            case BadFilter => !ok
            case Rows(rows) => ok && out[..] == if alpha then FlatAlpha(rows, n, x) else Flat(rows)
  {
    hide Unfilter, Flat, FlatAlpha, Recon, WithAlpha;
    var cur, pos := 0, 0;
    ghost var rows: seq<Row> := [];
    NoRows(raw, n, x);
    for j := 0 to y
      invariant cur == j * stride && pos == j * (w + 1)
      invariant RowsDone(out[..], cur, raw, pos, x, n, alpha, j, rows)
    {
      OneMore(j, y, stride);
      OneMore(j, y, w + 1);
      if raw[pos] > 4 {
        Spoiled(raw, n, w, pos, j, y);
        return false;
      }
      rows := DecodeRow(out, cur, raw, pos, x, n, alpha, j, rows);
      pos := pos + (w + 1);
      cur := cur + stride;
    }
    assert out[..][..cur] == out[..];
    ok := true;
  }

  method DecodeRow(out: array<Byte>, cur: nat, raw: seq<Byte>, pos: nat, x: nat, n: nat, alpha: bool, j: nat,
                   ghost rows: seq<Row>)
    returns (ghost more: seq<Row>)
    requires n >= 1 && x >= 1 && RowsDone(out[..], cur, raw, pos, x, n, alpha, j, rows)
    requires pos + x * n + 1 <= |raw| && cur + x * n + (if alpha then x else 0) <= out.Length && raw[pos] <= 4
    modifies out
    ensures RowsDone(out[..], cur + x * n + (if alpha then x else 0), raw, pos + (x * n + 1), x, n, alpha, j + 1, more)
  {
    hide Unfilter, Flat, FlatAlpha;
    if alpha {
      more := AlphaRow(out, cur, raw, pos, x, n, j, rows);
    } else {
      more := PlainRow(out, cur, raw, pos, x, n, j, rows);
    }
  }

  lemma OneMore(j: nat, y: nat, d: nat)
    requires j < y
    ensures j * d + d == (j + 1) * d <= y * d
    ensures (y - j - 1) * d == y * d - j * d - d
  {
    MulSucc(j, d);
    MulLe(j + 1, y, d);
    MulSub(y, j + 1, d);
  }

  lemma NoRows(raw: seq<Byte>, n: nat, x: nat)
    ensures Unfilter(raw[..0], n, x * n) == Rows([]) && Flat([]) == [] && FlatAlpha([], n, x) == []
  {
  }

  lemma Spoiled(raw: seq<Byte>, n: nat, w: nat, pos: nat, j: nat, y: nat)
    requires j < y && pos == j * (w + 1) && y * (w + 1) <= |raw| && pos + (w + 1) <= |raw|
    requires Unfilter(raw[..pos], n, w).Rows? && raw[pos] > 4
    ensures Unfilter(raw[..y * (w + 1)], n, w) == BadFilter
  {
    hide Unfilter, Recon;
    UnfilterNext(raw, n, w, pos);
    OneMore(j, y, w + 1);
    BadStays(raw, n, w, pos + (w + 1), y - j - 1);
  }
}
