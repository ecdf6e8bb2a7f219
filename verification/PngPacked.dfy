/** Grey images of 1, 2 or 4 bits a sample: the lines are unfiltered at the right ends of the rows
    of the output, and a second pass spreads them. */
module PngPacked {
  import opened Words
  import opened PngFilter
  import opened PngLines
  import opened PngImage
  import opened PngUnpack

  /** The samples packed in a line. */
  ghost function Unpacked(packed: seq<Byte>, x: nat, d: nat, scale: nat): (r: seq<Byte>)
    requires SmallDepth(d)
    ensures (exists s: seq<Byte> :: |s| == x && Expanded(s, packed, d, scale)) ==>
              |r| == x && Expanded(r, packed, d, scale)
  {
    if s: seq<Byte> :| |s| == x && Expanded(s, packed, d, scale) then s else []
  }

  lemma UnpackedIs(s: seq<Byte>, packed: seq<Byte>, x: nat, d: nat, scale: nat)
    requires SmallDepth(d) && |s| == x && Expanded(s, packed, d, scale)
    ensures Unpacked(packed, x, d, scale) == s
  {
    hide Sample, Per, PackedBytes;
    var t := Unpacked(packed, x, d, scale);
    assert |t| == x && Expanded(t, packed, d, scale);
    forall m: nat | m < x ensures s[m] == t[m] {
    }
  }

  ghost function Spread(packed: seq<Byte>, x: nat, d: nat, scale: nat, alpha: bool): seq<Byte>
    requires SmallDepth(d)
  {
    var s := Unpacked(packed, x, d, scale);
    if alpha && |s| == x then WithAlpha(s, 1, x) else s
  }

  ghost function SpreadRows(rows: seq<Row>, x: nat, d: nat, scale: nat, alpha: bool): seq<Byte>
    requires SmallDepth(d)
  {
    if rows == [] then []
    else SpreadRows(rows[..|rows| - 1], x, d, scale, alpha) + Spread(rows[|rows| - 1], x, d, scale, alpha)
  }

  /** The pixels that `y` filtered lines of packed samples stand for. */
  ghost function RawPacked(raw: seq<Byte>, x: nat, y: nat, d: nat, alpha: bool): Image
    requires SmallDepth(d)
  {
    var w := PackedBytes(x, d);
    var img_len := y * (w + 1);
    if !SizesValid(x, y, if alpha then 2 else 1, 0) || !SizesValid(1, x, d, 7) || |raw| < img_len then BadImage
    else
      match Unfilter(raw[..img_len], 1, w)
      case BadFilter => BadImage
      case Rows(rows) => Image(SpreadRows(rows, x, d, DepthScale(d, 0), alpha))
  }

  // ----- the lines, parked at the right ends of the rows

  ghost predicate Parked(out: seq<Byte>, rows: seq<Row>, stride: nat, w: nat)
    requires w <= stride
  {
    AllOf(rows, w) && forall i: nat :: i < |rows| ==>
      i * stride + stride <= |out| && RowOf(out, stride, i)[stride - w..] == rows[i]
  }

  lemma PriorParked(out: seq<Byte>, rows: seq<Row>, stride: nat, w: nat, j: nat, cur: nat)
    requires w <= stride && Parked(out, rows, stride, w) && |rows| == j && cur == j * stride + (stride - w)
    requires cur + w <= |out|
    ensures j > 0 ==> stride <= cur
    ensures PriorAt(out, cur, stride, w, j == 0) == Prior(rows, w)
  {
    if j > 0 {
      MulSucc(j - 1, stride);
      MulNonneg(j - 1, stride);
      var row := RowOf(out, stride, j - 1);
      assert row[stride - w..] == rows[j - 1];
      assert row[stride - w..] == out[cur - stride..cur - stride + w];
    }
  }

  lemma ParkedNext(before: seq<Byte>, out: seq<Byte>, rows: seq<Row>, row: Row, stride: nat, w: nat, cur: nat)
    requires w <= stride && Parked(before, rows, stride, w) && cur == |rows| * stride + (stride - w) && cur + w <= |out|
    requires |out| == |before| && out[cur..cur + w] == row
    requires forall k :: 0 <= k < |out| && !(cur <= k < cur + w) ==> out[k] == before[k]
    ensures Parked(out, rows + [row], stride, w)
  {
    var more := rows + [row];
    MulNonneg(|rows|, stride);
    forall i: nat | i < |more| ensures i * stride + stride <= |out| && RowOf(out, stride, i)[stride - w..] == more[i] {
      MulNonneg(i, stride);
      if i < |rows| {
        RowBounds(i, |rows|, stride);
        assert RowOf(before, stride, i)[stride - w..] == rows[i];
        assert RowOf(out, stride, i) == RowOf(before, stride, i);
      }
    }
  }

  /** Line `j`, unfiltered at the right end of its row. */
  method ParkLine(raw: seq<Byte>, pos: nat, w: nat, stride: nat, out: array<Byte>, j: nat, cur: nat,
                  ghost rows: seq<Row>)
    returns (ghost more: seq<Row>)
    requires 1 <= w <= stride && pos + (w + 1) <= |raw| && raw[pos] <= 4
    requires cur == j * stride + (stride - w) && cur + w <= out.Length
    requires |rows| == j && Unfilter(raw[..pos], 1, w) == Rows(rows) && Parked(out[..], rows, stride, w)
    modifies out
    ensures |more| == j + 1 && Unfilter(raw[..pos + (w + 1)], 1, w) == Rows(more) && Parked(out[..], more, stride, w)
  {
    hide Unfilter, Recon, Parked, Prior, PriorAt;
    ghost var before := out[..];
    PriorParked(before, rows, stride, w, j, cur);
    UnfilterNext(raw, 1, w, pos);
    DecodeLine(out, cur, stride, j == 0, raw[pos], 1, raw[pos + 1..pos + (w + 1)]);
    ghost var row := out[cur..cur + w];
    ParkedNext(before, out[..], rows, row, stride, w, cur);
    more := rows + [row];
  }

  /** The first pass: every line, unfiltered where it can be spread in place. */
  method ParkLines(raw: seq<Byte>, y: nat, w: nat, stride: nat, out: array<Byte>) returns (ok: bool)
    requires 1 <= w <= stride && y * (w + 1) <= |raw| && out.Length == y * stride
    modifies out
    ensures match Unfilter(raw[..y * (w + 1)], 1, w)
            case BadFilter => !ok
            case Rows(rows) => ok && |rows| == y && Parked(out[..], rows, stride, w)
  {
    hide Unfilter, Recon, Parked, Prior, PriorAt;
    var pos := 0;
    ghost var rows: seq<Row> := [];
    NoLines(raw, w, out[..], stride);
    for j := 0 to y
      invariant pos == j * (w + 1) && |rows| == j && Unfilter(raw[..pos], 1, w) == Rows(rows)
      invariant Parked(out[..], rows, stride, w)
    {
      OneMore(j, y, stride);
      OneMore(j, y, w + 1);
      if raw[pos] > 4 {
        Spoiled(raw, 1, w, pos, j, y);
        return false;
      }
      MulNonneg(j, stride);
      rows := ParkLine(raw, pos, w, stride, out, j, j * stride + (stride - w), rows);
      pos := pos + (w + 1);
    }
    ok := true;
  }

  lemma NoLines(raw: seq<Byte>, w: nat, out: seq<Byte>, stride: nat)
    requires w <= stride
    ensures Unfilter(raw[..0], 1, w) == Rows([]) && Parked(out, [], stride, w)
  {
  }

  // ----- the second pass

  /** A row spread from what was parked in it. */
  lemma RowSpread(row: seq<Byte>, was: seq<Byte>, packed: seq<Byte>, x: nat, d: nat, scale: nat, alpha: bool)
    requires SmallDepth(d) && RowExpanded(row, was, x, d, scale, alpha)
    requires PackedBytes(x, d) <= |was| && was[|was| - PackedBytes(x, d)..] == packed
    ensures row == Spread(packed, x, d, scale, alpha)
  {
    hide PackedBytes, Expanded, WithAlpha, Unpacked;
    var samples: seq<Byte> :|
      |samples| == x && Expanded(samples, was[|was| - PackedBytes(x, d)..], d, scale)
      && row == if alpha then WithAlpha(samples, 1, x) else samples;
    UnpackedIs(samples, packed, x, d, scale);
  }

  lemma {:induction false} AllSpread(out: seq<Byte>, rows: seq<Row>, stride: nat, x: nat, d: nat, scale: nat,
                                     alpha: bool, j: nat)
    requires SmallDepth(d) && j <= |rows| && j * stride <= |out|
    requires forall i: nat :: i < |rows| ==>
               i * stride + stride <= |out| && RowOf(out, stride, i) == Spread(rows[i], x, d, scale, alpha)
    ensures 0 <= j * stride && out[..j * stride] == SpreadRows(rows[..j], x, d, scale, alpha)
  {
    hide Spread;
    MulNonneg(j, stride);
    if j > 0 {
      MulSucc(j - 1, stride);
      MulNonneg(j - 1, stride);
      AllSpread(out, rows, stride, x, d, scale, alpha, j - 1);
      assert rows[..j][..j - 1] == rows[..j - 1];
      assert RowOf(out, stride, j - 1) == Spread(rows[j - 1], x, d, scale, alpha);
      assert out[..j * stride] == out[..(j - 1) * stride] + RowOf(out, stride, j - 1);
    }
  }

  lemma ImageSpread(out: seq<Byte>, was: seq<Byte>, rows: seq<Row>, stride: nat, x: nat, y: nat, d: nat, scale: nat,
                    alpha: bool)
    requires SmallDepth(d) && stride == (if alpha then 2 * x else x) && |out| == |was| == y * stride && |rows| == y
    requires PackedBytes(x, d) <= stride && Parked(was, rows, stride, PackedBytes(x, d))
    requires forall j: nat :: j < y ==>
               && j * stride + stride <= |out|
               && RowExpanded(RowOf(out, stride, j), RowOf(was, stride, j), x, d, scale, alpha)
    ensures out == SpreadRows(rows, x, d, scale, alpha)
  {
    hide PackedBytes, RowExpanded, Spread, SpreadRows, RowAt;
    forall i: nat | i < y
      ensures i * stride + stride <= |out| && RowOf(out, stride, i) == Spread(rows[i], x, d, scale, alpha)
    {
      assert RowExpanded(RowOf(out, stride, i), RowOf(was, stride, i), x, d, scale, alpha);
      RowSpread(RowOf(out, stride, i), RowOf(was, stride, i), rows[i], x, d, scale, alpha);
    }
    AllSpread(out, rows, stride, x, d, scale, alpha, y);
    assert rows[..y] == rows && out[..y * stride] == out;
  }

  /** `stbi__create_png_image_raw` for a grey image of less than eight bits a sample. */
  method CreatePacked(raw: seq<Byte>, x: nat, y: nat, d: nat, alpha: bool) returns (ok: bool, out: array<Byte>)
    requires SmallDepth(d) && x >= 1
    ensures RawPacked(raw, x, y, d, alpha) == if ok then Image(out[..]) else BadImage
  {
    hide Unfilter, SpreadRows, Parked, RowExpanded, SizesValid, RowOf;
    ok, out := false, new Byte[0];
    if !SizesValid(x, y, if alpha then 2 else 1, 0) || !SizesValid(1, x, d, 7) {
      return;
    }
    var w := PackedBytes(x, d);
    PackedFits(x, d);
    if |raw| < y * (w + 1) {
      return;
    }
    var stride := if alpha then 2 * x else x;
    MulNonneg(y, stride);
    out := new Byte[y * stride];
    ok := ParkLines(raw, y, w, stride, out);
    if ok {
      ghost var was := out[..];
      ExpandImage(out, x, y, d, 0, alpha);
      ImageSpread(out[..], was, Unfilter(raw[..y * (w + 1)], 1, w).rows, stride, x, y, d, DepthScale(d, 0), alpha);
    }
  }
}
