/** The canvas of a GIF and the cursor that `stbi__out_gif_code` moves over a frame. */
module GifCursor {
  import opened Words
  import opened GifRows

  /** A frame of `w` by `h` pixels at (`x`, `y`) on a screen of `gw` by `gh`. */
  datatype Frame = Frame(gw: nat, gh: nat, x: nat, y: nat, w: nat, h: nat, interlaced: bool)

  predicate Inside(f: Frame)
  {
    f.x + f.w <= f.gw && f.y + f.h <= f.gh
  }

  function Pixels(f: Frame): nat
  {
    Times(f.gw, f.gh)
  }

  /** The number of the pixel of the screen under a pixel of the frame. */
  function Spot(f: Frame, c: Cell): (p: nat)
    requires Inside(f) && c.row < f.h && c.col < f.w
    ensures p < Pixels(f)
  {
    MulNonneg(f.y + c.row, f.gw);
    MulSucc(f.y + c.row, f.gw);
    MulLe(f.y + c.row + 1, f.gh, f.gw);
    (f.y + c.row) * f.gw + (f.x + c.col)
  }

  datatype Canvas = Canvas(out: seq<Byte>, history: seq<Byte>)

  predicate Fits(cv: Canvas, f: Frame)
  {
    |cv.out| == 4 * Pixels(f) && |cv.history| == Pixels(f)
  }

  /** A colour of the table, unless it is transparent, over the four bytes of a pixel. */
  function Painted(out: seq<Byte>, p: nat, colors: seq<Byte>, i: Byte): (r: seq<Byte>)
    requires 4 * p + 3 < |out| && |colors| == 1024
    ensures |r| == |out|
  {
    if colors[4 * i + 3] > 128
    then out[4 * p := colors[4 * i + 2]][4 * p + 1 := colors[4 * i + 1]]
         [4 * p + 2 := colors[4 * i]][4 * p + 3 := colors[4 * i + 3]]
    else out
  }

  /** The `n`-th colour index of a frame, drawn where the order of rows puts it; indices beyond
      the frame are ignored. */
  function Draw(f: Frame, colors: seq<Byte>, cv: Canvas, n: nat, i: Byte): (r: Canvas)
    requires Inside(f) && Fits(cv, f) && |colors| == 1024
    ensures Fits(r, f)
  {
    if n < Total(f.w, f.h, f.interlaced) then
      CellOnce(f.w, f.h, f.interlaced, n, n);
      var p := Spot(f, CellAt(f.w, f.h, f.interlaced, n));
      Canvas(Painted(cv.out, p, colors, i), cv.history[p := 1])
    else cv
  }

  function DrawAll(f: Frame, colors: seq<Byte>, cv: Canvas, n: nat, s: seq<Byte>): (r: Canvas)
    requires Inside(f) && Fits(cv, f) && |colors| == 1024
    ensures Fits(r, f)
    decreases |s|
  {
    if s == [] then cv
    else Draw(f, colors, DrawAll(f, colors, cv, n, s[..|s| - 1]), n + |s| - 1, s[|s| - 1])
  }

  lemma DrawSteps(f: Frame, colors: seq<Byte>, cv: Canvas, n: nat, s: seq<Byte>)
    requires Inside(f) && Fits(cv, f) && |colors| == 1024
    ensures DrawAll(f, colors, cv, n, []) == cv
    ensures s != [] ==>
              DrawAll(f, colors, cv, n, s)
              == Draw(f, colors, DrawAll(f, colors, cv, n, s[..|s| - 1]), n + |s| - 1, s[|s| - 1])
  {
    hide Draw;
  }

  lemma {:induction false} DrawConcat(f: Frame, colors: seq<Byte>, cv: Canvas, n: nat, a: seq<Byte>, b: seq<Byte>)
    requires Inside(f) && Fits(cv, f) && |colors| == 1024
    ensures DrawAll(f, colors, cv, n, a + b) == DrawAll(f, colors, DrawAll(f, colors, cv, n, a), n + |a|, b)
    decreases |b|
  {
    hide Draw, Fits;
    if b == [] {
      assert a + b == a;
    } else {
      DrawConcat(f, colors, cv, n, a, b[..|b| - 1]);
      assert (a + b)[..|a + b| - 1] == a + b[..|b| - 1];
    }
  }

  /** The fields of `stbi__gif` that place the pixels. Ghost: the row and column of the frame the
      cursor is on, its place in the order of rows, and how many indices came before. */
  class Cursor {
    var out: array<Byte>
    var history: array<Byte>
    var line_size: nat
    var start_x: nat
    var start_y: nat
    var max_x: nat
    var max_y: nat
    var cur_x: nat
    var cur_y: nat
    var step: nat
    var parse: nat
    ghost var f: Frame
    ghost var row: nat
    ghost var col: nat
    ghost var stride: nat
    ghost var k: nat
    ghost var n: nat

    ghost predicate Scaled()
      reads `f, `out, `history, `line_size, `start_x, `start_y, `max_x, `max_y
    {
      && Inside(f) && out.Length == 4 * Pixels(f) && history.Length == Pixels(f) && out != history
      && line_size == 4 * f.gw && start_x == 4 * f.x && start_y == Times(f.y, line_size)
      && max_x == start_x + 4 * f.w && max_y == start_y + Times(f.h, line_size)
    }

    ghost predicate OnRow()
      reads this
    {
      && cur_x == start_x + 4 * col && cur_y == start_y + Times(row, line_size) && col < f.w
      && stride > 0 && step == Times(stride, line_size)
    }

    ghost predicate Underway()
      reads this
    {
      var rows := RowOrder(f.h, f.interlaced);
      && OnRow() && row < f.h && k < |rows| && rows[k] == row && n == Times(k, f.w) + col
      && rows[k + 1..] == RowsFrom(row + stride, stride, parse, f.h)
    }

    ghost predicate Valid()
      reads this
    {
      && Scaled()
      && if n < Total(f.w, f.h, f.interlaced) then Underway() else cur_y >= max_y
    }

    ghost function View(): (cv: Canvas)
      requires Scaled()
      reads this, out, history
      ensures Inside(f) && Fits(cv, f)
    {
      Canvas(out[..], history[..])
    }

    /** The canvas of a screen of `gw` by `gh`, cleared. */
    constructor (gw: nat, gh: nat)
      ensures out.Length == 4 * Times(gw, gh) && history.Length == Times(gw, gh) && out != history
      ensures fresh(out) && fresh(history) && forall i :: 0 <= i < out.Length ==> out[i] == 0
    {
      out := new Byte[4 * Times(gw, gh)](_ => 0);
      history := new Byte[Times(gw, gh)](_ => 0);
    }

    /** The image descriptor: refused when the frame leaves the screen. */
    method Describe(gw: nat, gh: nat, x: nat, y: nat, w: nat, h: nat, lflags: Byte) returns (ok: bool)
      requires out.Length == 4 * Times(gw, gh) && history.Length * 4 == out.Length && out != history
      modifies this`line_size, this`start_x, this`start_y, this`max_x, this`max_y, this`cur_x, this`cur_y, this`step,
               this`parse, this`f, this`row, this`col, this`stride, this`k, this`n
      ensures ok <==> x + w <= gw && y + h <= gh
      ensures ok ==> Valid() && n == 0 && f == Frame(gw, gh, x, y, w, h, And(lflags, 0x40) != 0)
    {
      hide And;
      if x + w > gw || y + h > gh {
        return false;
      }
      SetBounds(Frame(gw, gh, x, y, w, h, And(lflags, 0x40) != 0));
      Rewind(w, And(lflags, 0x40) != 0);
      ok := true;
    }

    method SetBounds(g: Frame)
      requires Inside(g) && out.Length == 4 * Pixels(g) && history.Length * 4 == out.Length && out != history
      modifies this`line_size, this`start_x, this`start_y, this`max_x, this`max_y, this`f
      ensures Scaled() && f == g
    {
      hide Times;
      f := g;
      line_size := g.gw * 4;
      start_x := g.x * 4;
      start_y := Times(g.y, line_size);
      max_x := start_x + g.w * 4;
      max_y := start_y + Times(g.h, line_size);
    }

    method Rewind(w: nat, interlaced: bool)
      requires Scaled() && w == f.w && interlaced == f.interlaced
      modifies this`cur_x, this`cur_y, this`step, this`parse, this`row, this`col, this`stride, this`k, this`n
      ensures Valid() && n == 0
    {
      hide RowOrder, RowsFrom, Total, Times, Valid, Scaled;
      cur_x := start_x;
      cur_y := start_y;
      if w == 0 {
        cur_y := max_y;
      }
      step, parse := if interlaced then 8 * line_size else line_size, if interlaced then 3 else 0;
      Start();
    }

    ghost method Start()
      requires Scaled() && cur_x == start_x && cur_y == (if f.w == 0 then max_y else start_y)
      requires parse == (if f.interlaced then 3 else 0) && step == if f.interlaced then 8 * line_size else line_size
      modifies this`row, this`col, this`stride, this`k, this`n
      ensures Valid() && n == 0
    {
      hide RowOrder, RowsFrom, Total, Times;
      row, col, k, n := 0, 0, 0, 0;
      stride := if f.interlaced then 8 else 1;
      FirstRow(f);
      TimesSmall(line_size);
      TimesSmall(f.w);
    }

    /** What `stbi__out_gif_code` does with one colour index. */
    method Put(colors: seq<Byte>, suffix: Byte)
      requires Valid() && |colors| == 1024
      modifies this`cur_x, this`cur_y, this`step, this`parse, this`row, this`col, this`stride, this`k, this`n, out,
        history
      ensures Valid() && n == old(n) + 1
      ensures View() == Draw(f, colors, old(View()), old(n), suffix)
    {
      hide RowOrder, RowsFrom, Times, Total;
      LowRow();
      if cur_y >= max_y {
        n := n + 1;
        return;
      }
      PutHere(colors, suffix);
      Advance();
    }

    method PutHere(colors: seq<Byte>, suffix: Byte)
      requires Valid() && |colors| == 1024 && n < Total(f.w, f.h, f.interlaced)
      modifies out, history
      ensures Valid() && View() == Draw(f, colors, old(View()), n, suffix)
    {
      hide RowOrder, RowsFrom, Times, Total, CellAt, Spot;
      ghost var p := Here();
      var idx := cur_x + cur_y;
      history[idx / 4] := 1;
      if colors[4 * suffix + 3] > 128 {
        out[idx] := colors[4 * suffix + 2];
        out[idx + 1] := colors[4 * suffix + 1];
        out[idx + 2] := colors[4 * suffix];
        out[idx + 3] := colors[4 * suffix + 3];
      }
    }

    /** Still on the frame exactly while indices are due. */
    lemma LowRow()
      requires Valid()
      ensures cur_y < max_y <==> n < Total(f.w, f.h, f.interlaced)
    {
      hide RowOrder, RowsFrom;
      if n < Total(f.w, f.h, f.interlaced) {
        MulLe(row + 1, f.h, line_size);
        MulSucc(row, line_size);
      }
    }

    /** The cursor is on the pixel the order of rows asks for. */
    lemma Here() returns (p: nat)
      requires Valid() && n < Total(f.w, f.h, f.interlaced)
      ensures var c := CellAt(f.w, f.h, f.interlaced, n);
              && c.row < f.h && c.col < f.w && p == Spot(f, c) && cur_x + cur_y == 4 * p < 4 * Pixels(f)
    {
      hide RowOrder, RowsFrom;
      DivModIs(n, f.w, k, col);
      p := Spot(f, Cell(row, col));
      Combine(f.y, row, f.gw);
    }

    /** On to the next pixel: right, to the next row, or to the next pass that has rows. */
    method Advance()
      requires Valid() && n < Total(f.w, f.h, f.interlaced)
      modifies this`cur_x, this`cur_y, this`step, this`parse, this`row, this`col, this`stride, this`k, this`n
      ensures Valid() && n == old(n) + 1
    {
      hide RowOrder, RowsFrom, Times, Pow2, Total;
      Counted();
      cur_x := cur_x + 4;
      n := n + 1;
      col := col + 1;
      if cur_x >= max_x {
        cur_x := start_x;
        col := 0;
        k := k + 1;
        NextRow();
      }
    }

    lemma Counted()
      requires Valid() && n < Total(f.w, f.h, f.interlaced)
      ensures var all := |RowOrder(f.h, f.interlaced)|;
              && f.gw > 0 && Times(k + 1, f.w) == Times(k, f.w) + f.w
              && (col + 1 < f.w ==> n + 1 < Total(f.w, f.h, f.interlaced))
              && (col + 1 == f.w ==> n + 1 == Times(k + 1, f.w))
              && (col + 1 == f.w ==> (n + 1 < Total(f.w, f.h, f.interlaced) <==> k + 1 < all))
    {
      hide RowOrder, RowsFrom, Times;
      var all := |RowOrder(f.h, f.interlaced)|;
      Rowful(k, all, f.w);
      Rowful(k + 1, all, f.w);
    }

    method NextRow()
      requires Scaled() && OnRow() && f.gw > 0 && k <= |RowOrder(f.h, f.interlaced)|
      requires RowOrder(f.h, f.interlaced)[k..] == RowsFrom(row + stride, stride, parse, f.h)
      modifies this`cur_y, this`step, this`parse, this`row, this`stride
      ensures Scaled() && OnRow()
      ensures var rows := RowOrder(f.h, f.interlaced);
              if k < |rows| then
                row < f.h && rows[k] == row && rows[k + 1..] == RowsFrom(row + stride, stride, parse, f.h)
              else cur_y >= max_y
    {
      hide RowOrder, Pow2, Times;
      TimesSum(row, stride, line_size);
      cur_y := cur_y + step;
      row := row + stride;
      BelowMax(row, f.h, line_size);
      while cur_y >= max_y && parse > 0
        invariant Scaled() && OnRow() && RowOrder(f.h, f.interlaced)[k..] == RowsFrom(row, stride, parse, f.h)
        invariant cur_y >= max_y <==> row >= f.h
        decreases parse
      {
        NextPass();
      }
      FirstOf(RowOrder(f.h, f.interlaced), k, row, stride, parse, f.h);
    }

    method NextPass()
      requires Scaled() && OnRow() && f.gw > 0 && parse > 0
      modifies this`cur_y, this`step, this`parse, this`row, this`stride
      ensures Scaled() && OnRow() && (cur_y >= max_y <==> row >= f.h)
      ensures parse == old(parse) - 1 && row == Pow2(parse) && stride == Pow2(parse + 1)
    {
      hide RowOrder, Pow2, Times;
      Pow2Step(parse);
      HalfStep(Pow2(parse - 1), line_size);
      step := Times(Pow2(parse), line_size);
      cur_y := start_y + step / 2;
      row, stride := Pow2(parse - 1), Pow2(parse);
      parse := parse - 1;
      BelowMax(row, f.h, line_size);
    }
  }

  lemma FirstOf(rows: seq<nat>, k: nat, row: nat, stride: nat, parse: nat, h: nat)
    requires stride > 0 && k <= |rows| && rows[k..] == RowsFrom(row, stride, parse, h) && (row < h || parse == 0)
    ensures if row < h then k < |rows| && rows[k] == row && rows[k + 1..] == RowsFrom(row + stride, stride, parse, h)
            else k == |rows|
  {
    var rest := rows[k..];
    if row < h {
      assert rest[0] == row && rest[1..] == rows[k + 1..];
    }
  }

  lemma HalfStep(p: nat, line: nat)
    ensures Times(2 * p, line) / 2 == Times(p, line)
  {
    MulTwiceLeft(p, line);
  }

  lemma FirstRow(f: Frame)
    ensures var rows := RowOrder(f.h, f.interlaced);
            var s := if f.interlaced then 8 else 1;
            f.h > 0 ==> |rows| > 0 && rows[0] == 0 && rows[1..] == RowsFrom(s, s, if f.interlaced then 3 else 0, f.h)
    ensures Total(f.w, f.h, f.interlaced) > 0 <==> f.h > 0 && f.w > 0
  {
    hide RowOrder;
    RowsInOrder(f.h, f.interlaced);
    OrderLength(f.h, f.interlaced);
    if f.h > 0 {
      MulGe(f.h, f.w);
    }
  }

  lemma Rowful(k: nat, rows: nat, w: nat)
    requires k <= rows
    ensures Times(k, w) <= Times(rows, w) && Times(k + 1, w) == Times(k, w) + w
    ensures k < rows ==> Times(k, w) + w <= Times(rows, w)
  {
    MulLe(k, rows, w);
    MulSucc(k, w);
    if k < rows {
      MulLe(k + 1, rows, w);
    }
  }

  lemma TimesSmall(a: nat)
    ensures Times(0, a) == 0 && Times(1, a) == a && Times(8, a) == 8 * a
  {
  }

  lemma Combine(y: int, row: int, gw: int)
    ensures 4 * ((y + row) * gw) == y * (4 * gw) + row * (4 * gw)
  {
  }

  lemma TimesSum(row: nat, stride: nat, line: nat)
    ensures Times(row + stride, line) == Times(row, line) + Times(stride, line)
  {
  }

  lemma BelowMax(row: nat, h: nat, line: nat)
    requires line > 0
    ensures Times(row, line) < Times(h, line) <==> row < h
  {
    if row < h {
      MulLe(row + 1, h, line);
      MulSucc(row, line);
    } else {
      MulLe(h, row, line);
    }
  }
}
