/** The order in which the raster data of a GIF frame fills its rows: top to bottom, or in the
    four passes of Appendix E of the GIF89a specification. */
module GifRows {
  import opened Words

  /** Rows `a`, `a + s`, `a + 2s`, ... below `h`. */
  function Pass(a: nat, s: nat, h: nat): seq<nat>
    requires s > 0
    decreases h - a
  {
    if a < h then [a] + Pass(a + s, s, h) else []
  }

  /** Appendix E: every eighth row from 0, every eighth from 4, every fourth from 2, every second from 1. */
  function RowOrder(h: nat, interlaced: bool): seq<nat>
  {
    if interlaced then Pass(0, 8, h) + Pass(4, 8, h) + Pass(2, 4, h) + Pass(1, 2, h) else Pass(0, 1, h)
  }

  /** How the decoder gets from row to row: by `stride`, and past the last row to the start of the
      next pass, of which `parse` are left. A pass without rows is skipped. */
  function RowsFrom(row: nat, stride: nat, parse: nat, h: nat): seq<nat>
    requires stride > 0
    decreases parse, h - row
  {
    if row < h then [row] + RowsFrom(row + stride, stride, parse, h)
    else if parse > 0 then RowsFrom(Pow2(parse - 1), Pow2(parse), parse - 1, h)
    else []
  }

  lemma {:induction false} PassThenNext(row: nat, stride: nat, parse: nat, h: nat)
    requires stride > 0
    ensures RowsFrom(row, stride, parse, h)
         == Pass(row, stride, h) + if parse > 0 then RowsFrom(Pow2(parse - 1), Pow2(parse), parse - 1, h) else []
    decreases h - row
  {
    hide Pow2;
    if row < h {
      PassThenNext(row + stride, stride, parse, h);
    }
  }

  lemma RowsInOrder(h: nat, interlaced: bool)
    ensures RowsFrom(0, if interlaced then 8 else 1, if interlaced then 3 else 0, h) == RowOrder(h, interlaced)
  {
    hide RowsFrom, Pass;
    Pow2Values();
    if interlaced {
      PassThenNext(0, 8, 3, h);
      PassThenNext(4, 8, 2, h);
      PassThenNext(2, 4, 1, h);
      PassThenNext(1, 2, 0, h);
      var a, b, c, d := Pass(0, 8, h), Pass(4, 8, h), Pass(2, 4, h), Pass(1, 2, h);
      assert a + (b + (c + (d + []))) == a + b + c + d;
    } else {
      PassThenNext(0, 1, 0, h);
      assert Pass(0, 1, h) + [] == Pass(0, 1, h);
    }
  }

  // ----- every row exactly once

  lemma {:induction false} PassAt(a: nat, s: nat, h: nat, i: nat)
    requires s > 0 && i < |Pass(a, s, h)|
    ensures Pass(a, s, h)[i] == a + i * s < h
    decreases i
  {
    if i > 0 {
      PassAt(a + s, s, h, i - 1);
      MulSucc(i - 1, s);
    }
  }

  /** The position of a row in a pass that holds it. */
  lemma {:induction false} PassHas(a: nat, s: nat, h: nat, k: nat)
    requires s > 0 && a + k * s < h
    ensures k < |Pass(a, s, h)| && Pass(a, s, h)[k] == a + k * s
    decreases k
  {
    if k > 0 {
      MulSucc(k - 1, s);
      MulNonneg(k - 1, s);
      PassHas(a + s, s, h, k - 1);
    }
  }

  predicate Distinct<T(==)>(s: seq<T>)
  {
    forall i, j :: 0 <= i < j < |s| ==> s[i] != s[j]
  }

  /** Rows that differ modulo `m` are different. */
  lemma DistinctConcat(a: seq<nat>, b: seq<nat>, m: nat, k: nat)
    requires m > 0 && Distinct(a) && Distinct(b)
    requires (forall r :: r in a ==> r % m != k) && forall r :: r in b ==> r % m == k
    ensures Distinct(a + b)
  {
    var s := a + b;
    forall i, j | 0 <= i < j < |s| ensures s[i] != s[j] {
      if i < |a| <= j {
        assert s[i] == a[i] && s[j] == b[j - |a|];
        assert a[i] in a && b[j - |a|] in b;
      }
    }
  }

  lemma PassDistinct(a: nat, s: nat, h: nat)
    requires s > 0
    ensures Distinct(Pass(a, s, h))
  {
    var p := Pass(a, s, h);
    forall i, j | 0 <= i < j < |p| ensures p[i] != p[j] {
      PassAt(a, s, h, i);
      PassAt(a, s, h, j);
      MulLe(i + 1, j, s);
      MulSucc(i, s);
    }
  }

  /** Rows of a pass, by remainder. */
  lemma PassRemainder(a: nat, s: nat, h: nat)
    requires 0 <= a < s
    ensures forall r :: r in Pass(a, s, h) ==> r < h && r % s == a
  {
    forall r | r in Pass(a, s, h) ensures r < h && r % s == a {
      var i :| 0 <= i < |Pass(a, s, h)| && Pass(a, s, h)[i] == r;
      PassAt(a, s, h, i);
      DivModIs(r, s, i, a);
    }
  }

  lemma OrderDistinct(h: nat, interlaced: bool)
    ensures Distinct(RowOrder(h, interlaced))
    ensures forall r :: r in RowOrder(h, interlaced) ==> r < h
  {
    hide Pass;
    if interlaced {
      var a, b, c, d := Pass(0, 8, h), Pass(4, 8, h), Pass(2, 4, h), Pass(1, 2, h);
      PassRemainder(0, 8, h);
      PassRemainder(4, 8, h);
      PassRemainder(2, 4, h);
      PassRemainder(1, 2, h);
      PassDistinct(0, 8, h);
      PassDistinct(4, 8, h);
      PassDistinct(2, 4, h);
      PassDistinct(1, 2, h);
      DistinctConcat(a, b, 8, 4);
      forall r | r in a + b ensures r % 4 == 0 {
        Remainders(r);
      }
      DistinctConcat(a + b, c, 4, 2);
      forall r | r in a + b + c ensures r % 2 == 0 {
        Remainders(r);
      }
      DistinctConcat(a + b + c, d, 2, 1);
    } else {
      PassRemainder(0, 1, h);
      PassDistinct(0, 1, h);
    }
  }

  lemma Remainders(r: nat)
    ensures r % 8 == 0 || r % 8 == 4 ==> r % 4 == 0
    ensures r % 4 == 0 || r % 4 == 2 ==> r % 2 == 0
    ensures r % 2 == 0 && r % 4 != 2 ==> r % 8 == 0 || r % 8 == 4
  {
    var q, m := r / 8, r % 8;
    assert r == 8 * q + m;
    DivModIs(r, 4, 2 * q + m / 4, m % 4);
    DivModIs(r, 2, 4 * q + m / 2, m % 2);
  }

  lemma OrderCovers(h: nat, interlaced: bool, r: nat) returns (i: nat)
    requires r < h
    ensures i < |RowOrder(h, interlaced)| && RowOrder(h, interlaced)[i] == r
  {
    hide Pass;
    if !interlaced {
      PassHas(0, 1, h, r);
      return r;
    }
    Remainders(r);
    var a, b, c := Pass(0, 8, h), Pass(4, 8, h), Pass(2, 4, h);
    if r % 8 == 0 {
      PassHas(0, 8, h, r / 8);
      i := r / 8;
    } else if r % 8 == 4 {
      PassHas(4, 8, h, r / 8);
      i := |a| + r / 8;
    } else if r % 4 == 2 {
      PassHas(2, 4, h, r / 4);
      i := |a| + |b| + r / 4;
    } else {
      PassHas(1, 2, h, r / 2);
      i := |a| + |b| + |c| + r / 2;
    }
  }

  lemma {:induction false} PassEnd(a: nat, s: nat, h: nat)
    requires s > 0
    ensures var n := |Pass(a, s, h)|; h <= a + n * s && (n > 0 ==> a + (n - 1) * s < h)
    decreases h - a
  {
    if a < h {
      PassEnd(a + s, s, h);
      MulSucc(|Pass(a + s, s, h)|, s);
      if |Pass(a + s, s, h)| > 0 {
        MulSucc(|Pass(a + s, s, h)| - 1, s);
      }
    }
  }

  lemma OrderLength(h: nat, interlaced: bool)
    ensures |RowOrder(h, interlaced)| == h
  {
    hide Pass;
    if interlaced {
      PassEnd(0, 8, h);
      PassEnd(4, 8, h);
      PassEnd(2, 4, h);
      PassEnd(1, 2, h);
      FourPasses(h, h / 8, h % 8, |Pass(0, 8, h)|, |Pass(4, 8, h)|, |Pass(2, 4, h)|, |Pass(1, 2, h)|);
    } else {
      PassEnd(0, 1, h);
    }
  }

  lemma FourPasses(h: nat, q: nat, r: nat, a: nat, b: nat, c: nat, d: nat)
    requires h == 8 * q + r && r < 8
    requires h <= 8 * a && (a > 0 ==> 8 * a < h + 8)
    requires h <= 4 + 8 * b && (b > 0 ==> 8 * b < h + 4)
    requires h <= 2 + 4 * c && (c > 0 ==> 4 * c < h + 2)
    requires h <= 1 + 2 * d && (d > 0 ==> 2 * d < h + 1)
    ensures a + b + c + d == h
  {
    assert a == q + if r > 0 then 1 else 0;
    assert b == q + if r > 4 then 1 else 0;
    assert c == 2 * q + (if r > 2 then 1 else 0) + if r > 6 then 1 else 0;
  }

  // ----- the pixels of a frame

  datatype Cell = Cell(row: nat, col: nat)

  function Total(w: nat, h: nat, interlaced: bool): nat
  {
    Times(|RowOrder(h, interlaced)|, w)
  }

  /** The pixel that the `n`-th colour index of the raster data belongs to. */
  function CellAt(w: nat, h: nat, interlaced: bool, n: nat): (c: Cell)
    requires n < Total(w, h, interlaced)
  {
    var rows := RowOrder(h, interlaced);
    RowIndex(n, |rows|, w);
    Cell(rows[n / w], n % w)
  }

  lemma RowIndex(n: nat, rows: nat, w: nat)
    requires n < rows * w
    ensures w > 0 && 0 <= n / w < rows
  {
    assert w == 0 ==> rows * w == 0;
    if w > 0 {
      DivLt(n, w, rows);
      DivNonneg(n, w);
    }
  }

  /** Every pixel of the frame is visited, */
  lemma EveryCell(w: nat, h: nat, interlaced: bool, c: Cell) returns (n: nat)
    requires c.row < h && c.col < w
    ensures n < Total(w, h, interlaced) && CellAt(w, h, interlaced, n) == c
  {
    hide RowOrder;
    var i := OrderCovers(h, interlaced, c.row);
    MulNonneg(i, w);
    n := i * w + c.col;
    MulSucc(i, w);
    MulLe(i + 1, |RowOrder(h, interlaced)|, w);
    DivModIs(n, w, i, c.col);
  }

  /** once, and nothing outside it is. */
  lemma CellOnce(w: nat, h: nat, interlaced: bool, m: nat, n: nat)
    requires m < Total(w, h, interlaced) && n < Total(w, h, interlaced)
    ensures CellAt(w, h, interlaced, n).row < h && CellAt(w, h, interlaced, n).col < w
    ensures CellAt(w, h, interlaced, m) == CellAt(w, h, interlaced, n) ==> m == n
  {
    hide RowOrder;
    OrderDistinct(h, interlaced);
    var rows := RowOrder(h, interlaced);
    RowIndex(m, |rows|, w);
    RowIndex(n, |rows|, w);
    assert rows[n / w] in rows;
    assert m == m / w * w + m % w && n == n / w * w + n % w;
  }
}
