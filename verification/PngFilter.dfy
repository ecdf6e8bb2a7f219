/** PNG line filters, as section 6 of RFC 2083 defines them: every byte is predicted from
    its left, upper and upper-left neighbours, with zeros outside the image. */
module PngFilter {
  import opened Words

  function Paeth(a: int, b: int, c: int): int
  {
    var p := a + b - c;
    var pa, pb, pc := Abs(p - a), Abs(p - b), Abs(p - c);
    if pa <= pb && pa <= pc then a else if pb <= pc then b else c
  }

  function Predict(filter: nat, left: Byte, up: Byte, corner: Byte): int
    requires filter <= 4
  {
    var l: int, u: int := left, up;
    match filter
    case 0 => 0
    case 1 => l
    case 2 => u
    case 3 => (l + u) / 2
    case _ => Paeth(left, up, corner)
  }

  // ----- what the predictions mean

  /** `x` lies no farther than `y` from `p`. */
  predicate NoFarther(p: int, x: int, y: int)
  {
    (x <= p && p - x <= (if y <= p then p - y else y - p)) || (x > p && x - p <= (if y <= p then p - y else y - p))
  }

  /** Section 6.6 of RFC 2083: the neighbour nearest to the initial estimate, ties broken in the order
      left, above, upper left. */
  predicate Nearest(a: int, b: int, c: int, x: int)
  {
    var p := a + b - c;
    && (x == a || x == b || x == c)
    && NoFarther(p, x, a) && NoFarther(p, x, b) && NoFarther(p, x, c)
    && (NoFarther(p, a, x) ==> x == a) && (NoFarther(p, b, x) && x != a ==> x == b)
  }

  /** Sections 6.2 to 6.6: nothing, the byte to the left, the byte above, their rounded-down mean, the
      nearest neighbour. */
  predicate Predicts(filter: nat, left: int, up: int, corner: int, x: int)
  {
    match filter
    case 0 => x == 0
    case 1 => x == left
    case 2 => x == up
    case 3 => 2 * x <= left + up <= 2 * x + 1
    case 4 => Nearest(left, up, corner, x)
    case _ => false
  }

  /** The prediction is the one the sections ask for, and they ask for one only. */
  lemma PredictIs(filter: nat, left: Byte, up: Byte, corner: Byte, x: int)
    requires filter <= 4
    ensures Predicts(filter, left, up, corner, x) <==> x == Predict(filter, left, up, corner)
  {
  }

  /** The byte `n` places to the left, 0 at the start of the row. */
  function LeftOf(row: seq<Byte>, i: nat, n: nat): Byte
    requires i <= |row|
  {
    if n == 0 || i < n then 0 else row[i - n]
  }

  function FilteredByte(filter: nat, n: nat, row: seq<Byte>, prior: seq<Byte>, i: nat): Byte
    requires filter <= 4 && i < |row| == |prior|
  {
    (row[i] - Predict(filter, LeftOf(row, i, n), prior[i], LeftOf(prior, i, n))) % 256
  }

  function FilterRow(filter: nat, n: nat, row: seq<Byte>, prior: seq<Byte>): (r: seq<Byte>)
    requires filter <= 4 && |row| == |prior|
    ensures |r| == |row|
  {
    seq(|row|, i requires 0 <= i < |row| => FilteredByte(filter, n, row, prior, i))
  }

  /** The first `k` bytes of a row, reconstructed left to right. */
  function Recon(filter: nat, n: nat, raw: seq<Byte>, prior: seq<Byte>, k: nat): (r: seq<Byte>)
    requires filter <= 4 && k <= |raw| == |prior|
    ensures |r| == k
  {
    if k == 0 then []
    else
      var done := Recon(filter, n, raw, prior, k - 1);
      done + [ReconByte(filter, n, raw[k - 1], done, prior)]
  }

  function ReconByte(filter: nat, n: nat, x: Byte, done: seq<Byte>, prior: seq<Byte>): Byte
    requires filter <= 4 && |done| < |prior|
  {
    (x + Predict(filter, LeftOf(done, |done|, n), prior[|done|], LeftOf(prior, |done|, n))) % 256
  }

  /** Every reconstructed byte differs from its filtered byte by the prediction of its filter from
      the bytes of the image to the left, above and to the upper left, modulo 256. */
  lemma ReconMeans(filter: nat, n: nat, raw: seq<Byte>, prior: seq<Byte>, m: nat) returns (x: int)
    requires filter <= 4 && m < |raw| == |prior|
    ensures var r := Recon(filter, n, raw, prior, |raw|);
            && Predicts(filter, if 0 < n <= m then r[m - n] else 0, prior[m], if 0 < n <= m then prior[m - n] else 0, x)
            && (r[m] - x) % 256 == raw[m]
  {
    hide Recon, Predict;
    var r := Recon(filter, n, raw, prior, |raw|);
    ReconAt(filter, n, raw, prior, |raw|, m);
    x := Predict(filter, LeftOf(r, m, n), prior[m], LeftOf(prior, m, n));
    PredictIs(filter, LeftOf(r, m, n), prior[m], LeftOf(prior, m, n), x);
  }

  /** Every byte of a reconstructed row, from its reconstructed left neighbour. */
  lemma {:induction false} ReconAt(filter: nat, n: nat, raw: seq<Byte>, prior: seq<Byte>, k: nat, m: nat)
    requires filter <= 4 && m < k <= |raw| == |prior|
    ensures var r := Recon(filter, n, raw, prior, k);
            r[m] == (raw[m] + Predict(filter, LeftOf(r, m, n), prior[m], LeftOf(prior, m, n))) % 256
  {
    hide Predict;
    if m < k - 1 {
      ReconAt(filter, n, raw, prior, k - 1, m);
    }
  }

  /** Reconstruction undoes filtering, byte by byte. */
  lemma {:induction false} ReconFiltered(filter: nat, n: nat, row: seq<Byte>, prior: seq<Byte>, k: nat)
    requires filter <= 4 && k <= |row| == |prior|
    ensures Recon(filter, n, FilterRow(filter, n, row, prior), prior, k) == row[..k]
  {
    hide Predict;
    if k > 0 {
      ReconFiltered(filter, n, row, prior, k - 1);
      var done := row[..k - 1];
      assert LeftOf(done, k - 1, n) == LeftOf(row, k - 1, n);
      AddBack(row[k - 1], Predict(filter, LeftOf(row, k - 1, n), prior[k - 1], LeftOf(prior, k - 1, n)));
      assert done + [row[k - 1]] == row[..k];
    }
  }

  lemma AddBack(x: Byte, p: int)
    ensures ((x - p) % 256 + p) % 256 == x
  {
  }

  // ----- images

  type Row = seq<Byte>

  datatype Rows = Rows(rows: seq<Row>) | BadFilter

  function Zeros(w: nat): (r: Row)
    ensures |r| == w
  {
    seq(w, _ => 0)
  }

  ghost predicate AllOf(rows: seq<Row>, w: nat)
  {
    forall i :: 0 <= i < |rows| ==> |rows[i]| == w
  }

  /** The row above the next one. */
  function Prior(rows: seq<Row>, w: nat): Row
  {
    if rows == [] then Zeros(w) else rows[|rows| - 1]
  }

  /** Filter-type bytes and filtered rows, undone; `raw` holds whole lines of `w + 1` bytes. */
  function Unfilter(raw: seq<Byte>, n: nat, w: nat): (r: Rows)
    ensures r.Rows? ==> AllOf(r.rows, w)
    decreases |raw|
  {
    if |raw| <= w then Rows([])
    else
      var k := |raw| - (w + 1);
      match Unfilter(raw[..k], n, w)
      case BadFilter => BadFilter
      case Rows(rows) =>
        if raw[k] > 4 then BadFilter
        else Rows(rows + [Recon(raw[k], n, raw[k + 1..], Prior(rows, w), w)])
  }

  function Flat(rows: seq<Row>): Row
  {
    if rows == [] then [] else Flat(rows[..|rows| - 1]) + rows[|rows| - 1]
  }

  /** One more written line is one more row read, whatever filter was chosen for it. */
  lemma UnfilterLine(filt: seq<Byte>, n: nat, w: nat, rows: seq<Row>, filter: nat, row: Row)
    requires Unfilter(filt, n, w) == Rows(rows) && filter <= 4 && |row| == w
    ensures AllOf(rows, w)
    ensures Unfilter(filt + [filter] + FilterRow(filter, n, row, Prior(rows, w)), n, w) == Rows(rows + [row])
  {
    hide FilterRow, Recon;
    var prior := Prior(rows, w);
    var line := FilterRow(filter, n, row, prior);
    var raw := filt + [filter] + line;
    assert raw[..|raw| - (w + 1)] == filt && raw[|filt|] == filter && raw[|filt| + 1..] == line;
    ReconFiltered(filter, n, row, prior, w);
    assert row[..w] == row;
  }

  // ----- inserting an alpha channel

  /** The first `p` pixels of a row, each followed by 255. */
  function WithAlpha(row: Row, n: nat, p: nat): (r: Row)
    requires p * n <= |row|
    ensures |r| == p * n + p
  {
    if p == 0 then []
    else
      Products(p, n);
      WithAlpha(row, n, p - 1) + row[(p - 1) * n..p * n] + [255]
  }

  lemma Products(p: nat, n: nat)
    requires p > 0
    ensures p * n == (p - 1) * n + n
    ensures 0 <= (p - 1) * n
  {
  }

  /** Where the bytes of pixel `q` went. */
  lemma {:induction false} WithAlphaAt(row: Row, n: nat, p: nat, q: nat, c: nat)
    requires p * n <= |row| && q < p && c < n
    ensures q * n + c < p * n
    ensures WithAlpha(row, n, p)[q * n + q + c] == row[q * n + c]
  {
    Products(p, n);
    if q == p - 1 {
    } else {
      WithAlphaAt(row, n, p - 1, q, c);
      InBounds(q, p - 1, n, c);
    }
  }

  lemma WithAlphaPixel(row: Row, n: nat, p: nat, q: nat)
    requires p * n <= |row| && q < p
    ensures q * n + n <= p * n && q * n + q + n < p * n + p
    ensures WithAlpha(row, n, p)[q * n + q..q * n + q + n] == row[q * n..q * n + n]
  {
    hide WithAlpha;
    MulLe(q + 1, p, n);
    MulSucc(q, n);
    var a, b := WithAlpha(row, n, p)[q * n + q..q * n + q + n], row[q * n..q * n + n];
    forall c | 0 <= c < n ensures a[c] == b[c] {
      WithAlphaAt(row, n, p, q, c);
    }
  }

  lemma InBounds(q: nat, p: nat, n: nat, c: nat)
    requires q < p && c < n
    ensures q * n + q + c < p * n + p
  {
    MulLe(q + 1, p, n);
    MulSucc(q, n);
  }

  lemma {:induction false} WithAlphaPrefix(a: Row, b: Row, n: nat, p: nat)
    requires p * n <= |a| <= |b| && a == b[..|a|]
    ensures WithAlpha(a, n, p) == WithAlpha(b, n, p)
  {
    if p > 0 {
      Products(p, n);
      WithAlphaPrefix(a, b, n, p - 1);
      assert a[(p - 1) * n..p * n] == b[(p - 1) * n..p * n];
    }
  }
}
