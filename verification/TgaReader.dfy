/** `stbi__tga_load` for images without a colour map. */
module TgaReader {
  import opened Words
  import opened BitStream
  import opened Slices
  import opened TgaSpec

  /** `stbi__getn` into an array: all of it or nothing. */
  method GetN(s: seq<Byte>, pos: nat, a: array<Byte>, to: nat, n: nat)
    requires to + n <= a.Length
    modifies a
    ensures forall q :: 0 <= q < a.Length && !(to <= q < to + n) ==> a[q] == old(a[q])
    ensures pos + n <= |s| ==> a[to..to + n] == s[pos..pos + n]
  {
    if pos + n <= |s| {
      for k := 0 to n
        invariant forall q :: 0 <= q < a.Length && !(to <= q < to + k) ==> a[q] == old(a[q])
        invariant a[to..to + k] == s[pos..pos + k]
      {
        ghost var before := a[to..to + k];
        a[to + k] := s[pos + k];
        assert a[to..to + (k + 1)] == before + [s[pos + k]];
      }
    }
  }

  /** Rows read straight to their places, from the bottom up if need be. */
  method ReadRaw(s: seq<Byte>, start: nat, rb: nat, h: nat, inverted: bool, a: array<Byte>)
    requires a.Length == Times(h, rb)
    modifies a
    ensures start + Times(h, rb) <= |s| ==>
              a[..] == if inverted then Flipped(Bytes(s, start, Times(h, rb)), rb, h) else Bytes(s, start, Times(h, rb))
  {
    hide Times, Flipped, Bytes;
    var pos := start;
    TimesStep(1, rb);
    for i := 0 to h
      invariant pos == start + Times(i, rb)
      invariant start + Times(h, rb) <= |s| ==> RowsRead(a[..], s, start, rb, h, inverted, i)
    {
      var row := if inverted then h - i - 1 else i;
      RowStart(row, h, rb);
      RowStart(i, h, rb);
      ghost var before := a[..];
      GetN(s, pos, a, Times(row, rb), rb);
      if start + Times(h, rb) <= |s| {
        RowRead(before, a[..], s, start, rb, h, inverted, i);
      }
      pos := pos + rb;
    }
    if start + Times(h, rb) <= |s| {
      AllRowsRead(a[..], s, start, rb, h, inverted);
    }
  }

  lemma RowStart(i: nat, h: nat, rb: nat)
    requires i < h
    ensures Times(i, rb) + rb <= Times(h, rb) && Times(i + 1, rb) == Times(i, rb) + rb
  {
    MulLe(i + 1, h, rb);
    MulSucc(i, rb);
  }

  function RowOf(i: nat, h: nat, inverted: bool): nat
    requires i < h
  {
    if inverted then h - i - 1 else i
  }

  ghost predicate RowsRead(a: seq<Byte>, s: seq<Byte>, start: nat, rb: nat, h: nat, inverted: bool, n: nat)
  {
    |a| == Times(h, rb) && start + Times(h, rb) <= |s|
    && forall i: nat :: i < n && i < h ==> IsRow(a, s, start, rb, h, inverted, i)
  }

  /** Row `i` of the file is where it belongs. */
  ghost predicate IsRow(a: seq<Byte>, s: seq<Byte>, start: nat, rb: nat, h: nat, inverted: bool, i: nat)
    requires |a| == Times(h, rb) && start + Times(h, rb) <= |s| && i < h
  {
    RowStart(i, h, rb);
    RowStart(RowOf(i, h, inverted), h, rb);
    var r := Times(RowOf(i, h, inverted), rb);
    a[r..r + rb] == s[start + Times(i, rb)..start + Times(i, rb) + rb]
  }

  lemma RowRead(before: seq<Byte>, after: seq<Byte>, s: seq<Byte>, start: nat, rb: nat, h: nat, inverted: bool, i: nat)
    requires i < h && RowsRead(before, s, start, rb, h, inverted, i) && |after| == |before|
    requires var r := Times(RowOf(i, h, inverted), rb);
             forall q :: 0 <= q < |after| && !(r <= q < r + rb) ==> after[q] == before[q]
    requires IsRow(after, s, start, rb, h, inverted, i)
    ensures RowsRead(after, s, start, rb, h, inverted, i + 1)
  {
    hide Times;
    var r := RowOf(i, h, inverted);
    forall k: nat | k < i + 1 && k < h ensures IsRow(after, s, start, rb, h, inverted, k) {
      if k < i {
        assert IsRow(before, s, start, rb, h, inverted, k);
        var m := RowOf(k, h, inverted);
        RowStart(m, h, rb);
        Apart(m, r, rb);
        assert after[Times(m, rb)..Times(m, rb) + rb] == before[Times(m, rb)..Times(m, rb) + rb];
      }
    }
  }

  lemma Apart(m: nat, r: nat, rb: nat)
    requires m != r
    ensures Times(m, rb) + rb <= Times(r, rb) || Times(r, rb) + rb <= Times(m, rb)
  {
    if m < r {
      MulLe(m + 1, r, rb);
      MulSucc(m, rb);
    } else {
      MulLe(r + 1, m, rb);
      MulSucc(r, rb);
    }
  }

  lemma AllRowsRead(a: seq<Byte>, s: seq<Byte>, start: nat, rb: nat, h: nat, inverted: bool)
    requires RowsRead(a, s, start, rb, h, inverted, h)
    ensures a == if inverted then Flipped(Bytes(s, start, Times(h, rb)), rb, h) else Bytes(s, start, Times(h, rb))
  {
    hide Times, Flipped, Bytes;
    var body := s[start..start + Times(h, rb)];
    BytesAre(s, start, body);
    var want := if inverted then Flipped(body, rb, h) else body;
    forall q | 0 <= q < |a| ensures a[q] == want[q] {
      var j, c := RowIndex(q, h, rb);
      RowByte(a, s, start, rb, h, inverted, j, c);
      assert body[Times(RowOf(j, h, inverted), rb) + c] == s[start + (Times(RowOf(j, h, inverted), rb) + c)];
      if inverted {
        FlippedRow(body, rb, h, j, c);
      }
    }
  }

  lemma RowByte(a: seq<Byte>, s: seq<Byte>, start: nat, rb: nat, h: nat, inverted: bool, j: nat, c: nat)
    requires RowsRead(a, s, start, rb, h, inverted, h) && j < h && c < rb
    ensures var i := RowOf(j, h, inverted);
            Times(j, rb) + c < |a| && Times(i, rb) + c < |a| && a[Times(j, rb) + c] == s[start + (Times(i, rb) + c)]
  {
    hide Times;
    var i := RowOf(j, h, inverted);
    RowStart(i, h, rb);
    RowStart(j, h, rb);
    assert IsRow(a, s, start, rb, h, inverted, i);
    assert RowOf(i, h, inverted) == j;
    SameByte(a, Times(j, rb), s, start + Times(i, rb), rb, c);
  }

  lemma SameByte(a: seq<Byte>, p: nat, b: seq<Byte>, q: nat, n: nat, c: nat)
    requires p + n <= |a| && q + n <= |b| && a[p..p + n] == b[q..q + n] && c < n
    ensures a[p + c] == b[q + c]
  {
    assert a[p..p + n][c] == b[q..q + n][c];
  }

  // ----- run-length packets

  method ReadRle(s: seq<Byte>, start: nat, comp: nat, total: nat, a: array<Byte>)
    requires a.Length == Times(total, comp)
    modifies a
    ensures a[..] == RlePixels(s, start, comp, total, 0, false, [])
  {
    hide Times, RlePixels, Bytes;
    var pos := start;
    var raw: seq<Byte> := [];
    var count: nat, repeating := 0, false;
    TimesStep(1, comp);
    ghost var all := RlePixels(s, start, comp, total, 0, false, []);
    assert a[..0] == [];
    for i := 0 to total
      invariant (count > 0 && repeating ==> |raw| == comp) && Times(i, comp) <= a.Length
      invariant a[..Times(i, comp)] + RlePixels(s, pos, comp, total - i, count, repeating, raw) == all
    {
      RowStart(i, total, comp);
      pos, count, repeating, raw := NextPixel(s, pos, comp, count, repeating, raw, total - i);
      ghost var done, next := a[..Times(i, comp)], RlePixels(s, pos, comp, total - i - 1, count - 1, repeating, raw);
      Regroup(done, raw, next);
      PutPixel(a, Times(i, comp), raw);
      assert a[..Times(i + 1, comp)] == done + raw;
      count := count - 1;
    }
    NoPixels(s, pos, comp, count, repeating, raw);
    assert a[..Times(total, comp)] == a[..];
  }

  /** A command byte if none is running, then a pixel unless the last one repeats. */
  method NextPixel(s: seq<Byte>, at: nat, comp: nat, left: nat, again: bool, last: seq<Byte>, ghost need: nat)
    returns (pos: nat, count: nat, repeating: bool, raw: seq<Byte>)
    requires need > 0 && (left > 0 && again ==> |last| == comp)
    ensures count > 0 && |raw| == comp
    ensures RlePixels(s, at, comp, need, left, again, last)
            == raw + RlePixels(s, pos, comp, need - 1, count - 1, repeating, raw)
  {
    hide Times, RlePixels, Bytes;
    RleStep(s, at, comp, need, left, again, last);
    pos, count, repeating, raw := at, left, again, last;
    var read_next := !again;
    if count == 0 {
      var cmd: nat := ByteAt(s, pos);
      pos := pos + 1;
      count := 1 + cmd % 128;
      repeating := cmd >= 128;
      read_next := true;
    }
    if read_next {
      raw := Bytes(s, pos, comp);
      pos := pos + comp;
    }
  }

  lemma NoPixels(s: seq<Byte>, pos: nat, comp: nat, count: nat, repeating: bool, raw: seq<Byte>)
    requires count > 0 && repeating ==> |raw| == comp
    ensures RlePixels(s, pos, comp, 0, count, repeating, raw) == []
  {
  }

  method PutPixel(a: array<Byte>, to: nat, raw: seq<Byte>)
    requires to + |raw| <= a.Length
    modifies a
    ensures a[..to + |raw|] == old(a[..to]) + raw
  {
    for j := 0 to |raw|
      invariant a[..to] == old(a[..to]) && a[to..to + j] == raw[..j]
    {
      a[to + j] := raw[j];
    }
    assert a[..to + |raw|] == a[..to] + a[to..to + |raw|];
  }

  lemma RleStep(s: seq<Byte>, pos: nat, comp: nat, need: nat, count: nat, repeating: bool, raw: seq<Byte>)
    requires need > 0 && (count > 0 && repeating ==> |raw| == comp)
    ensures var rest := RlePixels(s, pos, comp, need, count, repeating, raw);
            if count == 0 then
              var cmd: nat := ByteAt(s, pos);
              var px := Bytes(s, pos + 1, comp);
              rest == px + RlePixels(s, pos + 1 + comp, comp, need - 1, cmd % 128, cmd >= 128, px)
            else if repeating then rest == raw + RlePixels(s, pos, comp, need - 1, count - 1, repeating, raw)
            else
              var px := Bytes(s, pos, comp);
              rest == px + RlePixels(s, pos + comp, comp, need - 1, count - 1, repeating, px)
  {
    hide Bytes, Times;
  }

  // ----- in place

  method SwapRows(a: array<Byte>, i1: nat, i2: nat, n: nat)
    requires i1 + n <= a.Length && i2 + n <= a.Length && (i1 == i2 || i1 + n <= i2)
    modifies a
    ensures a[i1..i1 + n] == old(a[i2..i2 + n]) && a[i2..i2 + n] == old(a[i1..i1 + n])
    ensures forall q :: 0 <= q < a.Length && !(i1 <= q < i1 + n) && !(i2 <= q < i2 + n) ==> a[q] == old(a[q])
  {
    ghost var was := a[..];
    for k := 0 to n
      invariant a[i1..i1 + k] == was[i2..i2 + k] && a[i2..i2 + k] == was[i1..i1 + k]
      invariant forall q :: 0 <= q < a.Length && !(i1 <= q < i1 + k) && !(i2 <= q < i2 + k) ==> a[q] == was[q]
    {
      ghost var b1, b2 := a[i1..i1 + k], a[i2..i2 + k];
      var temp := a[i1 + k];
      a[i1 + k] := a[i2 + k];
      a[i2 + k] := temp;
      assert a[i1..i1 + k] == b1 && a[i2..i2 + k] == b2;
      OneLonger(a[..], was, i1, i2, k);
      OneLonger(a[..], was, i2, i1, k);
    }
  }

  lemma OneLonger(a: seq<Byte>, was: seq<Byte>, i: nat, j: nat, k: nat)
    requires i + k < |a| && j + k < |was| && a[i..i + k] == was[j..j + k] && a[i + k] == was[j + k]
    ensures a[i..i + (k + 1)] == was[j..j + (k + 1)]
  {
    assert a[i..i + (k + 1)] == a[i..i + k] + [a[i + k]];
    assert was[j..j + (k + 1)] == was[j..j + k] + [was[j + k]];
  }

  function Row(a: seq<Byte>, rb: nat, h: nat, r: nat): (s: seq<Byte>)
    requires |a| == Times(h, rb) && r < h
    ensures |s| == rb
  {
    RowStart(r, h, rb);
    a[Times(r, rb)..Times(r, rb) + rb]
  }

  /** The outer `j` rows on each side are swapped, the rows between are as they were. */
  ghost predicate Swapped(now: seq<Byte>, was: seq<Byte>, rb: nat, h: nat, j: nat)
  {
    && |now| == |was| == Times(h, rb)
    && forall r: nat :: r < h ==> Row(now, rb, h, r) == Row(was, rb, h, Mirror(r, h, j))
  }

  function Mirror(r: nat, h: nat, j: nat): nat
    requires r < h
  {
    if r < j || r > h - 1 - j then h - 1 - r else r
  }

  method InvertRows(a: array<Byte>, rb: nat, h: nat)
    requires a.Length == Times(h, rb)
    modifies a
    ensures a[..] == Flipped(old(a[..]), rb, h)
  {
    hide Times, Flipped, Row, Swapped;
    ghost var was := a[..];
    var j := 0;
    NoneSwapped(was, rb, h);
    while j * 2 < h
      invariant 0 <= j && j * 2 <= h + 1 && Swapped(a[..], was, rb, h, j)
    {
      SwapPair(a, rb, h, j, was);
      j := j + 1;
    }
    AllSwapped(a[..], was, rb, h, j);
  }

  /** Rows `j` and `h - 1 - j`. */
  method SwapPair(a: array<Byte>, rb: nat, h: nat, j: nat, ghost was: seq<Byte>)
    requires j * 2 < h && Swapped(a[..], was, rb, h, j)
    modifies a
    ensures Swapped(a[..], was, rb, h, j + 1)
  {
    hide Times, Mirror;
    var m := h - 1 - j;
    RowStart(j, h, rb);
    RowStart(m, h, rb);
    if j < m {
      Ordered(j, m, rb);
    }
    ghost var before := a[..];
    SwapRows(a, Times(j, rb), Times(m, rb), rb);
    assert Row(a[..], rb, h, j) == Row(before, rb, h, m) && Row(a[..], rb, h, m) == Row(before, rb, h, j);
    forall r: nat | r < h && r != j && r != m ensures Row(a[..], rb, h, r) == Row(before, rb, h, r) {
      RowKept(before, a[..], rb, h, j, m, r);
    }
    MoreSwapped(before, a[..], was, rb, h, j);
  }

  lemma RowKept(before: seq<Byte>, after: seq<Byte>, rb: nat, h: nat, j: nat, m: nat, r: nat)
    requires |before| == |after| == Times(h, rb) && r < h && r != j && r != m
    requires forall q :: 0 <= q < |after| ==>
               !(Times(j, rb) <= q < Times(j, rb) + rb) && !(Times(m, rb) <= q < Times(m, rb) + rb) ==>
                 after[q] == before[q]
    ensures Row(after, rb, h, r) == Row(before, rb, h, r)
  {
    hide Times;
    RowStart(r, h, rb);
    Apart(r, j, rb);
    Apart(r, m, rb);
  }

  lemma Ordered(i: nat, j: nat, rb: nat)
    requires i < j
    ensures Times(i, rb) + rb <= Times(j, rb)
  {
    MulLe(i + 1, j, rb);
    MulSucc(i, rb);
  }

  lemma NoneSwapped(was: seq<Byte>, rb: nat, h: nat)
    requires |was| == Times(h, rb)
    ensures Swapped(was, was, rb, h, 0)
  {
    hide Times, Row;
  }

  lemma MoreSwapped(before: seq<Byte>, after: seq<Byte>, was: seq<Byte>, rb: nat, h: nat, j: nat)
    requires j * 2 < h && Swapped(before, was, rb, h, j) && |after| == |before|
    requires Row(after, rb, h, j) == Row(before, rb, h, h - 1 - j)
    requires Row(after, rb, h, h - 1 - j) == Row(before, rb, h, j)
    requires forall r: nat :: r < h && r != j && r != h - 1 - j ==> Row(after, rb, h, r) == Row(before, rb, h, r)
    ensures Swapped(after, was, rb, h, j + 1)
  {
    hide Times, Row;
    var m := h - 1 - j;
    assert Row(before, rb, h, j) == Row(was, rb, h, j) && Row(before, rb, h, m) == Row(was, rb, h, m);
    forall r: nat | r < h ensures Row(after, rb, h, r) == Row(was, rb, h, Mirror(r, h, j + 1)) {
      if r != j && r != m {
        assert Mirror(r, h, j) == Mirror(r, h, j + 1);
        assert Row(before, rb, h, r) == Row(was, rb, h, Mirror(r, h, j));
      }
    }
  }

  lemma AllSwapped(now: seq<Byte>, was: seq<Byte>, rb: nat, h: nat, j: nat)
    requires Swapped(now, was, rb, h, j) && h <= j * 2
    ensures now == Flipped(was, rb, h)
  {
    hide Times, Flipped;
    var f := Flipped(was, rb, h);
    forall q | 0 <= q < |now| ensures now[q] == f[q] {
      var r, c := RowIndex(q, h, rb);
      RowStart(r, h, rb);
      MirrorAll(r, h, j);
      FlippedRow(was, rb, h, r, c);
      RowStart(h - 1 - r, h, rb);
      assert Row(now, rb, h, r)[c] == Row(was, rb, h, h - 1 - r)[c];
    }
  }

  lemma MirrorAll(r: nat, h: nat, j: nat)
    requires r < h <= j * 2
    ensures Mirror(r, h, j) == h - 1 - r
  {
  }

  /** First and third channel of every pixel exchanged. */
  method SwapColours(a: array<Byte>, total: nat, comp: nat)
    requires comp >= 3 && a.Length == Times(total, comp)
    modifies a
    ensures a[..] == Stored(old(a[..]), comp)
  {
    hide Times, Stored, StoredPx;
    ghost var was := a[..];
    TimesStep(1, comp);
    var p := 0;
    StoredEmpty(was[..0], comp);
    for i := 0 to total
      invariant p == Times(i, comp) <= a.Length
      invariant a[..p] == Stored(was[..p], comp) && a[p..] == was[p..]
    {
      RowStart(i, total, comp);
      ghost var px := was[p..p + comp];
      assert a[p..p + comp] == a[p..][..comp] == px;
      assert a[p + comp..] == a[p..][comp..] == was[p + comp..];
      SwapOne(a, p, comp);
      StoredStep(was[..p + comp], comp);
      assert was[..p + comp][..p] == was[..p] && was[..p + comp][p..] == px;
      assert a[..p + comp] == a[..p] + a[p..p + comp];
      p := p + comp;
    }
    assert a[..p] == a[..] && was[..p] == was;
  }

  method SwapOne(a: array<Byte>, p: nat, comp: nat)
    requires comp >= 3 && p + comp <= a.Length
    modifies a
    ensures a[..p] == old(a[..p]) && a[p + comp..] == old(a[p + comp..])
    ensures a[p..p + comp] == StoredPx(old(a[p..p + comp]))
  {
    var temp := a[p];
    a[p] := a[p + 2];
    a[p + 2] := temp;
  }

  method LoadTga(s: seq<Byte>) returns (r: Tga)
    ensures !Parse(s).Truncated? ==> r == Parse(s)
  {
    hide Times, Stored, Flipped, Bytes, RlePixels, SizesValid;
    var image_type := ByteAt(s, 2);
    var rle := false;
    if image_type >= 8 {
      image_type := image_type - 8;
      rle := true;
    }
    var w, h := Le16(ByteAt(s, 12), ByteAt(s, 13)), Le16(ByteAt(s, 14), ByteAt(s, 15));
    var inverted := ByteAt(s, 17) / 32 % 2 == 0;
    var (comp, wide) := GetComp(ByteAt(s, 16), image_type == 3);
    if ByteAt(s, 1) != 0 || wide {
      return Outside;
    }
    if comp == 0 {
      return BadFormat;
    }
    if !SizesValid(w, h, comp, 0) {
      return TooLarge;
    }
    var pixels := LoadBody(s, 18 + ByteAt(s, 0), w, h, comp, rle, inverted);
    r := Loaded(w, h, comp, pixels);
  }

  method LoadBody(s: seq<Byte>, start: nat, w: nat, h: nat, comp: nat, rle: bool, inverted: bool)
    returns (pixels: seq<Byte>)
    requires comp > 0
    ensures var n := Times(Times(w, h), comp);
            rle || start + n <= |s| ==>
              var body := if rle then RlePixels(s, start, comp, Times(w, h), 0, false, []) else Bytes(s, start, n);
              n == Times(h, Times(w, comp))
              && var rows := if inverted then Flipped(body, Times(w, comp), h) else body;
              pixels == if comp >= 3 then Stored(rows, comp) else rows
  {
    hide Times, Stored, Flipped, Bytes, RlePixels;
    Area(w, h, comp);
    var rb := Times(w, comp);
    var a := new Byte[Times(Times(w, h), comp)];
    if !rle {
      ReadRaw(s, start, rb, h, inverted, a);
    } else {
      ReadRle(s, start, comp, Times(w, h), a);
      if inverted {
        InvertRows(a, rb, h);
      }
    }
    if comp >= 3 {
      SwapColours(a, Times(w, h), comp);
    }
    pixels := a[..];
  }
}
