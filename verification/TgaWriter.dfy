/** `stbi_write_tga_core`. */
module TgaWriter {
  import opened Words
  import opened TgaSpec

  /** Pixel `k` of a row. */
  function Px(row: seq<Byte>, k: nat, comp: nat): (r: seq<Byte>)
    requires Times(k, comp) + comp <= |row|
    ensures |r| == comp
  {
    row[Times(k, comp)..Times(k, comp) + comp]
  }

  /** Pixels `i` to `j` of a row. */
  function Part(row: seq<Byte>, i: nat, j: nat, comp: nat): seq<Byte>
    requires Times(i, comp) <= Times(j, comp) <= |row|
  {
    row[Times(i, comp)..Times(j, comp)]
  }

  lemma PxInside(k: nat, x: nat, comp: nat)
    requires k < x
    ensures Times(k, comp) + comp <= Times(x, comp) && Times(k + 1, comp) == Times(k, comp) + comp
  {
    MulLe(k + 1, x, comp);
    MulSucc(k, comp);
  }

  lemma PartInside(i: nat, j: nat, comp: nat)
    requires i <= j
    ensures Times(i, comp) <= Times(j, comp) && Times(j, comp) - Times(i, comp) == Times(j - i, comp)
  {
    MulLe(i, j, comp);
    MulSub(j, i, comp);
  }

  /** `stbiw__write_pixel` as the TGA writer calls it. */
  method WritePixel(out: seq<Byte>, comp: nat, d: seq<Byte>) returns (r: seq<Byte>)
    requires 1 <= comp <= 4 && |d| == comp
    ensures r == out + StoredPx(d)
  {
    if comp <= 2 {
      r := out + [d[0]];
    } else {
      r := out + [d[2], d[1], d[0]];
    }
    if comp == 2 || comp == 4 {
      r := r + [d[comp - 1]];
    }
  }

  /** Pixels `i` to `j` of a row, written one by one. */
  method WritePixels(out: seq<Byte>, row: seq<Byte>, x: nat, comp: nat, i: nat, j: nat) returns (r: seq<Byte>)
    requires 1 <= comp <= 4 && i <= j <= x && |row| == Times(x, comp)
    ensures Times(i, comp) <= Times(j, comp) <= |row|
    ensures r == out + Stored(Part(row, i, j, comp), comp)
  {
    hide Times, Stored, StoredPx;
    PartInside(i, j, comp);
    PartInside(j, x, comp);
    r := out;
    var k := i;
    PartInside(i, i, comp);
    StoredEmpty(Part(row, i, i, comp), comp);
    while k < j
      invariant i <= k <= j && Times(i, comp) <= Times(k, comp) <= |row|
      invariant r == out + Stored(Part(row, i, k, comp), comp)
    {
      PxInside(k, x, comp);
      StoredNext(row, i, k, x, comp);
      r := WritePixel(r, comp, Px(row, k, comp));
      k := k + 1;
    }
  }

  lemma StoredNext(row: seq<Byte>, i: nat, k: nat, x: nat, comp: nat)
    requires comp > 0 && i <= k < x && |row| == Times(x, comp)
    ensures Times(i, comp) <= Times(k, comp) && Times(k, comp) + comp == Times(k + 1, comp) <= |row|
    ensures Stored(Part(row, i, k + 1, comp), comp) == Stored(Part(row, i, k, comp), comp) + StoredPx(Px(row, k, comp))
  {
    hide Times, Stored, StoredPx;
    PxInside(k, x, comp);
    PartInside(i, k, comp);
    var p := Part(row, i, k + 1, comp);
    StoredStep(p, comp);
    assert p[..|p| - comp] == Part(row, i, k, comp) && p[|p| - comp..] == Px(row, k, comp);
  }

  // ----- run-length packets

  /** All pixels from `i` to `j` equal pixel `i`. */
  ghost predicate AllSame(row: seq<Byte>, x: nat, comp: nat, i: nat, j: nat)
  {
    forall k :: i <= k < j <= x ==> Same(row, comp, i, k)
  }

  predicate Same(row: seq<Byte>, comp: nat, i: nat, k: nat)
  {
    && Times(i, comp) + comp <= |row| && Times(k, comp) + comp <= |row|
    && Px(row, i, comp) == Px(row, k, comp)
  }

  /** How many pixels the next packet takes, and whether it is a literal one. */
  method ChoosePacket(row: seq<Byte>, x: nat, comp: nat, i: nat) returns (len: nat, diff: bool)
    requires |row| == Times(x, comp) && i < x
    ensures 1 <= len <= 128 && i + len <= x
    ensures !diff ==> AllSame(row, x, comp, i, i + len)
  {
    hide Same;
    len, diff := 1, true;
    if i < x - 1 {
      len := 2;
      diff := !Same(row, comp, i, i + 1);
      if diff {
        var prev: nat := i;
        var k := i + 2;
        while k < x && len < 128
          invariant 2 <= len <= 128 && k == i + len <= x && prev <= k
        {
          if !Same(row, comp, prev, k) {
            prev := prev + 1;
            len := len + 1;
          } else {
            len := len - 1;
            break;
          }
          k := k + 1;
        }
      } else {
        SameSelf(row, x, comp, i);
        var k := i + 2;
        while k < x && len < 128
          invariant 2 <= len <= 128 && k == i + len <= x && AllSame(row, x, comp, i, k)
        {
          if Same(row, comp, i, k) {
            len := len + 1;
          } else {
            break;
          }
          k := k + 1;
        }
      }
    }
  }

  lemma SameSelf(row: seq<Byte>, x: nat, comp: nat, i: nat)
    requires |row| == Times(x, comp) && i < x
    ensures Same(row, comp, i, i)
  {
    PxInside(i, x, comp);
  }

  /** Equal pixels, stored, are one pixel repeated. */
  lemma {:induction false} StoredSame(row: seq<Byte>, x: nat, comp: nat, i: nat, n: nat)
    requires comp > 0 && |row| == Times(x, comp) && i + n <= x && i < x && AllSame(row, x, comp, i, i + n)
    ensures Times(i, comp) + comp <= |row| && Times(i, comp) <= Times(i + n, comp) <= |row|
    ensures Stored(Part(row, i, i + n, comp), comp) == Repeated(StoredPx(Px(row, i, comp)), n)
    decreases n
  {
    hide Times, Stored, StoredPx;
    PxInside(i, x, comp);
    PartInside(i, i + n, comp);
    PartInside(i + n, x, comp);
    if n == 0 {
      StoredEmpty(Part(row, i, i, comp), comp);
    } else {
      StoredSame(row, x, comp, i, n - 1);
      StoredNext(row, i, i + n - 1, x, comp);
      assert Same(row, comp, i, i + n - 1);
      RepeatedEnd(StoredPx(Px(row, i, comp)), n);
    }
  }

  lemma {:induction false} RepeatedEnd(px: seq<Byte>, n: nat)
    requires n > 0
    ensures Repeated(px, n) == Repeated(px, n - 1) + px
  {
    if n > 1 {
      RepeatedEnd(px, n - 1);
      assert px + (Repeated(px, n - 2) + px) == px + Repeated(px, n - 2) + px;
    }
  }

  /** One packet. */
  method WritePacket(out: seq<Byte>, row: seq<Byte>, x: nat, comp: nat, i: nat, len: nat, diff: bool)
    returns (r: seq<Byte>, ghost k: Packet)
    requires 1 <= comp <= 4 && |row| == Times(x, comp) && 1 <= len <= 128 && i + len <= x
    requires !diff ==> AllSame(row, x, comp, i, i + len)
    ensures Proper(k, comp) && k.n == len && r == out + Coded(k)
    ensures Times(i, comp) <= Times(i + len, comp) <= |row| && Meaning(k) == Stored(Part(row, i, i + len, comp), comp)
  {
    hide Times, Stored, StoredPx, AllSame;
    PartInside(i, i + len, comp);
    PartInside(i + len, x, comp);
    if diff {
      var head: Byte := len - 1;
      r := WritePixels(out + [head], row, x, comp, i, i + len);
      k := Literal(Stored(Part(row, i, i + len, comp), comp), len);
    } else {
      StoredSame(row, x, comp, i, len);
      var head: Byte := (len - 129) % 256;
      r := WritePixel(out + [head], comp, Px(row, i, comp));
      k := Repeat(StoredPx(Px(row, i, comp)), len);
    }
    assert r == out + Coded(k);
  }

  /** One row: packets of one to 128 pixels that tile it. */
  method WriteRow(out: seq<Byte>, row: seq<Byte>, x: nat, comp: nat) returns (r: seq<Byte>, ghost ks: seq<Packet>)
    requires 1 <= comp <= 4 && |row| == Times(x, comp)
    ensures AllProper(ks, comp) && Count(ks) == x && MeaningAll(ks) == Stored(row, comp)
    ensures r == out + CodedAll(ks, comp) && RlePixels(r, |out|, comp, x, 0, false, []) == Stored(row, comp)
  {
    hide RlePixels, Times, Stored, Proper, Coded, Meaning, Part, AllSame;
    r, ks := out, [];
    var i := 0;
    TimesStep(1, comp);
    NoPart(row, comp);
    while i < x
      invariant i <= x && AllProper(ks, comp) && Count(ks) == i && r == out + CodedAll(ks, comp)
      invariant Times(0, comp) <= Times(i, comp) <= |row| && MeaningAll(ks) == Stored(Part(row, 0, i, comp), comp)
    {
      var len, diff := ChoosePacket(row, x, comp, i);
      ghost var k, before := Repeat([], 0), ks;
      r, k := WritePacket(r, row, x, comp, i, len, diff);
      ProperCount(k, comp);
      PartJoin(row, x, comp, i, i + len);
      ks := ks + [k];
      assert ks[..|ks| - 1] == before;
      i := i + len;
    }
    WholePart(row, x, comp);
    RowRead(r, out, ks, x, comp);
  }

  /** The packets of a row are read as its pixels. */
  lemma RowRead(r: seq<Byte>, out: seq<Byte>, ks: seq<Packet>, x: nat, comp: nat)
    requires AllProper(ks, comp) && Count(ks) == x && r == out + CodedAll(ks, comp)
    ensures RlePixels(r, |out|, comp, x, 0, false, []) == MeaningAll(ks)
  {
    hide AllProper, CodedAll, Count, MeaningAll, Times;
    assert r[|out|..|r|] == CodedAll(ks, comp);
    PacketsRead(r, |out|, comp, x, ks);
    assert RlePixels(r, |r|, comp, 0, 0, false, []) == [];
    assert MeaningAll(ks) + [] == MeaningAll(ks);
  }

  lemma NoPart(row: seq<Byte>, comp: nat)
    requires comp > 0
    ensures Times(0, comp) == 0 && Stored(Part(row, 0, 0, comp), comp) == []
  {
    hide Stored;
    StoredEmpty(Part(row, 0, 0, comp), comp);
  }

  lemma WholePart(row: seq<Byte>, x: nat, comp: nat)
    requires |row| == Times(x, comp) && Times(0, comp) == 0
    ensures Part(row, 0, x, comp) == row
  {
  }

  lemma PartJoin(row: seq<Byte>, x: nat, comp: nat, i: nat, j: nat)
    requires comp > 0 && |row| == Times(x, comp) && i <= j <= x
    ensures Times(0, comp) <= Times(i, comp) <= Times(j, comp) <= |row|
    ensures Stored(Part(row, 0, j, comp), comp)
            == Stored(Part(row, 0, i, comp), comp) + Stored(Part(row, i, j, comp), comp)
  {
    hide Times, Stored;
    TimesStep(1, comp);
    PartInside(i, j, comp);
    PartInside(j, x, comp);
    WholeTimes(j - i, comp);
    StoredConcat(Part(row, 0, i, comp), Part(row, i, j, comp), comp);
    assert Part(row, 0, j, comp) == Part(row, 0, i, comp) + Part(row, i, j, comp);
  }

  // ----- the image

  lemma {:induction false} PacketsJoin(a: seq<Packet>, b: seq<Packet>, comp: nat)
    requires AllProper(a, comp) && AllProper(b, comp)
    ensures AllProper(a + b, comp) && Count(a + b) == Count(a) + Count(b)
    ensures MeaningAll(a + b) == MeaningAll(a) + MeaningAll(b)
    ensures CodedAll(a + b, comp) == CodedAll(a, comp) + CodedAll(b, comp)
    decreases |b|
  {
    hide Proper, Coded, Meaning, MeaningAll, CodedAll, Count, AllProper;
    if b == [] {
      NoPackets(comp);
      assert a + b == a;
    } else {
      var b1, k := b[..|b| - 1], b[|b| - 1];
      InitProper(b, comp);
      PacketsJoin(a, b1, comp);
      PacketsEnd(b1, k, comp);
      PacketsEnd(a + b1, k, comp);
      assert b1 + [k] == b && a + b1 + [k] == a + b;
      Assoc(MeaningAll(a), MeaningAll(b1), Meaning(k));
      Assoc(CodedAll(a, comp), CodedAll(b1, comp), Coded(k));
    }
  }

  lemma InitProper(ks: seq<Packet>, comp: nat)
    requires AllProper(ks, comp) && ks != []
    ensures AllProper(ks[..|ks| - 1], comp) && Proper(ks[|ks| - 1], comp)
  {
  }

  lemma Assoc(a: seq<Byte>, b: seq<Byte>, c: seq<Byte>)
    ensures a + (b + c) == a + b + c
  {
  }

  lemma PacketsEnd(ks: seq<Packet>, k: Packet, comp: nat)
    requires AllProper(ks, comp) && Proper(k, comp)
    ensures AllProper(ks + [k], comp) && 1 <= k.n <= 128 && Count(ks + [k]) == Count(ks) + k.n
    ensures MeaningAll(ks + [k]) == MeaningAll(ks) + Meaning(k)
    ensures CodedAll(ks + [k], comp) == CodedAll(ks, comp) + Coded(k)
  {
    ProperCount(k, comp);
    hide Proper, Coded, Meaning;
    assert (ks + [k])[..|ks|] == ks;
  }

  function Header(format: Byte, x: nat, y: nat, comp: nat): (r: seq<Byte>)
    requires 1 <= comp <= 4
    ensures |r| == 18
  {
    [0, 0, format, 0, 0, 0, 0, 0, 0, 0, 0, 0, x % 256, x / 256 % 256, y % 256, y / 256 % 256,
     comp * 8, if comp == 2 || comp == 4 then 8 else 0]
  }

  /** The rows, last one first, raw. */
  method WriteRaw(out: seq<Byte>, x: nat, y: nat, comp: nat, data: seq<Byte>) returns (r: seq<Byte>)
    requires 1 <= comp <= 4 && |data| == Times(y, Times(x, comp))
    ensures r == out + Stored(Flipped(data, Times(x, comp), y), comp)
  {
    hide Times, Stored, Flipped;
    var rb := Times(x, comp);
    r := out;
    var j := y;
    assert data[..|data|] == data;
    while j > 0
      invariant 0 <= j <= y && Times(j, rb) <= |data|
      invariant r + Stored(Flipped(data[..Times(j, rb)], rb, j), comp) == out + Stored(Flipped(data, rb, y), comp)
    {
      var row := RowFromEnd(data, x, comp, j);
      r := WriteAll(r, row, x, comp);
      j := j - 1;
    }
    NoRowsLeft(data, rb, comp);
    assert r + [] == r;
  }

  method WriteAll(out: seq<Byte>, row: seq<Byte>, x: nat, comp: nat) returns (r: seq<Byte>)
    requires 1 <= comp <= 4 && |row| == Times(x, comp)
    ensures r == out + Stored(row, comp)
  {
    hide Times, Stored;
    TimesStep(1, comp);
    r := WritePixels(out, row, x, comp, 0, x);
    WholePart(row, x, comp);
  }

  lemma NoRowsLeft(data: seq<Byte>, rb: nat, comp: nat)
    requires comp > 0
    ensures Times(0, rb) == 0 && Stored(Flipped(data[..Times(0, rb)], rb, 0), comp) == []
  {
  }

  /** Row `j - 1`, the next to be written, and the rows that remain after it. */
  method RowFromEnd(data: seq<Byte>, x: nat, comp: nat, j: nat) returns (row: seq<Byte>)
    requires comp > 0 && j > 0 && Times(j, Times(x, comp)) <= |data|
    ensures |row| == Times(x, comp)
    ensures var rb := Times(x, comp);
            && Times(j - 1, rb) <= |data|
            && Stored(Flipped(data[..Times(j, rb)], rb, j), comp)
            == Stored(row, comp) + Stored(Flipped(data[..Times(j - 1, rb)], rb, j - 1), comp)
  {
    hide Times, Stored, Flipped;
    var rb := Times(x, comp);
    TimesStep(j, rb);
    ghost var d := data[..Times(j, rb)];
    FlippedStep(d, rb, j);
    row := data[Times(j - 1, rb)..Times(j, rb)];
    assert d[Times(j - 1, rb)..] == row && d[..Times(j - 1, rb)] == data[..Times(j - 1, rb)];
    WholeRows(d[..Times(j - 1, rb)], x, comp, j - 1);
    StoredConcat(row, Flipped(d[..Times(j - 1, rb)], rb, j - 1), comp);
  }

  lemma WholeRows(d: seq<Byte>, x: nat, comp: nat, h: nat)
    requires comp > 0 && |d| == Times(h, Times(x, comp))
    ensures Whole(|d|, comp)
  {
    hide Times;
    WholeTimes(x, comp);
    StoredFlipped(d, Times(x, comp), h, comp);
  }

  /** The rows, last one first, in packets. */
  method WriteRle(out: seq<Byte>, x: nat, y: nat, comp: nat, data: seq<Byte>)
    returns (r: seq<Byte>, ghost ks: seq<Packet>)
    requires 1 <= comp <= 4 && |data| == Times(y, Times(x, comp))
    ensures AllProper(ks, comp) && Count(ks) == Times(y, x) && r == out + CodedAll(ks, comp)
    ensures MeaningAll(ks) == Stored(Flipped(data, Times(x, comp), y), comp)
  {
    hide Times, Stored, Flipped, Proper, CodedAll, Count, MeaningAll;
    var rb := Times(x, comp);
    r, ks := out, [];
    NoPackets(comp);
    var j := y;
    assert data[..|data|] == data;
    TimesStep(1, x);
    while j > 0
      invariant 0 <= j <= y && Times(j, rb) <= |data| && AllProper(ks, comp)
      invariant Count(ks) + Times(j, x) == Times(y, x) && r == out + CodedAll(ks, comp)
      invariant MeaningAll(ks) + Stored(Flipped(data[..Times(j, rb)], rb, j), comp)
                == Stored(Flipped(data, rb, y), comp)
    {
      var row := RowFromEnd(data, x, comp, j);
      ghost var more;
      r, more := WriteRow(r, row, x, comp);
      PacketsJoin(ks, more, comp);
      TimesStep(j, x);
      ks := ks + more;
      j := j - 1;
    }
    NoRowsLeft(data, rb, comp);
    assert MeaningAll(ks) + [] == MeaningAll(ks);
  }

  lemma NoPackets(comp: nat)
    ensures AllProper([], comp) && Count([]) == 0 && MeaningAll([]) == [] && CodedAll([], comp) == []
  {
  }

  method WriteTga(x: nat, y: nat, comp: nat, data: seq<Byte>, rle: bool)
    returns (file: seq<Byte>, ghost ks: seq<Packet>)
    requires 1 <= comp <= 4 && |data| == Times(y, Times(x, comp))
    ensures var body := Stored(Flipped(data, Times(x, comp), y), comp);
            var format := if comp <= 2 then 3 else 2;
            if rle then
              AllProper(ks, comp) && Count(ks) == Times(y, x) && MeaningAll(ks) == body
              && file == Header(format + 8, x, y, comp) + CodedAll(ks, comp)
            else file == Header(format, x, y, comp) + body
  {
    hide Times, Stored, Flipped, AllProper, CodedAll, Count, MeaningAll;
    var format := if comp <= 2 then 3 else 2;
    ks := [];
    if !rle {
      file := WriteRaw(Header(format, x, y, comp), x, y, comp, data);
    } else {
      file, ks := WriteRle(Header(format + 8, x, y, comp), x, y, comp, data);
    }
  }
}
