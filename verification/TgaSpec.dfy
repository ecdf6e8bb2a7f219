/** Truevision TGA images of 8-bit channels, raw or run-length coded: what a file denotes, and what
    a list of packets denotes. */
module TgaSpec {
  import opened Words
  import opened BitStream
  import opened Slices

  // ----- pixels of `comp` bytes, one after the other

  /** `len` bytes are whole pixels. */
  predicate Whole(len: nat, comp: nat)
    requires comp > 0
    decreases len
  {
    len == 0 || (len >= comp && Whole(len - comp, comp))
  }

  lemma {:induction false} WholeTimes(n: nat, comp: nat)
    requires comp > 0
    ensures Whole(Times(n, comp), comp)
  {
    hide Times;
    if n > 0 {
      WholeTimes(n - 1, comp);
      TimesStep(n, comp);
    } else {
      TimesStep(1, comp);
    }
  }

  lemma {:induction false} WholeSum(a: nat, b: nat, comp: nat)
    requires comp > 0 && Whole(a, comp) && Whole(b, comp)
    ensures Whole(a + b, comp)
    decreases b
  {
    if b > 0 {
      WholeSum(a, b - comp, comp);
    }
  }

  /** Colours are stored blue first; the swap is its own inverse. */
  function StoredPx(p: seq<Byte>): (r: seq<Byte>)
    ensures |r| == |p|
  {
    if |p| >= 3 then [p[2], p[1], p[0]] + p[3..] else p
  }

  lemma StoredPxTwice(p: seq<Byte>)
    ensures StoredPx(StoredPx(p)) == p
  {
  }

  function Stored(b: seq<Byte>, comp: nat): (r: seq<Byte>)
    requires comp > 0
    ensures |r| == |b|
    decreases |b|
  {
    if |b| < comp then b else Stored(b[..|b| - comp], comp) + StoredPx(b[|b| - comp..])
  }

  lemma StoredStep(b: seq<Byte>, comp: nat)
    requires comp > 0 && |b| >= comp
    ensures Stored(b, comp) == Stored(b[..|b| - comp], comp) + StoredPx(b[|b| - comp..])
  {
  }

  /** Where the bytes of a pixel are stored: with three channels or more, red and blue change places. */
  lemma {:induction false} StoredAt(b: seq<Byte>, comp: nat, n: nat, k: nat, c: nat)
    requires |b| == Times(n, comp) && k < n && c < comp
    ensures Times(k, comp) + comp <= |b|
    ensures Stored(b, comp)[Times(k, comp) + c] == b[Times(k, comp) + if comp >= 3 && c < 3 then 2 - c else c]
    decreases n
  {
    hide Times, Stored, StoredPx;
    TimesStep(n, comp);
    var m := |b| - comp;
    StoredStep(b, comp);
    if k == n - 1 {
      StoredPxAt(b[m..], c);
    } else {
      StoredAt(b[..m], comp, n - 1, k, c);
    }
  }

  lemma StoredPxAt(p: seq<Byte>, c: nat)
    requires c < |p|
    ensures StoredPx(p)[c] == p[if |p| >= 3 && c < 3 then 2 - c else c]
  {
  }

  lemma {:induction false} StoredTwice(b: seq<Byte>, comp: nat)
    requires comp > 0
    ensures Stored(Stored(b, comp), comp) == b
    decreases |b|
  {
    hide StoredPx, Stored;
    if |b| < comp {
      StoredShort(b, comp);
    } else {
      var k := |b| - comp;
      StoredTwice(b[..k], comp);
      StoredPxTwice(b[k..]);
      var s := Stored(b, comp);
      StoredStep(b, comp);
      StoredStep(s, comp);
      assert s[..k] == Stored(b[..k], comp) && s[k..] == StoredPx(b[k..]);
      assert b[..k] + b[k..] == b;
    }
  }

  lemma StoredShort(b: seq<Byte>, comp: nat)
    requires |b| < comp
    ensures Stored(b, comp) == b
  {
  }

  lemma {:induction false} StoredConcat(a: seq<Byte>, b: seq<Byte>, comp: nat)
    requires comp > 0 && Whole(|b|, comp)
    ensures Stored(a + b, comp) == Stored(a, comp) + Stored(b, comp)
    decreases |b|
  {
    hide StoredPx, Stored;
    if b == [] {
      assert a + b == a;
      assert Stored(a, comp) + Stored(b, comp) == Stored(a, comp);
    } else {
      var k := |b| - comp;
      StoredConcat(a, b[..k], comp);
      StoredStep(a + b, comp);
      StoredStep(b, comp);
      assert (a + b)[..|a| + k] == a + b[..k];
      assert (a + b)[|a| + k..] == b[k..];
    }
  }

  // ----- rows, last one first

  function Flipped(d: seq<Byte>, rb: nat, h: nat): (r: seq<Byte>)
    requires |d| == Times(h, rb)
    ensures |r| == |d|
    decreases h
  {
    if h == 0 then []
    else
      TimesStep(h, rb);
      d[Times(h - 1, rb)..] + Flipped(d[..Times(h - 1, rb)], rb, h - 1)
  }

  /** Row `j` of the flipped rows is row `h - 1 - j`. */
  lemma {:induction false} FlippedRow(d: seq<Byte>, rb: nat, h: nat, j: nat, c: nat)
    requires |d| == Times(h, rb) && j < h && c < rb
    ensures Times(j, rb) + c < |d| && Times(h - 1 - j, rb) + c < |d|
    ensures Flipped(d, rb, h)[Times(j, rb) + c] == d[Times(h - 1 - j, rb) + c]
    decreases h
  {
    hide Flipped, Times;
    RowBound(j, h, rb, c);
    RowBound(h - 1 - j, h, rb, c);
    TimesStep(h, rb);
    FlippedStep(d, rb, h);
    if j > 0 {
      FlippedRow(d[..Times(h - 1, rb)], rb, h - 1, j - 1, c);
      TimesStep(j, rb);
      assert h - 1 - j == (h - 1) - 1 - (j - 1);
    }
  }

  lemma FlippedStep(d: seq<Byte>, rb: nat, h: nat)
    requires |d| == Times(h, rb) && h > 0
    ensures Times(h - 1, rb) <= |d| && |d| - Times(h - 1, rb) == rb
    ensures Flipped(d, rb, h) == d[Times(h - 1, rb)..] + Flipped(d[..Times(h - 1, rb)], rb, h - 1)
  {
    TimesStep(h, rb);
  }

  lemma RowBound(j: nat, h: nat, rb: nat, c: nat)
    requires j < h && c < rb
    ensures Times(j, rb) + c < Times(h, rb)
  {
    MulLe(j + 1, h, rb);
    MulSucc(j, rb);
  }

  lemma RowIndex(q: nat, h: nat, rb: nat) returns (j: nat, c: nat)
    requires q < Times(h, rb)
    ensures q == Times(j, rb) + c && c < rb && j < h
  {
    assert rb > 0 by { assert rb == 0 ==> h * rb == 0; }
    DivNonneg(q, rb);
    DivLt(q, rb, h);
    j, c := q / rb, q % rb;
  }

  lemma FlippedTwice(d: seq<Byte>, rb: nat, h: nat)
    requires |d| == Times(h, rb)
    ensures Flipped(Flipped(d, rb, h), rb, h) == d
  {
    hide Flipped, Times;
    var f := Flipped(d, rb, h);
    var g := Flipped(f, rb, h);
    forall q | 0 <= q < |d| ensures g[q] == d[q] {
      var j, c := RowIndex(q, h, rb);
      FlippedRow(f, rb, h, j, c);
      FlippedRow(d, rb, h, h - 1 - j, c);
    }
  }

  /** Rows of whole pixels: storing and flipping commute. */
  lemma {:induction false} StoredFlipped(d: seq<Byte>, rb: nat, h: nat, comp: nat)
    requires |d| == Times(h, rb) && comp > 0 && Whole(rb, comp)
    ensures Stored(Flipped(d, rb, h), comp) == Flipped(Stored(d, comp), rb, h) && Whole(|d|, comp)
    decreases h
  {
    hide Stored, Times;
    TimesStep(1, rb);
    if h > 0 {
      TimesStep(h, rb);
      var k := Times(h - 1, rb);
      var low, last := d[..k], d[k..];
      StoredFlipped(low, rb, h - 1, comp);
      WholeSum(|low|, rb, comp);
      StoredConcat(last, Flipped(low, rb, h - 1), comp);
      StoredConcat(low, last, comp);
      assert d == low + last;
      var s := Stored(d, comp);
      assert s[..k] == Stored(low, comp) && s[k..] == Stored(last, comp);
    } else {
      assert d == [];
      StoredEmpty(d, comp);
    }
  }

  lemma StoredEmpty(d: seq<Byte>, comp: nat)
    requires comp > 0 && d == []
    ensures Stored(d, comp) == d
  {
  }

  // ----- run-length packets

  datatype Packet = Literal(bytes: seq<Byte>, n: nat) | Repeat(px: seq<Byte>, n: nat)

  /** One to 128 pixels. */
  predicate Proper(k: Packet, comp: nat)
  {
    1 <= k.n <= 128 && match k case Literal(b, n) => |b| == Times(n, comp) case Repeat(px, _) => |px| == comp
  }

  function Repeated(px: seq<Byte>, n: nat): seq<Byte>
  {
    if n == 0 then [] else px + Repeated(px, n - 1)
  }

  function Meaning(k: Packet): seq<Byte>
  {
    match k case Literal(b, _) => b case Repeat(px, n) => Repeated(px, n)
  }

  function Coded(k: Packet): seq<Byte>
    requires 1 <= k.n <= 128
  {
    match k case Literal(b, n) => [n - 1] + b case Repeat(px, n) => [n + 127] + px
  }

  predicate AllProper(ks: seq<Packet>, comp: nat)
  {
    forall i :: 0 <= i < |ks| ==> Proper(ks[i], comp)
  }

  function MeaningAll(ks: seq<Packet>): seq<Byte>
  {
    if ks == [] then [] else MeaningAll(ks[..|ks| - 1]) + Meaning(ks[|ks| - 1])
  }

  function CodedAll(ks: seq<Packet>, comp: nat): seq<Byte>
    requires AllProper(ks, comp)
  {
    if ks == [] then [] else CodedAll(ks[..|ks| - 1], comp) + Coded(ks[|ks| - 1])
  }

  function Count(ks: seq<Packet>): nat
  {
    if ks == [] then 0 else Count(ks[..|ks| - 1]) + ks[|ks| - 1].n
  }

  // ----- what a file denotes

  /** The pixel loop of the reader, one pixel at a time: pixels left in the current packet, whether
      it repeats, and the pixel last read. */
  function RlePixels(s: seq<Byte>, pos: nat, comp: nat, need: nat, count: nat, repeating: bool,
                     raw: seq<Byte>): (r: seq<Byte>)
    requires count > 0 && repeating ==> |raw| == comp
    ensures |r| == Times(need, comp)
    decreases need
  {
    if need == 0 then []
    else
      TimesStep(need, comp);
      if count == 0 then
        var cmd := ByteAt(s, pos);
        var px := Bytes(s, pos + 1, comp);
        px + RlePixels(s, pos + 1 + comp, comp, need - 1, cmd % 128, cmd >= 128, px)
      else if repeating then raw + RlePixels(s, pos, comp, need - 1, count - 1, repeating, raw)
      else
        var px := Bytes(s, pos, comp);
        px + RlePixels(s, pos + comp, comp, need - 1, count - 1, repeating, px)
  }

  datatype Tga = Loaded(w: nat, h: nat, comp: nat, pixels: seq<Byte>) | BadFormat | TooLarge | Outside | Truncated

  /** `stbi__tga_get_comp`, with whether the pixels are of 15 or 16 bits. */
  function GetComp(bits: nat, grey: bool): (nat, bool)
  {
    if bits == 8 then (1, false)
    else if bits == 16 && grey then (2, false)
    else if bits == 15 || bits == 16 then (3, true)
    else if bits == 24 || bits == 32 then (bits / 8, false)
    else (0, false)
  }

  /** The image of a file; colour maps and 16-bit colours are not part of this. The bytes of an
      uncompressed image that the file does not hold are not defined. */
  function Parse(s: seq<Byte>): Tga
  {
    var rle := ByteAt(s, 2) >= 8;
    var kind := if rle then ByteAt(s, 2) - 8 else ByteAt(s, 2);
    var w, h := Le16(ByteAt(s, 12), ByteAt(s, 13)), Le16(ByteAt(s, 14), ByteAt(s, 15));
    var (comp, wide) := GetComp(ByteAt(s, 16), kind == 3);
    if ByteAt(s, 1) != 0 || wide then Outside
    else if comp == 0 then BadFormat
    else if !SizesValid(w, h, comp, 0) then TooLarge
    else if !rle && 18 + ByteAt(s, 0) + Times(Times(w, h), comp) > |s| then Truncated
    else
      var start := 18 + ByteAt(s, 0);
      Area(w, h, comp);
      var body := if rle then RlePixels(s, start, comp, Times(w, h), 0, false, [])
        else Bytes(s, start, Times(Times(w, h), comp));
      var rows := if ByteAt(s, 17) / 32 % 2 == 0 then Flipped(body, Times(w, comp), h) else body;
      Loaded(w, h, comp, if comp >= 3 then Stored(rows, comp) else rows)
  }

  /** Where every byte of a loaded uncompressed image comes from: the rows are stored last one first
      unless bit 5 of the descriptor is set, and the colours blue first. */
  lemma RawByteAt(s: seq<Byte>, j: nat, i: nat, c: nat)
    requires ByteAt(s, 2) < 8 && Parse(s).Loaded? && j < Parse(s).h && i < Parse(s).w && c < Parse(s).comp
    ensures var t := Parse(s);
            var rb := Times(t.w, t.comp);
            var row := if ByteAt(s, 17) / 32 % 2 == 1 then j else t.h - 1 - j;
            var from := Times(row, rb) + Times(i, t.comp) + if t.comp >= 3 && c < 3 then 2 - c else c;
            && Times(j, rb) + Times(i, t.comp) + c < |t.pixels|
            && t.pixels[Times(j, rb) + Times(i, t.comp) + c] == ByteAt(s, 18 + ByteAt(s, 0) + from)
  {
    hide Times, Flipped, Stored, Bytes, SizesValid;
    var t := Parse(s);
    var rb, comp, start := Times(t.w, t.comp), t.comp, 18 + ByteAt(s, 0);
    Area(t.w, t.h, comp);
    var body := Bytes(s, start, Times(Times(t.w, t.h), comp));
    var top := ByteAt(s, 17) / 32 % 2 == 1;
    var rows := if top then body else Flipped(body, rb, t.h);
    var d := if comp >= 3 && c < 3 then 2 - c else c;
    PixelPlace(j, i, t.w, t.h, comp);
    PlaceInRow(i, t.w, comp, d);
    if comp >= 3 {
      StoredAt(rows, comp, Times(t.h, t.w), Times(j, t.w) + i, c);
    }
    var row := if top then j else t.h - 1 - j;
    if !top {
      FlippedRow(body, rb, t.h, j, Times(i, comp) + d);
    }
    RowBound(row, t.h, rb, Times(i, comp) + d);
    BytesAt(s, start, |body|, Times(row, rb) + Times(i, comp) + d);
  }

  lemma PixelPlace(j: nat, i: nat, w: nat, h: nat, comp: nat)
    requires j < h && i < w
    ensures Times(Times(j, w) + i, comp) == Times(j, Times(w, comp)) + Times(i, comp)
    ensures Times(j, w) + i < Times(h, w) && Times(Times(h, w), comp) == Times(h, Times(w, comp))
  {
    RowBound(j, h, w, i);
    assert (j * w + i) * comp == j * (w * comp) + i * comp;
    assert h * w * comp == h * (w * comp);
  }

  lemma PlaceInRow(i: nat, w: nat, comp: nat, d: nat)
    requires i < w && d < comp
    ensures Times(i, comp) + d < Times(w, comp)
  {
    RowBound(i, w, comp, d);
  }

  lemma {:induction false} BytesAt(s: seq<Byte>, p: nat, n: nat, k: nat)
    requires k < n
    ensures Bytes(s, p, n)[k] == ByteAt(s, p + k)
    decreases n
  {
    hide ByteAt;
    if k > 0 {
      BytesAt(s, p + 1, n - 1, k - 1);
    }
  }

  lemma Area(w: nat, h: nat, comp: nat)
    ensures Times(Times(w, h), comp) == Times(h, Times(w, comp))
  {
    assert w * h * comp == h * (w * comp);
  }

  // ----- packets are read back

  lemma FreshPacket(s: seq<Byte>, pos: nat, comp: nat, need: nat, repeating: bool, raw: seq<Byte>)
    ensures RlePixels(s, pos, comp, need, 0, repeating, raw) == RlePixels(s, pos, comp, need, 0, false, [])
  {
  }

  lemma {:induction false} LiteralRest(s: seq<Byte>, pos: nat, comp: nat, need: nat, m: nat, raw: seq<Byte>)
    requires m <= need
    ensures RlePixels(s, pos, comp, need, m, false, raw)
         == Bytes(s, pos, Times(m, comp)) + RlePixels(s, pos + Times(m, comp), comp, need - m, 0, false, [])
    decreases m
  {
    hide RlePixels, Bytes, Times;
    if m == 0 {
      TimesStep(1, comp);
      FreshPacket(s, pos, comp, need, false, raw);
      assert Bytes(s, pos, 0) == [];
    } else {
      var px, len := Bytes(s, pos, comp), Times(m - 1, comp);
      TimesStep(m, comp);
      LiteralStep(s, pos, comp, need, m, raw);
      LiteralRest(s, pos + comp, comp, need - 1, m - 1, px);
      BytesSplit(s, pos, comp, len);
      var a, b := Bytes(s, pos + comp, len), RlePixels(s, pos + Times(m, comp), comp, need - m, 0, false, []);
      assert px + (a + b) == px + a + b;
    }
  }

  lemma LiteralStep(s: seq<Byte>, pos: nat, comp: nat, need: nat, m: nat, raw: seq<Byte>)
    requires 0 < m <= need
    ensures var px := Bytes(s, pos, comp);
            RlePixels(s, pos, comp, need, m, false, raw)
              == px + RlePixels(s, pos + comp, comp, need - 1, m - 1, false, px)
  {
    hide Bytes;
  }

  lemma RepeatStep(s: seq<Byte>, pos: nat, comp: nat, need: nat, m: nat, px: seq<Byte>)
    requires 0 < m <= need && |px| == comp
    ensures RlePixels(s, pos, comp, need, m, true, px) == px + RlePixels(s, pos, comp, need - 1, m - 1, true, px)
  {
  }

  lemma {:induction false} RepeatRest(s: seq<Byte>, pos: nat, comp: nat, need: nat, m: nat, px: seq<Byte>)
    requires m <= need && |px| == comp
    ensures RlePixels(s, pos, comp, need, m, true, px)
            == Repeated(px, m) + RlePixels(s, pos, comp, need - m, 0, false, [])
    decreases m
  {
    if m == 0 {
      FreshPacket(s, pos, comp, need, true, px);
    } else {
      hide RlePixels;
      RepeatStep(s, pos, comp, need, m, px);
      RepeatRest(s, pos, comp, need - 1, m - 1, px);
      var a, b := Repeated(px, m - 1), RlePixels(s, pos, comp, need - m, 0, false, []);
      assert px + (a + b) == px + a + b;
    }
  }

  /** A packet at `pos` yields its pixels. */
  lemma PacketRead(s: seq<Byte>, pos: nat, comp: nat, need: nat, k: Packet)
    requires Proper(k, comp) && k.n <= need && Has(s, pos, Coded(k))
    ensures RlePixels(s, pos, comp, need, 0, false, [])
         == Meaning(k) + RlePixels(s, pos + |Coded(k)|, comp, need - k.n, 0, false, [])
  {
    hide RlePixels, Repeated, Times, Has;
    match k
    case Literal(b, n) => LiteralRead(s, pos, comp, need, b, n);
    case Repeat(p, n) => RepeatRead(s, pos, comp, need, p, n);
  }

  lemma LiteralRead(s: seq<Byte>, pos: nat, comp: nat, need: nat, b: seq<Byte>, n: nat)
    requires Proper(Literal(b, n), comp) && n <= need && Has(s, pos, Coded(Literal(b, n)))
    ensures RlePixels(s, pos, comp, need, 0, false, [])
         == b + RlePixels(s, pos + 1 + |b|, comp, need - n, 0, false, [])
  {
    hide RlePixels, Bytes, Times, Has, Coded;
    var px := Bytes(s, pos + 1, comp);
    HeadOf(s, pos, Literal(b, n));
    PacketStart(s, pos, comp, need);
    TimesStep(n, comp);
    LiteralRest(s, pos + 1 + comp, comp, need - 1, n - 1, px);
    BytesAre(s, pos + 1, b);
    BytesSplit(s, pos + 1, comp, Times(n - 1, comp));
    var rest := RlePixels(s, pos + 1 + |b|, comp, need - n, 0, false, []);
    Regroup(px, Bytes(s, pos + 1 + comp, Times(n - 1, comp)), rest);
  }

  lemma RepeatRead(s: seq<Byte>, pos: nat, comp: nat, need: nat, p: seq<Byte>, n: nat)
    requires Proper(Repeat(p, n), comp) && n <= need && Has(s, pos, Coded(Repeat(p, n)))
    ensures RlePixels(s, pos, comp, need, 0, false, [])
         == Repeated(p, n) + RlePixels(s, pos + 1 + |p|, comp, need - n, 0, false, [])
  {
    hide RlePixels, Bytes, Has, Coded;
    HeadOf(s, pos, Repeat(p, n));
    PacketStart(s, pos, comp, need);
    BytesAre(s, pos + 1, p);
    RepeatRest(s, pos + 1 + comp, comp, need - 1, n - 1, p);
    Regroup(p, Repeated(p, n - 1), RlePixels(s, pos + 1 + comp, comp, need - n, 0, false, []));
  }

  lemma Regroup(a: seq<Byte>, b: seq<Byte>, c: seq<Byte>)
    ensures a + (b + c) == a + b + c
  {
  }

  lemma PacketStart(s: seq<Byte>, pos: nat, comp: nat, need: nat)
    requires need > 0
    ensures var cmd: nat := ByteAt(s, pos); var px := Bytes(s, pos + 1, comp);
            RlePixels(s, pos, comp, need, 0, false, [])
              == px + RlePixels(s, pos + 1 + comp, comp, need - 1, cmd % 128, cmd >= 128, px)
  {
    hide Bytes;
  }

  lemma HeadOf(s: seq<Byte>, pos: nat, k: Packet)
    requires 1 <= k.n <= 128 && Has(s, pos, Coded(k))
    ensures ByteAt(s, pos) == if k.Literal? then k.n - 1 else k.n + 127
    ensures Has(s, pos + 1, if k.Literal? then k.bytes else k.px)
  {
    var head: seq<Byte> := [if k.Literal? then k.n - 1 else k.n + 127];
    HasSplit(s, pos, head, if k.Literal? then k.bytes else k.px);
    var t := s[pos..pos + 1];
    assert t[0] == s[pos];
  }

  lemma {:induction false} PacketsRead(s: seq<Byte>, pos: nat, comp: nat, need: nat, ks: seq<Packet>)
    requires AllProper(ks, comp) && Count(ks) <= need && Has(s, pos, CodedAll(ks, comp))
    ensures RlePixels(s, pos, comp, need, 0, false, [])
         == MeaningAll(ks) + RlePixels(s, pos + |CodedAll(ks, comp)|, comp, need - Count(ks), 0, false, [])
    decreases |ks|
  {
    hide RlePixels, Proper, Meaning, Coded;
    if ks != [] {
      var pre, k := ks[..|ks| - 1], ks[|ks| - 1];
      assert Proper(k, comp);
      ProperCount(k, comp);
      HasSplit(s, pos, CodedAll(pre, comp), Coded(k));
      PacketsRead(s, pos, comp, need, pre);
      PacketRead(s, pos + |CodedAll(pre, comp)|, comp, need - Count(pre), k);
    }
  }

  lemma ProperCount(k: Packet, comp: nat)
    requires Proper(k, comp)
    ensures 1 <= k.n <= 128
  {
  }
}
