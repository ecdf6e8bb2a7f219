/** Writing a TGA image and loading it again. */
module TgaRoundTrip {
  import opened Words
  import opened BitStream
  import opened Slices
  import opened TgaSpec
  import opened TgaWriter
  import opened TgaReader

  /** What `WriteTga` promises of a file. */
  ghost predicate Written(file: seq<Byte>, x: nat, y: nat, comp: nat, data: seq<Byte>, rle: bool, ks: seq<Packet>)
    requires 1 <= comp <= 4 && |data| == Times(y, Times(x, comp))
  {
    var body := Stored(Flipped(data, Times(x, comp), y), comp);
    var format := if comp <= 2 then 3 else 2;
    if rle then
      AllProper(ks, comp) && Count(ks) == Times(y, x) && MeaningAll(ks) == body
      && file == Header(format + 8, x, y, comp) + CodedAll(ks, comp)
    else file == Header(format, x, y, comp) + body
  }

  lemma SmallPx(p: seq<Byte>)
    requires |p| <= 2
    ensures StoredPx(p) == p
  {
  }

  lemma {:induction false} StoredSmall(b: seq<Byte>, comp: nat)
    requires 1 <= comp <= 2
    ensures Stored(b, comp) == b
    decreases |b|
  {
    hide StoredPx, Stored;
    if |b| < comp {
      StoredShort(b, comp);
    } else {
      var k := |b| - comp;
      StoredSmall(b[..k], comp);
      StoredStep(b, comp);
      SmallPx(b[k..]);
      assert b[..k] + b[k..] == b;
    }
  }

  /** The reader's last steps undo the writer's. */
  lemma BodyUndone(data: seq<Byte>, x: nat, y: nat, comp: nat)
    requires 1 <= comp <= 4 && |data| == Times(y, Times(x, comp))
    ensures var rb := Times(x, comp);
            var rows := Flipped(Stored(Flipped(data, rb, y), comp), rb, y);
            (if comp >= 3 then Stored(rows, comp) else rows) == data
  {
    hide Times, Stored, Flipped;
    var rb := Times(x, comp);
    WholeTimes(x, comp);
    StoredFlipped(data, rb, y, comp);
    FlippedTwice(Stored(data, comp), rb, y);
    if comp >= 3 {
      StoredTwice(data, comp);
    } else {
      StoredSmall(data, comp);
    }
  }

  lemma HeaderRead(file: seq<Byte>, format: Byte, x: nat, y: nat, comp: nat, rest: seq<Byte>)
    requires 1 <= comp <= 4 && x < 65536 && y < 65536 && file == Header(format, x, y, comp) + rest
    ensures ByteAt(file, 0) == ByteAt(file, 1) == 0 && ByteAt(file, 2) == format
    ensures Le16(ByteAt(file, 12), ByteAt(file, 13)) == x && Le16(ByteAt(file, 14), ByteAt(file, 15)) == y
    ensures ByteAt(file, 16) == comp * 8 && ByteAt(file, 17) / 32 % 2 == 0
    ensures file[18..] == rest
  {
    var h := Header(format, x, y, comp);
    assert forall i :: 0 <= i < 18 ==> file[i] == h[i];
  }

  lemma CompOf(comp: nat)
    requires 1 <= comp <= 4
    ensures GetComp(comp * 8, (if comp <= 2 then 3 else 2) == 3) == (comp, false)
  {
  }

  /** For every size a header can hold: the pixels come back exactly when the reader accepts the size. */
  lemma ParseWritten(file: seq<Byte>, x: nat, y: nat, comp: nat, data: seq<Byte>, rle: bool, ks: seq<Packet>)
    requires 1 <= comp <= 4 && |data| == Times(y, Times(x, comp)) && x < 65536 && y < 65536
    requires Written(file, x, y, comp, data, rle, ks)
    ensures Parse(file) == if SizesValid(x, y, comp, 0) then Loaded(x, y, comp, data) else TooLarge
  {
    hide Times, Stored, Flipped, Bytes, RlePixels, SizesValid, Header, CodedAll, Count, MeaningAll, AllProper, GetComp;
    var format := if comp <= 2 then 3 else 2;
    var body := Stored(Flipped(data, Times(x, comp), y), comp);
    var rest := if rle then CodedAll(ks, comp) else body;
    HeaderRead(file, if rle then format + 8 else format, x, y, comp, rest);
    CompOf(comp);
    Area(x, y, comp);
    assert Has(file, 18, rest);
    if rle {
      Commute(x, y);
      PacketsRead(file, 18, comp, Times(x, y), ks);
      NoPixels(file, 18 + |rest|, comp, 0, false, []);
      assert MeaningAll(ks) + [] == MeaningAll(ks);
    } else {
      BytesAre(file, 18, rest);
    }
    BodyUndone(data, x, y, comp);
  }

  /** Where the writer finds pixel `i` of row `j`. */
  function PixelOffset(x: nat, comp: nat, i: nat, j: nat): nat
  {
    (j * x + i) * comp
  }

  /** An image whose offsets all fit the writer's `int` is written and then refused. */
  lemma LargeRefused(file: seq<Byte>, data: seq<Byte>, rle: bool, ks: seq<Packet>)
    requires |data| == Times(32768, Times(32768, 2)) && Written(file, 32768, 32768, 2, data, rle, ks)
    ensures forall i: nat, j: nat :: i < 32768 && j < 32768 ==> PixelOffset(32768, 2, i, j) <= INT_MAX
    ensures Parse(file) == TooLarge
  {
    hide Times, Parse, Written;
    ParseWritten(file, 32768, 32768, 2, data, rle, ks);
  }

  lemma Commute(x: nat, y: nat)
    ensures Times(x, y) == Times(y, x)
  {
  }

  method RoundTrip(x: nat, y: nat, comp: nat, data: seq<Byte>, rle: bool) returns (r: Tga)
    requires 1 <= comp <= 4 && |data| == Times(y, Times(x, comp)) && x < 65536 && y < 65536
    ensures r == if SizesValid(x, y, comp, 0) then Loaded(x, y, comp, data) else TooLarge
  {
    hide Times, Stored, Flipped, SizesValid, Header, CodedAll, Count, MeaningAll, AllProper, Parse;
    var file, ks := WriteTga(x, y, comp, data, rle);
    ParseWritten(file, x, y, comp, data, rle, ks);
    r := LoadTga(file);
  }
}
