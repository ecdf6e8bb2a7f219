/** Writing an 8-bit image as PNG and parsing the file gives the image back. */
module PngRoundTrip {
  import opened Words
  import opened BitStream
  import opened Slices
  import opened InflateSpec
  import opened PngFilter
  import opened PngImage
  import opened PngSpec
  import opened PngReader
  import opened PngWriter
  import opened Deflate
  import opened Compress
  import opened ZlibRoundTrip

  lemma AtByte(file: seq<Byte>, p: nat, bytes: seq<Byte>, i: nat)
    requires Has(file, p, bytes) && i < |bytes|
    ensures ByteAt(file, p + i) == bytes[i]
  {
    assert file[p..p + |bytes|][i] == bytes[i];
  }

  lemma Be32Read(file: seq<Byte>, p: nat, v: nat)
    requires Has(file, p, Be32Bytes(v)) && v < 0x1_0000_0000
    ensures Be32(file, p) == v
  {
    hide Has;
    AtByte(file, p, Be32Bytes(v), 0);
    AtByte(file, p, Be32Bytes(v), 1);
    AtByte(file, p, Be32Bytes(v), 2);
    AtByte(file, p, Be32Bytes(v), 3);
    Digits(v);
  }

  lemma Digits(v: nat)
    requires v < 0x1_0000_0000
    ensures v == v / 0x100_0000 % 256 * 0x100_0000 + v / 0x1_0000 % 256 * 0x1_0000 + v / 0x100 % 256 * 0x100 + v % 256
  {
    var a := v / 0x100;
    var b := a / 0x100;
    assert v / 0x1_0000 == b && v / 0x100_0000 == b / 0x100;
  }

  /** Length, type and data of a chunk, read back. */
  lemma ChunkRead(file: seq<Byte>, p: nat, kind: nat, data: seq<Byte>, crc: Crc)
    requires Has(file, p, Chunk(kind, data, crc)) && kind < 0x1_0000_0000 && |data| < 0x8000_0000
    ensures Be32(file, p) == |data| && Be32(file, p + 4) == kind
    ensures Has(file, p + 8, data)
  {
    hide Has, Be32Bytes, Be32;
    var a, b := Be32Bytes(|data|), Be32Bytes(kind);
    var c := Be32Bytes(crc(b + data));
    HasSplit(file, p, a + b + data, c);
    HasSplit(file, p, a + b, data);
    HasSplit(file, p, a, b);
    Be32Read(file, p, |data|);
    Be32Read(file, p + 4, kind);
  }

  lemma HeaderRead(file: seq<Byte>, p: nat, x: nat, y: nat, n: nat)
    requires WithinLimits(x, y, n) && Has(file, p, IhdrData(x, y, n))
    ensures ReadHeader(file, p) == Ihdr(x, y, 8, n, 0, false)
  {
    hide Has, Be32Bytes, Be32;
    var tail: seq<Byte> := [8, ColorType(n), 0, 0, 0];
    HasSplit(file, p, Be32Bytes(x) + Be32Bytes(y), tail);
    HasSplit(file, p, Be32Bytes(x), Be32Bytes(y));
    Be32Read(file, p, x);
    Be32Read(file, p + 4, y);
    AtByte(file, p + 8, tail, 0);
    AtByte(file, p + 8, tail, 1);
    AtByte(file, p + 8, tail, 2);
    AtByte(file, p + 8, tail, 3);
    AtByte(file, p + 8, tail, 4);
  }

  /** The parser walks the three chunks and ends with the header and the data written. */
  lemma ChunksRead(x: nat, y: nat, n: nat, zlib: seq<Byte>, crc: Crc, req_comp: nat, k: nat, steps: nat)
    requires WithinLimits(x, y, n) && |zlib| < 0x8000_0000
    ensures var st := State(Ihdr(x, y, 8, n, 0, false), zlib, 0, false, false);
            ParsePng(PngBytes(x, y, n, zlib, crc), req_comp, k, steps) == Finish(st, req_comp, k, steps)
  {
    hide Has, Chunk, Finish, ReadHeader, Be32, IhdrData;
    var file := PngBytes(x, y, n, zlib, crc);
    var a, b, c := Chunk(IHDR, IhdrData(x, y, n), crc), Chunk(IDAT, zlib, crc), Chunk(IEND, [], crc);
    WholeFile(file, SIGNATURE + a + b + c);
    HasSplit(file, 0, SIGNATURE + a + b, c);
    HasSplit(file, 0, SIGNATURE + a, b);
    HasSplit(file, 0, SIGNATURE, a);
    ChunkRead(file, 8, IHDR, IhdrData(x, y, n), crc);
    HeaderRead(file, 16, x, y, n);
    ChunkRead(file, 33, IDAT, zlib, crc);
    ChunkRead(file, 45 + |zlib|, IEND, [], crc);
    SignatureRead(file);
    var st0 := Initial();
    var st1 := st0.(header := Ihdr(x, y, 8, n, 0, false));
    var st2 := st1.(idata := zlib);
    assert ReadChunk(file, 8, st0) == Next(st1, 29);
    DataRead(file, 41, zlib);
    assert ReadChunk(file, 33, st1) == Next(st2, 41 + |zlib|);
    assert ReadChunk(file, 45 + |zlib|, st2) == End;
    ThreeSteps(file, st0, st1, st2, 45 + |zlib|, req_comp, k, steps);
  }

  lemma WholeFile(file: seq<Byte>, bytes: seq<Byte>)
    requires file == bytes
    ensures Has(file, 0, bytes)
  {
  }

  lemma DataRead(file: seq<Byte>, p: nat, data: seq<Byte>)
    requires Has(file, p, data)
    ensures p + |data| <= |file| && file[p..p + |data|] == data && [] + file[p..p + |data|] == data
  {
  }

  lemma SignatureRead(file: seq<Byte>)
    requires Has(file, 0, SIGNATURE)
    ensures forall i :: 0 <= i < 8 ==> ByteAt(file, i) == SIGNATURE[i]
  {
    forall i | 0 <= i < 8 ensures ByteAt(file, i) == SIGNATURE[i] {
      AtByte(file, 0, SIGNATURE, i);
    }
  }

  lemma ThreeSteps(file: seq<Byte>, st0: State, st1: State, st2: State, q: nat, req_comp: nat, k: nat, steps: nat)
    requires !st0.header.BadIhdr? && HeaderInRange(st1.header) && HeaderInRange(st2.header) && HeaderInRange(st0.header)
    requires ReadChunk(file, 8, st0) == Next(st1, 29)
    requires q >= 45 && ReadChunk(file, 33, st1) == Next(st2, q - 4)
    requires ReadChunk(file, q, st2) == End
    ensures st2.header.Ihdr? && ParseChunks(file, 8, st0, req_comp, k, steps) == Finish(st2, req_comp, k, steps)
  {
    hide ReadChunk, Finish, ParseChunks;
    ChunkStep(file, 8, st0, req_comp, k, steps);
    ChunkStep(file, 33, st1, req_comp, k, steps);
    ChunkStep(file, q, st2, req_comp, k, steps);
  }

  /** The limits leave room for every size the two sides compute. */
  lemma Limits(x: nat, y: nat, n: nat)
    requires WithinLimits(x, y, n)
    ensures y * (x * n) <= 0x4000_0000 && y * (x * n + 1) <= 0x4100_0000
    ensures x * y * n == y * (x * n) && SizesValid(x, y, n, 0) && SizesValid(n, x, 8, 7)
  {
    var m := x * n;
    MulGe(x, n);
    DivProduct(0x4000_0000, x, n);
    assert 0x4000_0000 / m >= y;
    DivLt(0x4000_0000, m, y);
    assert y * m <= 0x4000_0000;
    assert y * (m + 1) == y * m + y;
    Rearrange(x, y, n);
    MulLe(n, 4, x);
    MulGe(n, x * y);
  }

  lemma Rearrange(x: nat, y: nat, n: nat)
    ensures x * y * n == y * (x * n) && n * (x * y) == x * y * n && n * x == x * n
  {
  }

  /** The image the reader returns: the rows, with alpha inserted if one more channel is asked for. */
  function Expected(rows: seq<Row>, x: nat, y: nat, n: nat, req_comp: nat): Parsed
    requires AllOf(rows, x * n)
  {
    if req_comp == n + 1 && req_comp != 3 then Loaded(x, y, n, n + 1, FlatAlpha(rows, n, x))
    else Loaded(x, y, n, n, Flat(rows))
  }

  lemma FinishRead(x: nat, y: nat, n: nat, w: nat, zlib: seq<Byte>, toks: seq<Token>, rows: seq<Row>, req_comp: nat)
    requires w == x * n && WithinLimits(x, y, n)
    requires SizesValid(x, y, if req_comp == n + 1 && req_comp != 3 then n + 1 else n, 0)
    requires zlib != [] && Followable(toks) && Encodes(zlib, toks) && |Expand(toks)| == y * (w + 1)
    requires AllOf(rows, w) && Unfilter(Expand(toks), n, w) == Rows(rows)
    ensures var st := State(Ihdr(x, y, 8, n, 0, false), zlib, 0, false, false);
            Finish(st, req_comp, 1, |toks| + 1) == Expected(rows, x, y, n, req_comp)
  {
    hide Followable, Encodes, Expand, Unfilter, Flat, FlatAlpha, SizesValid, Inflate;
    InflateEncoded(zlib, toks);
    Limits(x, y, n);
    assert Expand(toks)[..y * (w + 1)] == Expand(toks);
  }

  /** Every 8-bit image within the reader's limits survives writing and reading. */
  method WriteThenRead(pixels: seq<Byte>, stride_bytes: nat, x: nat, y: nat, n: nat, force_filter: int, level: int,
                       crc: Crc, req_comp: nat)
    returns (r: Parsed)
    requires WithinLimits(x, y, n)
    requires (y - 1) * (if stride_bytes == 0 then x * n else stride_bytes) + x * n <= |pixels|
    requires SizesValid(x, y, if req_comp == n + 1 && req_comp != 3 then n + 1 else n, 0)
    ensures var stride := if stride_bytes == 0 then x * n else stride_bytes;
            r == Expected(PixelRows(pixels, stride, x * n, y), x, y, n, req_comp)
  {
    hide Followable, Encodes, Expand, Unfilter, SizesValid, PixelRows, PngBytes, ParsePng, Finish, Expected;
    var file, zlib, toks := WritePng(pixels, stride_bytes, x, y, n, force_filter, level, crc);
    ghost var rows := PixelRows(pixels, if stride_bytes == 0 then x * n else stride_bytes, x * n, y);
    Limits(x, y, n);
    ChunksRead(x, y, n, zlib, crc, req_comp, 1, |toks| + 1);
    FinishRead(x, y, n, x * n, zlib, toks, rows, req_comp);
    ExpectedLoaded(rows, x, y, n, req_comp);
    r := ParseFile(file, req_comp, 1, |toks| + 1);
  }

  lemma ExpectedLoaded(rows: seq<Row>, x: nat, y: nat, n: nat, req_comp: nat)
    requires AllOf(rows, x * n)
    ensures Expected(rows, x, y, n, req_comp).Loaded?
  {
  }

  /** For a picture stored without gaps the rows are the picture. */
  lemma {:induction false} RowsArePixels(pixels: seq<Byte>, w: nat, y: nat)
    requires y * w <= |pixels| && (y > 0 ==> (y - 1) * w + w <= |pixels|)
    ensures Flat(PixelRows(pixels, w, w, y)) == pixels[..y * w]
  {
    if y > 0 {
      MulSub(y, 1, w);
      RowFits(w, y);
      RowsArePixels(pixels, w, y - 1);
      assert pixels[..y * w] == pixels[..(y - 1) * w] + pixels[(y - 1) * w..(y - 1) * w + w];
    }
  }

  /** Round trip for a tightly stored image and its own channel count: the pixels themselves. */
  method RoundTrip(pixels: seq<Byte>, x: nat, y: nat, n: nat, level: int, crc: Crc) returns (r: Parsed)
    requires WithinLimits(x, y, n) && |pixels| == y * (x * n)
    ensures r == Loaded(x, y, n, n, pixels)
  {
    hide PixelRows, Flat, SizesValid;
    Limits(x, y, n);
    MulSub(y, 1, x * n);
    r := WriteThenRead(pixels, 0, x, y, n, -1, level, crc, 0);
    RowsArePixels(pixels, x * n, y);
    assert pixels[..y * (x * n)] == pixels;
  }
}
