/** `stbi_write_png_to_mem`: filter every line, compress, and wrap in chunks. The CRC
    function is a parameter, since the reader skips the checksums. */
module PngWriter {
  import opened Words
  import opened PngFilter
  import opened PngLines
  import opened PngSpec
  import opened Deflate
  import opened Compress

  type Crc = seq<Byte> -> nat

  /** The reader's limits on an image. */
  predicate WithinLimits(x: nat, y: nat, n: nat)
  {
    1 <= n <= 4 && 1 <= x <= 0x100_0000 && 1 <= y <= 0x100_0000 && 0x4000_0000 / x / n >= y
  }

  /** The rows of a picture stored with the given distance between row starts. */
  function PixelRows(pixels: seq<Byte>, stride: nat, w: nat, y: nat): (rows: seq<Row>)
    requires y > 0 ==> (y - 1) * stride + w <= |pixels|
    ensures |rows| == y && AllOf(rows, w)
  {
    if y == 0 then []
    else
      RowFits(stride, y);
      PixelRows(pixels, stride, w, y - 1) + [pixels[(y - 1) * stride..(y - 1) * stride + w]]
  }

  lemma RowFits(stride: nat, y: nat)
    requires y > 0
    ensures y > 1 ==> (y - 2) * stride + stride == (y - 1) * stride
    ensures (y - 1) * stride >= 0
  {
    if y > 1 {
      MulSucc(y - 2, stride);
    }
  }

  // ----- choosing filters

  function SignedAbs(b: Byte): nat
  {
    if b < 128 then b else 256 - b
  }

  /** The sum of a filtered line's bytes, taken as signed numbers without their signs. */
  function Cost(line: seq<Byte>): (c: nat)
    ensures c <= 128 * |line|
  {
    if line == [] then 0 else Cost(line[..|line| - 1]) + SignedAbs(line[|line| - 1])
  }

  method Estimate(line_buffer: array<Byte>) returns (est: nat)
    ensures est == Cost(line_buffer[..]) <= 128 * line_buffer.Length
  {
    est := 0;
    for i := 0 to line_buffer.Length
      invariant est == Cost(line_buffer[..i])
    {
      assert line_buffer[..i + 1][..i] == line_buffer[..i];
      est := est + SignedAbs(line_buffer[i]);
    }
    assert line_buffer[..line_buffer.Length] == line_buffer[..];
  }

  /** Encode a line with the forced filter, or with the one whose residuals are smallest. */
  method FilterLine(pixels: seq<Byte>, stride: nat, z: nat, first: bool, w: nat, n: nat, force_filter: int,
                    line_buffer: array<Byte>)
    returns (filter_type: nat)
    requires 1 <= n <= w && force_filter <= 4 && line_buffer.Length == w
    requires z + w <= |pixels| && (first || (stride <= z && z - stride + w <= |pixels|))
    modifies line_buffer
    ensures filter_type <= 4 && (force_filter >= 0 ==> filter_type == force_filter)
    ensures line_buffer[..] == FilterRow(filter_type, n, RowAt(pixels, z, w), PriorAt(pixels, z, stride, w, first))
    ensures force_filter < 0 && 128 * w < 0x7fff_ffff ==>
              forall f :: 0 <= f <= 4 ==>
                Cost(line_buffer[..])
                <= Cost(FilterRow(f, n, RowAt(pixels, z, w), PriorAt(pixels, z, stride, w, first)))
  {
    hide FilterRow, Cost, RowAt, PriorAt;
    ghost var row, prior := RowAt(pixels, z, w), PriorAt(pixels, z, stride, w, first);
    if force_filter > -1 {
      filter_type := force_filter;
      EncodeLine(pixels, stride, z, first, w, n, filter_type, line_buffer);
      return;
    }
    var best_filter, best_filter_val := 0, 0x7fff_ffff;
    filter_type := 0;
    while filter_type < 5
      invariant filter_type <= 5 && best_filter <= 4 && (filter_type == 0 ==> best_filter_val == 0x7fff_ffff)
      invariant forall f :: 0 <= f < filter_type ==> best_filter_val <= Cost(FilterRow(f, n, row, prior))
      invariant 128 * w < 0x7fff_ffff && filter_type > 0 ==>
                  best_filter_val == Cost(FilterRow(best_filter, n, row, prior))
    {
      EncodeLine(pixels, stride, z, first, w, n, filter_type, line_buffer);
      var est := Estimate(line_buffer);
      if est < best_filter_val {
        best_filter_val, best_filter := est, filter_type;
      }
      filter_type := filter_type + 1;
    }
    if filter_type != best_filter {
      EncodeLine(pixels, stride, z, first, w, n, best_filter, line_buffer);
      filter_type := best_filter;
    }
  }

  /** All lines, each preceded by its filter type; unfiltering them gives the rows back. */
  method FilterImage(pixels: seq<Byte>, stride: nat, w: nat, y: nat, n: nat, force_filter: int)
    returns (filt: seq<Byte>)
    requires 1 <= n <= w && force_filter <= 4 && (y > 0 ==> (y - 1) * stride + w <= |pixels|)
    ensures |filt| == y * (w + 1)
    ensures Unfilter(filt, n, w) == Rows(PixelRows(pixels, stride, w, y))
  {
    hide FilterRow, Unfilter;
    filt := [];
    var line_buffer := new Byte[w];
    EmptyFilt(n, w, pixels, stride);
    var z := 0;
    for j := 0 to y
      invariant z == j * stride && |filt| == j * (w + 1)
      invariant j <= y ==> j == 0 || (j - 1) * stride + w <= |pixels|
      invariant Unfilter(filt, n, w) == Rows(PixelRows(pixels, stride, w, j))
    {
      ghost var rows := PixelRows(pixels, stride, w, j);
      RowOf(pixels, stride, w, j, y);
      var filter_type := FilterLine(pixels, stride, z, j == 0, w, n, force_filter, line_buffer);
      UnfilterLine(filt, n, w, rows, filter_type, RowAt(pixels, z, w));
      MulSucc(j, w + 1);
      filt := filt + [filter_type] + line_buffer[..];
      z := z + stride;
    }
  }

  lemma EmptyFilt(n: nat, w: nat, pixels: seq<Byte>, stride: nat)
    ensures Unfilter([], n, w) == Rows([])
  {
  }

  /** Row `j` of the picture, and the row above it. */
  lemma RowOf(pixels: seq<Byte>, stride: nat, w: nat, j: nat, y: nat)
    requires j < y && (y - 1) * stride + w <= |pixels|
    ensures j * stride + w <= |pixels| && j * stride + stride == (j + 1) * stride
    ensures j > 0 ==>
              stride <= j * stride && (j - 1) * stride == j * stride - stride && (j - 1) * stride + w <= |pixels|
    ensures PixelRows(pixels, stride, w, j + 1) == PixelRows(pixels, stride, w, j) + [RowAt(pixels, j * stride, w)]
    ensures PriorAt(pixels, j * stride, stride, w, j == 0) == Prior(PixelRows(pixels, stride, w, j), w)
  {
    MulLe(j, y - 1, stride);
    MulSucc(j, stride);
    if j > 0 {
      MulGe(j, stride);
      MulSub(j, 1, stride);
      MulLe(j - 1, j, stride);
    }
  }

  // ----- chunks

  function Be32Bytes(v: nat): (r: seq<Byte>)
    ensures |r| == 4
  {
    [v / 0x100_0000 % 256, v / 0x1_0000 % 256, v / 0x100 % 256, v % 256]
  }

  function Chunk(kind: nat, data: seq<Byte>, crc: Crc): (r: seq<Byte>)
    ensures |r| == 12 + |data|
  {
    Be32Bytes(|data|) + Be32Bytes(kind) + data + Be32Bytes(crc(Be32Bytes(kind) + data))
  }

  function ColorType(n: nat): Byte
    requires 1 <= n <= 4
  {
    match n
    case 1 => 0
    case 2 => 4
    case 3 => 2
    case _ => 6
  }

  function IhdrData(x: nat, y: nat, n: nat): (r: seq<Byte>)
    requires 1 <= n <= 4
    ensures |r| == 13
  {
    Be32Bytes(x) + Be32Bytes(y) + [8, ColorType(n), 0, 0, 0]
  }

  /** The file around the compressed lines. */
  function PngBytes(x: nat, y: nat, n: nat, zlib: seq<Byte>, crc: Crc): (r: seq<Byte>)
    requires 1 <= n <= 4
    ensures |r| == 8 + 12 + 13 + 12 + |zlib| + 12
  {
    SIGNATURE + Chunk(IHDR, IhdrData(x, y, n), crc) + Chunk(IDAT, zlib, crc) + Chunk(IEND, [], crc)
  }

  method WritePng(pixels: seq<Byte>, stride_bytes: nat, x: nat, y: nat, n: nat, force_filter: int, level: int, crc: Crc)
    returns (out: seq<Byte>, ghost zlib: seq<Byte>, ghost toks: seq<Token>)
    requires WithinLimits(x, y, n)
    requires (y - 1) * (if stride_bytes == 0 then x * n else stride_bytes) + x * n <= |pixels|
    ensures out == PngBytes(x, y, n, zlib, crc)
    ensures Followable(toks) && Encodes(zlib, toks)
    ensures |Expand(toks)| == y * (x * n + 1) && 4 <= |zlib| && 8 * |zlib| <= 9 * (y * (x * n + 1)) + 65
    ensures Unfilter(Expand(toks), n, x * n)
         == Rows(PixelRows(pixels, if stride_bytes == 0 then x * n else stride_bytes, x * n, y))
  {
    hide Unfilter, PixelRows, Expand, Followable, Encodes, Be32Bytes;
    var stride := if stride_bytes == 0 then x * n else stride_bytes;
    var force := if force_filter >= 5 then -1 else force_filter;
    MulGe(x, n);
    var filt := FilterImage(pixels, stride, x * n, y, n, force);
    var z;
    z, toks := ZlibCompress(filt, level);
    zlib := z;
    out := SIGNATURE;
    out := out + Chunk(IHDR, IhdrData(x, y, n), crc);
    out := out + Chunk(IDAT, z, crc);
    out := out + Chunk(IEND, [], crc);
  }
}
