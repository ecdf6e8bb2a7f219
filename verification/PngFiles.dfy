/** PNG files of any writer: the image data cut into any number of chunks, with other chunks anywhere
    between them, around any DEFLATE stream. */
module PngFiles {
  import opened Words
  import opened Slices
  import opened InflateSpec
  import opened PngSpec
  import opened PngReader
  import opened PngWriter
  import opened PngRoundTrip
  import opened DeflateStream

  /** A chunk behind the header: a piece of the image data, or one the reader may skip. */
  datatype Part = Data(bytes: seq<Byte>) | Extra(kind: nat, bytes: seq<Byte>)

  /** Section 3.3 of RFC 2083: a chunk whose name starts with a small letter is ancillary. The two of
      them this reader knows are no extras. */
  predicate Ancillary(kind: nat)
  {
    kind < 0x1_0000_0000 && kind / 0x2000_0000 % 2 == 1 && kind != TRNS
  }

  function KindOf(part: Part): nat
  {
    if part.Data? then IDAT else part.kind
  }

  ghost predicate PartsAt(file: seq<Byte>, p: nat, parts: seq<Part>, crc: Crc)
    decreases |parts|
  {
    parts != [] ==>
      && |parts[0].bytes| < 0x8000_0000 && (parts[0].Extra? ==> Ancillary(parts[0].kind))
      && Has(file, p, Chunk(KindOf(parts[0]), parts[0].bytes, crc))
      && PartsAt(file, p + 12 + |parts[0].bytes|, parts[1..], crc)
  }

  function PartsEnd(p: nat, parts: seq<Part>): nat
    decreases |parts|
  {
    if parts == [] then p else PartsEnd(p + 12 + |parts[0].bytes|, parts[1..])
  }

  function DataOf(part: Part): seq<Byte>
  {
    if part.Data? then part.bytes else []
  }

  /** The image data, put together. */
  function Collected(parts: seq<Part>): seq<Byte>
  {
    if parts == [] then [] else DataOf(parts[0]) + Collected(parts[1..])
  }

  /** One part is added to the data, or skipped. */
  lemma PartRead(file: seq<Byte>, p: nat, part: Part, crc: Crc, st: State)
    requires st.header.Ihdr? && !st.header.palette && |part.bytes| < 0x8000_0000
    requires (part.Extra? ==> Ancillary(part.kind)) && Has(file, p, Chunk(KindOf(part), part.bytes, crc))
    requires |st.idata| + |DataOf(part)| < 0x8000_0000
    ensures ReadChunk(file, p, st) == Next(st.(idata := st.idata + DataOf(part)), p + 8 + |part.bytes|)
  {
    hide Has, Chunk, Be32, ReadChunk;
    ChunkRead(file, p, KindOf(part), part.bytes, crc);
    DataRead(file, p + 8, part.bytes);
    assert st.idata + [] == st.idata;
    match part
    case Data(_) => DataStep(file, p, st);
    case Extra(kind, _) => SkipStep(file, p, kind, st);
  }

  lemma DataStep(file: seq<Byte>, p: nat, st: State)
    requires st.header.Ihdr? && !st.header.palette && Be32(file, p + 4) == IDAT
    requires p + 8 + Be32(file, p) <= |file| && |st.idata| + Be32(file, p) < 0x8000_0000
    ensures var len := Be32(file, p);
            ReadChunk(file, p, st) == Next(st.(idata := st.idata + file[p + 8..p + 8 + len]), p + 8 + len)
  {
    hide Be32, ReadHeader;
  }

  lemma SkipStep(file: seq<Byte>, p: nat, kind: nat, st: State)
    requires st.header.Ihdr? && Be32(file, p + 4) == kind && Ancillary(kind) && Be32(file, p) < 0x8000_0000
    ensures ReadChunk(file, p, st) == Next(st, p + 8 + Be32(file, p))
  {
    hide Be32, ReadHeader;
    Unknown(kind);
  }

  lemma Unknown(kind: nat)
    requires Ancillary(kind)
    ensures kind != CGBI && kind != IHDR && kind != PLTE && kind != IDAT && kind != IEND
  {
  }

  lemma {:induction false} PartsRead(file: seq<Byte>, p: nat, parts: seq<Part>, crc: Crc, st: State, req_comp: nat,
                                     n: nat, steps: nat)
    requires st.header.Ihdr? && !st.header.palette && HeaderInRange(st.header) && PartsAt(file, p, parts, crc)
    requires |st.idata| + |Collected(parts)| < 0x8000_0000
    ensures ParseChunks(file, p, st, req_comp, n, steps)
         == ParseChunks(file, PartsEnd(p, parts), st.(idata := st.idata + Collected(parts)), req_comp, n, steps)
    decreases |parts|
  {
    hide Has, Chunk, ReadChunk, ParseChunks, Finish, HeaderInRange;
    if parts == [] {
      assert st.idata + [] == st.idata;
    } else {
      var part, rest := parts[0], parts[1..];
      var next := st.(idata := st.idata + DataOf(part));
      PartRead(file, p, part, crc, st);
      ChunkStep(file, p, st, req_comp, n, steps);
      PartsRead(file, p + 12 + |part.bytes|, rest, crc, next, req_comp, n, steps);
      assert st.idata + DataOf(part) + Collected(rest) == st.idata + (DataOf(part) + Collected(rest));
    }
  }

  /** Signature, header, parts and end. */
  ghost predicate FileOf(file: seq<Byte>, header: seq<Byte>, parts: seq<Part>, crc: Crc)
  {
    && Has(file, 0, SIGNATURE) && |header| == 13 && Has(file, 8, Chunk(IHDR, header, crc))
    && PartsAt(file, 33, parts, crc) && Has(file, PartsEnd(33, parts), Chunk(IEND, [], crc))
    && |Collected(parts)| < 0x8000_0000
  }

  /** However the data is cut and whatever lies between, the file is read as its header and all the data. */
  lemma FileRead(file: seq<Byte>, header: seq<Byte>, parts: seq<Part>, crc: Crc, req_comp: nat, n: nat, steps: nat)
    requires FileOf(file, header, parts, crc) && ReadHeader(file, 16).Ihdr? && !ReadHeader(file, 16).palette
    ensures var st := State(ReadHeader(file, 16), Collected(parts), 0, false, false);
            ParsePng(file, req_comp, n, steps) == Finish(st, req_comp, n, steps)
  {
    hide Has, Chunk, Finish, ReadHeader, Be32, ParseChunks;
    ChunkRead(file, 8, IHDR, header, crc);
    SignatureRead(file);
    var st0 := Initial();
    var st1 := st0.(header := ReadHeader(file, 16));
    assert ReadChunk(file, 8, st0) == Next(st1, 29);
    hide ReadChunk;
    ChunkStep(file, 8, st0, req_comp, n, steps);
    PartsRead(file, 33, parts, crc, st1, req_comp, n, steps);
    assert [] + Collected(parts) == Collected(parts);
    var st2 := st1.(idata := Collected(parts));
    EndRead(file, PartsEnd(33, parts), crc, st2);
    ChunkStep(file, PartsEnd(33, parts), st2, req_comp, n, steps);
  }

  lemma EndRead(file: seq<Byte>, p: nat, crc: Crc, st: State)
    requires st.header.Ihdr? && Has(file, p, Chunk(IEND, [], crc))
    ensures ReadChunk(file, p, st) == End
  {
    hide Has, Chunk, Be32, ReadHeader;
    ChunkRead(file, p, IEND, [], crc);
  }

  /** The outcome for inflated data. */
  ghost function Outcome(h: Ihdr, raw: seq<Byte>, req_comp: nat): Parsed
    requires h.Ihdr?
  {
    var alpha := req_comp == h.n + 1 && req_comp != 3;
    match Picture(raw, h, alpha)
    case BadImage => Error
    case Image(pixels) => Loaded(h.x, h.y, h.n, if alpha then h.n + 1 else h.n, pixels)
  }

  /** The reader loads every such file with the picture that its stream of stored, fixed and dynamic
      blocks stands for. */
  method LoadFile(file: seq<Byte>, ghost header: seq<Byte>, ghost parts: seq<Part>, ghost crc: Crc,
                  ghost cs: seq<Piece>, req_comp: nat) returns (r: Parsed)
    requires FileOf(file, header, parts, crc)
    requires var z := Collected(parts); |z| >= 2 && HeaderBytes(z[0], z[1]) && StreamAt(z, 16, [], cs)
    requires var h := ReadHeader(file, 16);
             && h.Ihdr? && !h.palette && Modelled(h)
             && (h.interlace != 0 ==>
                   SizesValid(h.x, h.y, if req_comp == h.n + 1 && req_comp != 3 then h.n + 1 else h.n, 0))
    ensures r == Outcome(ReadHeader(file, 16), Whole(Collected(parts), 16, [], cs), req_comp)
  {
    hide FileOf, StreamAt, Whole, ReadHeader, ParsePng, Blocks, Picture, MostSteps, Modelled, SizesValid;
    ghost var z := Collected(parts);
    MostFit(cs);
    StreamHeard(z, 16, [], cs, |cs|, MostSteps(cs));
    FileRead(file, header, parts, crc, req_comp, |cs|, MostSteps(cs));
    r := ParseFile(file, req_comp, |cs|, MostSteps(cs));
  }
}
