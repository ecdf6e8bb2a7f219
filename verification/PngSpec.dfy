/** The PNG container: what `stbi__parse_png_file` makes of a byte string when asked to load
    an image. Reads past the end of the file give zeros. Chunks of palette, transparency
    and iPhone images are recognised, but images that need them, 16-bit data, and data of less
    than eight bits that are interlaced or not grey, are reported as `Outside`. */
module PngSpec {
  import opened Words
  import opened BitStream
  import opened InflateSpec
  import opened PngImage
  import opened PngAdam7
  import opened PngUnpack
  import opened PngPacked

  const SIGNATURE: seq<Byte> := [137, 80, 78, 71, 13, 10, 26, 10]

  const CGBI := 0x43674249
  const IHDR := 0x49484452
  const PLTE := 0x504C5445
  const TRNS := 0x74524E53
  const IDAT := 0x49444154
  const IEND := 0x49454E44

  /** Four characters as a number, the first one highest. */
  function Spelt(name: string): nat
    requires |name| == 4
  {
    ((name[0] as nat * 256 + name[1] as nat) * 256 + name[2] as nat) * 256 + name[3] as nat
  }

  /** The kinds spell the names of the chunks, and the signature those of section 3.1 of RFC 2083. */
  lemma KindsSpelt()
    ensures IHDR == Spelt("IHDR") && PLTE == Spelt("PLTE") && TRNS == Spelt("tRNS") && IDAT == Spelt("IDAT")
    ensures IEND == Spelt("IEND") && CGBI == Spelt("CgBI")
    ensures forall i :: 1 <= i < 4 ==> SIGNATURE[i] == "PNG"[i - 1] as int
  {
  }

  /** `stbi__get32be`. */
  function Be32(file: seq<Byte>, p: nat): (v: nat)
    ensures v < 0x1_0000_0000
  {
    var a: nat, b: nat, c: nat, d: nat :=
      ByteAt(file, p), ByteAt(file, p + 1), ByteAt(file, p + 2), ByteAt(file, p + 3);
    a * 0x100_0000 + b * 0x1_0000 + c * 0x100 + d
  }

  /** `stbi__skip`: a length of 2^31 or more is negative there, and goes to the end. */
  function Skip(file: seq<Byte>, p: nat, n: nat): nat
  {
    if n >= 0x8000_0000 then |file| else p + n
  }

  datatype Ihdr = Ihdr(x: nat, y: nat, depth: nat, n: nat, interlace: nat, palette: bool) | NoIhdr | BadIhdr

  function Channels(color: nat): (n: nat)
    ensures 1 <= n <= 4
  {
    (if color / 2 % 2 == 1 then 3 else 1) + (if color / 4 % 2 == 1 then 1 else 0)
  }

  /** The thirteen bytes of IHDR and the limits checked on them. */
  function ReadHeader(file: seq<Byte>, p: nat): (h: Ihdr)
    ensures !h.NoIhdr?
    ensures h.Ihdr? ==> 1 <= h.x <= 0x100_0000 && 1 <= h.y <= 0x100_0000 && 1 <= h.n <= 4
  {
    var x, y := Be32(file, p), Be32(file, p + 4);
    var depth: nat, color: nat := ByteAt(file, p + 8), ByteAt(file, p + 9);
    var interlace: nat := ByteAt(file, p + 12);
    var n := if color == 3 then 1 else Channels(color);
    if x > 0x100_0000 || y > 0x100_0000 then BadIhdr
    else if depth !in {1, 2, 4, 8, 16} || color > 6 then BadIhdr
    else if (color == 3 && depth == 16) || (color != 3 && color % 2 == 1) then BadIhdr
    else if ByteAt(file, p + 10) != 0 || ByteAt(file, p + 11) != 0 || interlace > 1 then BadIhdr
    else if x == 0 || y == 0 then BadIhdr
    else if 0x4000_0000 / x / (if color == 3 then 4 else n) < y then BadIhdr
    else Ihdr(x, y, depth, n, interlace, color == 3)
  }

  /** What has been seen so far; `idata` empty means no image data yet. */
  datatype State = State(header: Ihdr, idata: seq<Byte>, pal_len: nat, trans: bool, iphone: bool)

  datatype Parsed =
    | Loaded(x: nat, y: nat, n: nat, out_n: nat, pixels: seq<Byte>)
    | Error
    | Outside
    | Unspecified // the compressed data outlasts the given bound or copies bytes never written, or
                  // the interlaced image is too large to allocate

  /** Eight bits a sample, or fewer in a grey image that is not interlaced. */
  predicate Modelled(h: Ihdr)
    requires h.Ihdr?
  {
    h.depth == 8 || (SmallDepth(h.depth) && h.n == 1 && h.interlace == 0)
  }

  /** What the inflated data stand for: one image, or seven to be interleaved. */
  ghost function Picture(raw: seq<Byte>, h: Ihdr, alpha: bool): Image
    requires h.Ihdr?
  {
    if SmallDepth(h.depth) then RawPacked(raw, h.x, h.y, h.depth, alpha)
    else if h.interlace == 0 then RawImage(raw, h.x, h.y, h.n, alpha)
    else
      match PassImages(raw, h.x, h.y, h.n, alpha, 0)
      case BadPass => BadImage
      case PassList(images) => Image(Interleaved(images, h.x, h.y, if alpha then h.n + 1 else h.n))
  }

  ghost function Finish(st: State, req_comp: nat, n: nat, steps: nat): Parsed
    requires st.header.Ihdr?
  {
    var h := st.header;
    if st.idata == [] then Error
    else if st.trans || st.iphone || h.palette || !Modelled(h) then Outside
    else
      match Inflate(st.idata, n, steps)
      case Failed => Error
      case Undefined => Unspecified
      case Running => Unspecified
      case Done(raw, _) =>
        var alpha := req_comp == h.n + 1 && req_comp != 3;
        if h.interlace != 0 && !SizesValid(h.x, h.y, if alpha then h.n + 1 else h.n, 0) then Unspecified
        else
        match Picture(raw, h, alpha)
        case BadImage => Error
        case Image(pixels) => Loaded(h.x, h.y, h.n, if alpha then h.n + 1 else h.n, pixels)
  }

  datatype Step = Next(st: State, pos: nat) | Stop | End

  /** One chunk other than IEND: the new state and the position of its CRC. */
  function ReadChunk(file: seq<Byte>, p: nat, st: State): (r: Step)
    requires !st.header.BadIhdr?
    ensures r.Next? ==> p + 8 <= r.pos || r.pos == |file|
    ensures r.Next? ==> !r.st.header.BadIhdr?
    ensures r.End? ==> st.header.Ihdr?
    ensures p >= |file| ==> r.Stop?
  {
    var len, kind, q := Be32(file, p), Be32(file, p + 4), p + 8;
    var first := st.header.NoIhdr?;
    if kind == CGBI then Next(st.(iphone := true), Skip(file, q, len))
    else if kind == IHDR then
      if !first || len != 13 then Stop
      else
        var h := ReadHeader(file, q);
        if h.BadIhdr? then Stop else Next(st.(header := h), q + 13)
    else if kind == PLTE then
      if first || len > 768 || len % 3 != 0 then Stop
      else Next(st.(pal_len := len / 3), q + len)
    else if kind == TRNS then
      if first || st.idata != [] then Stop
      else if st.header.palette then
        if st.pal_len == 0 || len > st.pal_len then Stop else Next(st.(trans := true), q + len)
      else if st.header.n % 2 == 0 || len != st.header.n * 2 then Stop
      else Next(st.(trans := true), q + len)
    else if kind == IDAT then
      if first || (st.header.palette && st.pal_len == 0) then Stop
      else if |st.idata| + len >= 0x8000_0000 || q + len > |file| then Stop
      else Next(st.(idata := st.idata + file[q..q + len]), q + len)
    else if kind == IEND then (if first then Stop else End)
    else if first || kind / 0x2000_0000 % 2 == 0 then Stop
    else Next(st, Skip(file, q, len))
  }

  ghost function ParseChunks(file: seq<Byte>, p: nat, st: State, req_comp: nat, n: nat, steps: nat): Parsed
    requires !st.header.BadIhdr?
    decreases if p < |file| then |file| - p else 0
  {
    match ReadChunk(file, p, st)
    case Stop => Error
    case End => Finish(st, req_comp, n, steps)
    case Next(st', q) => ParseChunks(file, q + 4, st', req_comp, n, steps)
  }

  function Initial(): State
  {
    State(NoIhdr, [], 0, false, false)
  }

  ghost function ParsePng(file: seq<Byte>, req_comp: nat, n: nat, steps: nat): Parsed
  {
    if forall i :: 0 <= i < 8 ==> ByteAt(file, i) == SIGNATURE[i]
    then ParseChunks(file, 8, Initial(), req_comp, n, steps)
    else Error
  }
}
