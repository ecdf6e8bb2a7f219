/** `stbi__parse_png_file`, loading an image. */
module PngReader {
  import opened Words
  import opened BitStream
  import opened InflateSpec
  import opened PngImage
  import opened PngAdam7
  import opened PngUnpack
  import opened PngPacked
  import opened PngSpec
  import Inflater

  /** The reading position in the file; reading past the end gives zeros. */
  class Context {
    const file: seq<Byte>
    var pos: nat

    constructor (bytes: seq<Byte>)
      ensures file == bytes && pos == 0
    {
      file, pos := bytes, 0;
    }

    method Get8() returns (b: Byte)
      modifies this
      ensures b == ByteAt(file, old(pos)) && pos == old(pos) + 1
    {
      b := if pos < |file| then file[pos] else 0;
      pos := pos + 1;
    }

    method Get16be() returns (v: nat)
      modifies this
      ensures v == Be16(file, old(pos)) && pos == old(pos) + 2
    {
      var a := Get8();
      var b := Get8();
      v := Le16(b, a);
    }

    method Get32be() returns (v: nat)
      modifies this
      ensures v == Be32(file, old(pos)) && pos == old(pos) + 4
    {
      var hi := Get16be();
      var lo := Get16be();
      v := hi * 0x1_0000 + lo;
    }
  }

  function Be16(file: seq<Byte>, p: nat): nat
  {
    Le16(ByteAt(file, p + 1), ByteAt(file, p))
  }

  method CheckSignature(c: Context) returns (ok: bool)
    requires c.pos == 0
    modifies c
    ensures ok <==> forall i :: 0 <= i < 8 ==> ByteAt(c.file, i) == SIGNATURE[i]
    ensures ok ==> c.pos == 8
  {
    for i := 0 to 8
      invariant c.pos == i
      invariant forall k :: 0 <= k < i ==> ByteAt(c.file, k) == SIGNATURE[k]
    {
      var b := c.Get8();
      if b != SIGNATURE[i] {
        return false;
      }
    }
    ok := true;
  }

  /** The fields of IHDR in file order, each checked as soon as it is read. */
  method ParseHeader(c: Context) returns (h: Ihdr)
    modifies c
    ensures h == ReadHeader(c.file, old(c.pos))
    ensures h.Ihdr? ==> c.pos == old(c.pos) + 13
  {
    h := BadIhdr;
    var x := c.Get32be();
    if x > 0x100_0000 {
      return;
    }
    var y := c.Get32be();
    if y > 0x100_0000 {
      return;
    }
    var depth := c.Get8();
    if depth != 1 && depth != 2 && depth != 4 && depth != 8 && depth != 16 {
      return;
    }
    var color := c.Get8();
    if color > 6 || (color == 3 && depth == 16) || (color != 3 && color % 2 == 1) {
      return;
    }
    h := ParseHeaderRest(c, x, y, depth, color);
  }

  method ParseHeaderRest(c: Context, x: nat, y: nat, depth: nat, color: nat) returns (h: Ihdr)
    modifies c
    ensures c.pos <= old(c.pos) + 3 && (h.Ihdr? ==> c.pos == old(c.pos) + 3)
    ensures var n := if color == 3 then 1 else Channels(color);
            var p := old(c.pos);
            h == if ByteAt(c.file, p) != 0 || ByteAt(c.file, p + 1) != 0 || ByteAt(c.file, p + 2) > 1
                    || x == 0 || y == 0
                    || 0x4000_0000 / x / (if color == 3 then 4 else n) < y
                 then BadIhdr else Ihdr(x, y, depth, n, ByteAt(c.file, p + 2), color == 3)
  {
    h := BadIhdr;
    var comp := c.Get8();
    if comp != 0 {
      return;
    }
    var filter := c.Get8();
    if filter != 0 {
      return;
    }
    var interlace := c.Get8();
    if interlace > 1 {
      return;
    }
    if x == 0 || y == 0 {
      return;
    }
    if color != 3 {
      var n := (if color / 2 % 2 == 1 then 3 else 1) + (if color / 4 % 2 == 1 then 1 else 0);
      if 0x4000_0000 / x / n < y {
        return;
      }
      h := Ihdr(x, y, depth, n, interlace, false);
    } else {
      if 0x4000_0000 / x / 4 < y {
        return;
      }
      h := Ihdr(x, y, depth, 1, interlace, true);
    }
  }

  method ParseChunk(c: Context, st: State) returns (r: Step)
    requires !st.header.BadIhdr?
    modifies c
    ensures r == ReadChunk(c.file, old(c.pos), st)
    ensures r.Next? ==> c.pos == r.pos
  {
    hide ReadHeader, Be32;
    r := Stop;
    var len := c.Get32be();
    var kind := c.Get32be();
    var first := st.header.NoIhdr?;
    if kind == CGBI {
      c.pos := Skip(c.file, c.pos, len);
      r := Next(st.(iphone := true), c.pos);
    } else if kind == IHDR {
      if first && len == 13 {
        var h := ParseHeader(c);
        if h.Ihdr? {
          r := Next(st.(header := h), c.pos);
        }
      }
    } else if kind == PLTE || kind == TRNS {
      r := ParseSideChunk(c, st, kind, len);
    } else if kind == IDAT {
      if !first && !(st.header.palette && st.pal_len == 0) && |st.idata| + len < 0x8000_0000
         && c.pos + len <= |c.file|
      {
        r := Next(st.(idata := st.idata + c.file[c.pos..c.pos + len]), c.pos + len);
        c.pos := c.pos + len;
      }
    } else if kind == IEND {
      if !first {
        r := End;
      }
    } else {
      if !first && kind / 0x2000_0000 % 2 != 0 {
        c.pos := Skip(c.file, c.pos, len);
        r := Next(st, c.pos);
      }
    }
  }

  /** PLTE and tRNS: their contents are passed over. */
  method ParseSideChunk(c: Context, st: State, kind: nat, len: nat) returns (r: Step)
    requires !st.header.BadIhdr? && (kind == PLTE || kind == TRNS)
    modifies c
    ensures r == if kind == PLTE then
                   if st.header.NoIhdr? || len > 768 || len % 3 != 0 then Stop
                   else Next(st.(pal_len := len / 3), old(c.pos) + len)
                 else
                   if st.header.NoIhdr? || st.idata != [] then Stop
                   else if (if st.header.palette then st.pal_len == 0 || len > st.pal_len
                            else st.header.n % 2 == 0 || len != st.header.n * 2) then Stop
                   else Next(st.(trans := true), old(c.pos) + len)
    ensures r.Next? ==> c.pos == r.pos
  {
    r := Stop;
    if st.header.NoIhdr? {
      return;
    }
    if kind == PLTE {
      if len > 768 || len / 3 * 3 != len {
        return;
      }
      c.pos := c.pos + len;
      r := Next(st.(pal_len := len / 3), c.pos);
    } else {
      if st.idata != [] {
        return;
      }
      if st.header.palette {
        if st.pal_len == 0 || len > st.pal_len {
          return;
        }
      } else {
        if st.header.n % 2 == 0 || len != st.header.n * 2 {
          return;
        }
      }
      c.pos := c.pos + len;
      r := Next(st.(trans := true), c.pos);
    }
  }

  /** IEND: inflate the collected data and undo the filters. */
  method FinishImage(st: State, req_comp: nat, ghost n: nat, ghost steps: nat) returns (r: Parsed)
    requires st.header.Ihdr? && HeaderInRange(st.header)
    requires !Finish(st, req_comp, n, steps).Unspecified?
    ensures r == Finish(st, req_comp, n, steps)
  {
    hide Inflate, RawImage, RawPacked, PassImages, Interleaved, Assembled, SizesValid;
    var h := st.header;
    if st.idata == [] {
      return Error;
    }
    if st.trans || st.iphone || h.palette || !Modelled(h) {
      return Outside;
    }
    var ok, raw := Inflater.DecodeZlib(st.idata, n, steps);
    if !ok {
      return Error;
    }
    var alpha := req_comp == h.n + 1 && req_comp != 3;
    var fine, out;
    if SmallDepth(h.depth) {
      fine, out := CreatePacked(raw, h.x, h.y, h.depth, alpha);
    } else if h.interlace == 0 {
      fine, out := CreateRaw8(raw, h.x, h.y, h.n, alpha);
    } else {
      fine, out := CreateInterlaced(raw, h.x, h.y, h.n, alpha);
      if fine {
        ghost var images := PassImages(raw, h.x, h.y, h.n, alpha, 0).images;
        AssembledOnce(out[..], images, h.x, h.y, if alpha then h.n + 1 else h.n);
      }
    }
    if !fine {
      return Error;
    }
    r := Loaded(h.x, h.y, h.n, if alpha then h.n + 1 else h.n, out[..]);
  }

  /** `stbi__parse_png_file` in load mode. */
  method ParseFile(file: seq<Byte>, req_comp: nat, ghost n: nat, ghost steps: nat) returns (r: Parsed)
    requires !ParsePng(file, req_comp, n, steps).Unspecified?
    ensures r == ParsePng(file, req_comp, n, steps)
  {
    hide ParseChunks, Finish, ReadChunk;
    var c := new Context(file);
    var ok := CheckSignature(c);
    if !ok {
      return Error;
    }
    var st := Initial();
    while true
      invariant c.file == file && HeaderInRange(st.header)
      invariant ParseChunks(file, c.pos, st, req_comp, n, steps) == ParsePng(file, req_comp, n, steps)
      decreases if c.pos < |file| then |file| - c.pos else 0
    {
      ChunkStep(file, c.pos, st, req_comp, n, steps);
      var step := ParseChunk(c, st);
      match step
      case Stop =>
        return Error;
      case End =>
        r := FinishImage(st, req_comp, n, steps);
        return;
      case Next(st', _) =>
        st := st';
        var _ := c.Get32be();
    }
  }

  ghost predicate HeaderInRange(h: Ihdr)
  {
    !h.BadIhdr? && (h.Ihdr? ==> h.n >= 1 && 1 <= h.x <= MAX_DIMENSION && h.y <= MAX_DIMENSION)
  }

  /** One unfolding of `ParseChunks`. */
  lemma ChunkStep(file: seq<Byte>, p: nat, st: State, req_comp: nat, n: nat, steps: nat)
    requires HeaderInRange(st.header)
    ensures match ReadChunk(file, p, st)
            case Stop => ParseChunks(file, p, st, req_comp, n, steps) == Error
            case End =>
              st.header.Ihdr? && ParseChunks(file, p, st, req_comp, n, steps) == Finish(st, req_comp, n, steps)
            case Next(st', q) =>
              && HeaderInRange(st'.header) && p < |file| && p + 4 < q + 4
              && ParseChunks(file, p, st, req_comp, n, steps) == ParseChunks(file, q + 4, st', req_comp, n, steps)
  {
    hide Finish, Be32;
  }
}
