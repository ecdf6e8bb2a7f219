/** A frame coded by any LZW coder, in any sub-blocks, shows the image that was coded. */
module GifRoundTrip {
  import opened Words
  import opened GifRows
  import opened GifCursor
  import opened GifLzw
  import opened GifCoder
  import opened GifImage

  /** The file holds the number of colours, and the pieces in sub-blocks behind it. */
  ghost predicate CodedAt(s: seq<Byte>, start: nat, cs: nat, items: seq<Sent>, chunks: seq<seq<Byte>>)
  {
    && 1 <= cs <= 12 && start < |s| && s[start] == cs && ChunksAt(s, start + 1, chunks)
    && Coding(Joined(chunks), cs, items)
  }

  method FrameRoundTrip(gw: nat, gh: nat, x: nat, y: nat, w: nat, h: nat, lflags: Byte, s: seq<Byte>, start: nat,
                        colors: seq<Byte>, ghost cs: nat, ghost items: seq<Sent>, ghost chunks: seq<seq<Byte>>)
    returns (ok: bool, out: seq<Byte>)
    requires |colors| == 1024 && CodedAt(s, start, cs, items, chunks)
    ensures var f := Frame(gw, gh, x, y, w, h, And(lflags, 0x40) != 0);
            && (ok <==> Inside(f) && HasRoom(cs, Pow2(cs) + 2, true, items))
            && (ok ==> |out| == 4 * Pixels(f))
            && (ok ==> forall n: nat :: n < |Indices(items)| && n < Total(w, h, f.interlaced) ==>
                 Shows(f, colors, out, n, Indices(items)[n]))
  {
    hide SubBlocks, Decode, And, Total, Shows, Inside, ChunksAt, Coding, HasRoom, Indices, Pow2;
    ChunksHeard(s, start + 1, chunks);
    RasterHeard(Joined(chunks), cs, items);
    ok, out := DecodeFrame(gw, gh, x, y, w, h, lflags, s, start, colors);
  }
}
