/** What a DEFLATE stream means: the blocks of RFC 1951 as functions of a position in the
    zero-padded bit stream. `steps` bounds how many symbols of a block, and `n` how many
    blocks, are followed; `Running` says that the bound was reached first. */
module InflateSpec {
  import opened Words
  import opened BitStream
  import opened Huffman
  import opened ZHuffman
  import opened ZBuf

  datatype Outcome =
    | Done(out: seq<Byte>, at: nat)
    | Failed
    | Undefined // the reserved distance codes 30 and 31: the copy reads bytes never written
    | Running

  const LENGTH_BASE: seq<nat> := [
    3, 4, 5, 6, 7, 8, 9, 10, 11, 13, 15, 17, 19, 23, 27, 31, 35, 43, 51, 59, 67, 83, 99, 115, 131, 163, 195, 227, 258,
    0, 0]

  const LENGTH_EXTRA: seq<nat> := [
    0, 0, 0, 0, 0, 0, 0, 0, 1, 1, 1, 1, 2, 2, 2, 2, 3, 3, 3, 3, 4, 4, 4, 4, 5, 5, 5, 5, 0, 0, 0]

  const DIST_BASE: seq<nat> := [
    1, 2, 3, 4, 5, 7, 9, 13, 17, 25, 33, 49, 65, 97, 129, 193, 257, 385, 513, 769, 1025, 1537, 2049, 3073, 4097, 6145,
    8193, 12289, 16385, 24577, 0, 0]

  const DIST_EXTRA: seq<nat> := [
    0, 0, 0, 0, 1, 1, 2, 2, 3, 3, 4, 4, 5, 5, 6, 6, 7, 7, 8, 8, 9, 9, 10, 10, 11, 11, 12, 12, 13, 13, 0, 0]

  function LengthBase(z: nat): nat requires z < 31 { LENGTH_BASE[z] }
  function DistBase(z: nat): nat requires z < 32 { DIST_BASE[z] }

  function LengthExtra(z: nat): (e: nat)
    requires z < 31
    ensures e <= 5
  {
    LENGTH_EXTRA[z]
  }

  function DistExtra(z: nat): (e: nat)
    requires z < 32
    ensures e <= 13
  {
    DIST_EXTRA[z]
  }

  /** Append `len` bytes, each the one `dist` places back: the copy may overlap itself. */
  function CopyBack(out: seq<Byte>, dist: nat, len: nat): (r: seq<Byte>)
    requires 1 <= dist <= |out|
    ensures |r| == |out| + len && r[..|out|] == out
    ensures forall j :: |out| <= j < |r| ==> r[j] == r[j - dist]
    decreases len
  {
    if len == 0 then out else CopyBack(out + [out[|out| - dist]], dist, len - 1)
  }

  /** The bytes appended so far and the position reached after a length/distance pair. */
  datatype Pair = Pair(len: nat, dist: nat, at: nat) | BadPair

  ghost function ReadPair(s: seq<Byte>, dlens: seq<nat>, z: nat, at: nat): Pair
    requires z < 31 && |dlens| <= 32
  {
    var len := LengthBase(z) + Lsb(s, at, LengthExtra(z));
    var p := at + LengthExtra(z);
    var d := Symbol(dlens, Window(s, p));
    if d < 0 then BadPair
    else
      var q := p + dlens[d];
      Pair(len, DistBase(d) + Lsb(s, q, DistExtra(d)), q + DistExtra(d))
  }

  /** The symbols of one compressed block, up to and including the end-of-block code. */
  ghost function Block(s: seq<Byte>, lens: seq<nat>, dlens: seq<nat>, at: nat, out: seq<Byte>, steps: nat): Outcome
    requires |lens| <= 288 && |dlens| <= 32
    decreases steps
  {
    if steps == 0 then Running
    else
      var z := Symbol(lens, Window(s, at));
      if z < 0 then Failed
      else
        var p := at + lens[z];
        if z < 256 then Block(s, lens, dlens, p, out + [z], steps - 1)
        else if z == 256 then Done(out, p)
        else
          match ReadPair(s, dlens, z - 257, p)
          case BadPair => Failed
          case Pair(len, dist, q) =>
            if |out| < dist then Failed
            else if dist == 0 then Undefined
            else Block(s, lens, dlens, q, CopyBack(out, dist, len), steps - 1)
  }

  /** A stored block: LEN and NLEN are the four bytes after the next byte boundary. */
  function Stored(s: seq<Byte>, at: nat, out: seq<Byte>): Outcome
  {
    var q := (at + 7) / 8;
    var len := Le16(ByteAt(s, q), ByteAt(s, q + 1));
    var nlen := Le16(ByteAt(s, q + 2), ByteAt(s, q + 3));
    if nlen != 0xffff - len || q + 4 + len > |s| then Failed
    else Done(out + s[q + 4..q + 4 + len], 8 * (q + 4 + len))
  }

  // ----- dynamic code lengths

  const DEZIGZAG: seq<nat> := [16, 17, 18, 0, 8, 7, 9, 6, 10, 5, 11, 4, 12, 3, 13, 2, 14, 1, 15]

  function Dezigzag(i: nat): (d: nat)
    requires i < 19
    ensures d < 19
  {
    DEZIGZAG[i]
  }

  /** The code-length code: `n` three-bit lengths, in the order of `DEZIGZAG`. */
  function CodeLengthSizes(s: seq<Byte>, at: nat, n: nat): (r: seq<nat>)
    requires n <= 19
    ensures |r| == 19 && forall i :: 0 <= i < 19 ==> r[i] <= 7
  {
    if n == 0 then seq(19, _ => 0)
    else
      LsbBound(s, at + 3 * (n - 1), 3);
      assert Pow2(3) == 8;
      CodeLengthSizes(s, at, n - 1)[Dezigzag(n - 1) := Lsb(s, at + 3 * (n - 1), 3)]
  }

  datatype LengthsRead = LengthsRead(lens: seq<nat>, at: nat) | BadLengths

  function Fill(x: nat, n: nat): seq<nat>
  {
    seq(n, _ => x)
  }

  /** The run-length coded list of `total` code lengths, of which `got` are known. */
  ghost function CodeLengths(s: seq<Byte>, cl: seq<nat>, at: nat, got: seq<nat>, total: nat): (r: LengthsRead)
    requires |cl| == 19 && |got| <= total
    requires forall i :: 0 <= i < |got| ==> got[i] <= 15
    ensures r.LengthsRead? ==> |r.lens| == total && forall i :: 0 <= i < total ==> r.lens[i] <= 15
    decreases total - |got|
  {
    if |got| == total then LengthsRead(got, at)
    else
      var c := Symbol(cl, Window(s, at));
      if c < 0 then BadLengths
      else
        var p := at + cl[c];
        if c < 16 then CodeLengths(s, cl, p, got + [c], total)
        else
          var bits := if c == 16 then 2 else if c == 17 then 3 else 7;
          var count := Lsb(s, p, bits) + (if c == 18 then 11 else 3);
          if c == 16 && got == [] then BadLengths
          else if total - |got| < count then BadLengths
          else
            var fill := if c == 16 then got[|got| - 1] else 0;
            CodeLengths(s, cl, p + bits, got + Fill(fill, count), total)
  }

  datatype Header = Header(lens: seq<nat>, dlens: seq<nat>, at: nat) | BadHeader

  /** The two length lists a dynamic block starts with. */
  ghost function HeaderLengths(s: seq<Byte>, at: nat): (h: Header)
    ensures h.Header? ==> SizeList(h.lens) && SizeList(h.dlens) && |h.dlens| <= 32
  {
    LsbBound(s, at, 5); LsbBound(s, at + 5, 5); LsbBound(s, at + 10, 4);
    assert Pow2(5) == 32 && Pow2(4) == 16;
    var hlit := Lsb(s, at, 5) + 257;
    var hdist := Lsb(s, at + 5, 5) + 1;
    var hclen := Lsb(s, at + 10, 4) + 4;
    var cl := CodeLengthSizes(s, at + 14, hclen);
    if !Decodable(cl) then BadHeader
    else
      match CodeLengths(s, cl, at + 14 + 3 * hclen, [], hlit + hdist)
      case BadLengths => BadHeader
      case LengthsRead(all, p) => Header(all[..hlit], all[hlit..], p)
  }

  ghost function DynamicHeader(s: seq<Byte>, at: nat): (h: Header)
    ensures h.Header? ==> SizeList(h.lens) && SizeList(h.dlens) && |h.dlens| <= 32
    ensures h.Header? ==> Decodable(h.lens) && Decodable(h.dlens)
  {
    var h := HeaderLengths(s, at);
    if h.Header? && Decodable(h.lens) && Decodable(h.dlens) then h else BadHeader
  }

  // ----- the whole stream

  /** The fixed code of section 3.2.6 of RFC 1951. */
  function FixedLengths(): (r: seq<nat>)
    ensures |r| == 288
  {
    seq(288, i => if i <= 143 then 8 else if i <= 255 then 9 else if i <= 279 then 7 else 8)
  }

  lemma FixedNext(i: nat)
    requires 0 < i <= 288
    ensures FixedLengths()[..i] == FixedLengths()[..i - 1] + [FixedLengths()[i - 1]]
    ensures FixedLengths()[i - 1] == if i <= 144 then 8 else if i <= 256 then 9 else if i <= 280 then 7 else 8
  {
  }

  lemma DistancesNext(i: nat)
    requires 0 < i <= 32
    ensures FixedDistances()[..i] == FixedDistances()[..i - 1] + [5]
  {
  }

  function FixedDistances(): (r: seq<nat>)
    ensures |r| == 32
  {
    seq(32, _ => 5)
  }

  ghost function OneBlock(s: seq<Byte>, kind: nat, at: nat, out: seq<Byte>, steps: nat): Outcome
  {
    if kind == 0 then Stored(s, at, out)
    else if kind == 1 then Block(s, FixedLengths(), FixedDistances(), at, out, steps)
    else if kind == 2 then
      match DynamicHeader(s, at)
      case BadHeader => Failed
      case Header(lens, dlens, p) => Block(s, lens, dlens, p, out, steps)
    else Failed
  }

  ghost function Blocks(s: seq<Byte>, at: nat, out: seq<Byte>, n: nat, steps: nat): Outcome
    decreases n
  {
    if n == 0 then Running
    else
      match OneBlock(s, Lsb(s, at + 1, 2), at + 3, out, steps)
      case Done(o, p) => if Lsb(s, at, 1) == 1 then Done(o, p) else Blocks(s, p, o, n - 1, steps)
      case other => other
  }

  /** The two header bytes of RFC 1950 as this reader checks them. */
  predicate ZlibHeader(cmf: Byte, flg: Byte)
  {
    (cmf * 256 + flg) % 31 == 0 && flg / 32 % 2 == 0 && cmf % 16 == 8
  }

  ghost function Inflate(s: seq<Byte>, n: nat, steps: nat): Outcome
  {
    if ZlibHeader(ByteAt(s, 0), ByteAt(s, 1)) then Blocks(s, 16, [], n, steps) else Failed
  }
}
