/** DEFLATE streams as RFC 1951 describes them, whoever wrote them: stored blocks, blocks in the
    fixed code and blocks that bring their own codes, read back. The writer here shares only the
    canonical codes and the bits of a number with the reader. */
module DeflateStream {
  import opened Words
  import opened BitStream
  import opened Slices
  import opened Huffman
  import opened ZBuf
  import opened InflateSpec
  import opened BitWriter
  import opened Deflate
  import opened ZlibRoundTrip
  import opened DeflateHeader
  import Inflater

  // ----- tokens in any pair of codes

  /** A back-reference of section 3.2.5 that stays inside what was written. */
  predicate Reaches(t: Token, have: nat)
  {
    match t
    case Literal(_) => true
    case Match(len, dist) => 3 <= len <= 258 && 1 <= dist <= 32768 && dist <= have
  }

  function Append(out: seq<Byte>, t: Token): (r: seq<Byte>)
    requires Reaches(t, |out|)
  {
    match t
    case Literal(b) => out + [b]
    case Match(len, dist) => CopyBack(out, dist, len)
  }

  function DistRowOf(dist: nat): (j: nat)
    requires 1 <= dist <= 32768
    ensures j < 30 && DistC(j) <= dist
  {
    if dist == 32768 then 29 else DistSlot(dist)
  }

  /** The codes have a code for every symbol of the token. */
  ghost predicate Sayable(lens: seq<nat>, dlens: seq<nat>, t: Token)
    requires Reaches(t, 32768)
  {
    match t
    case Literal(b) => b < |lens| && lens[b] > 0
    case Match(len, dist) =>
      && 257 + LengthSlot(len) < |lens| && lens[257 + LengthSlot(len)] > 0
      && DistRowOf(dist) < |dlens| && dlens[DistRowOf(dist)] > 0
  }

  /** The symbol of a length and its extra bits. */
  ghost function LengthPart(lens: seq<nat>, len: nat): seq<Bit>
    requires 3 <= len <= 258 && 257 + LengthSlot(len) < |lens|
  {
    var j := LengthSlot(len);
    Said(lens, 257 + j) + ToBits(len - LengthC(j), LengthEb(j))
  }

  ghost function DistPart(dlens: seq<nat>, dist: nat): seq<Bit>
    requires 1 <= dist <= 32768 && DistRowOf(dist) < |dlens|
  {
    var k := DistRowOf(dist);
    Said(dlens, k) + ToBits(dist - DistC(k), DistEb(k))
  }

  ghost function TokenSaid(lens: seq<nat>, dlens: seq<nat>, t: Token): seq<Bit>
    requires Reaches(t, 32768) && Sayable(lens, dlens, t)
  {
    match t
    case Literal(b) => Said(lens, b)
    case Match(len, dist) => LengthPart(lens, len) + DistPart(dlens, dist)
  }

  /** Two codes as a block may use them. */
  ghost predicate Usable(lens: seq<nat>, dlens: seq<nat>)
  {
    && 257 <= |lens| <= 288 && 1 <= |dlens| <= 32 && Decodable(lens) && Decodable(dlens)
    && lens[256] > 0
  }

  lemma LengthHeard(s: seq<Byte>, p: nat, lens: seq<nat>, len: nat, j: nat)
    requires 3 <= len <= 258 && j == LengthSlot(len) && Decodable(lens) && 257 + j < |lens| && lens[257 + j] > 0
    requires BitsAt(s, p, LengthPart(lens, len))
    ensures Symbol(lens, Window(s, p)) == 257 + j && |LengthPart(lens, len)| == lens[257 + j] + LengthExtra(j)
    ensures LengthBase(j) + Lsb(s, p + lens[257 + j], LengthExtra(j)) == len
  {
    hide LengthSlot, Window, LengthC, LengthEb, CodeBits, ToBits, BitsAt, Symbol, Pow2, Lsb, LengthBase, LengthExtra,
      Code, Kraft;
    LengthRow(j);
    BitsAtSplit(s, p, Said(lens, 257 + j), ToBits(len - LengthC(j), LengthEb(j)));
    CodeRead(s, p, lens, 257 + j);
    LsbOfBits(s, p + lens[257 + j], len - LengthC(j), LengthEb(j));
  }

  /** The pair behind a length symbol. */
  lemma DistHeard(s: seq<Byte>, at: nat, dlens: seq<nat>, j: nat, len: nat, dist: nat)
    requires j < 29 && LengthBase(j) + Lsb(s, at, LengthExtra(j)) == len
    requires 1 <= dist <= 32768 && Decodable(dlens) && DistRowOf(dist) < |dlens| <= 32 && dlens[DistRowOf(dist)] > 0
    requires BitsAt(s, at + LengthExtra(j), DistPart(dlens, dist))
    ensures ReadPair(s, dlens, j, at) == Pair(len, dist, at + LengthExtra(j) + |DistPart(dlens, dist)|)
  {
    hide Window, CodeBits, ToBits, BitsAt, Symbol, Lsb, Code, Kraft, DistRowOf, DistC, DistEb, DistBase, DistExtra,
      Pow2, LengthBase, LengthExtra;
    var p, k := at + LengthExtra(j), DistRowOf(dist);
    DistFits(dist);
    BitsAtSplit(s, p, Said(dlens, k), ToBits(dist - DistC(k), DistEb(k)));
    CodeRead(s, p, dlens, k);
    LsbOfBits(s, p + dlens[k], dist - DistC(k), DistEb(k));
  }

  lemma DistFits(dist: nat)
    requires 1 <= dist <= 32768
    ensures var k := DistRowOf(dist);
            dist - DistC(k) < Pow2(DistEb(k)) && DistBase(k) == DistC(k) && DistExtra(k) == DistEb(k)
  {
    hide Pow2, DistSlot, DistC, DistEb, DistBase, DistExtra;
    DistRow(DistRowOf(dist));
    if dist == 32768 {
      LastRow();
    }
  }

  lemma LastRow()
    ensures DistC(29) == 24577 && DistEb(29) == 13 && Pow2(13) == 8192
  {
    Pow2Values();
  }

  /** One token is one step of the block. */
  lemma TokenHeard(s: seq<Byte>, p: nat, lens: seq<nat>, dlens: seq<nat>, out: seq<Byte>, t: Token, steps: nat)
    requires Usable(lens, dlens) && Reaches(t, |out|) && Reaches(t, 32768) && Sayable(lens, dlens, t)
    requires BitsAt(s, p, TokenSaid(lens, dlens, t))
    ensures Block(s, lens, dlens, p, out, steps + 1)
         == Block(s, lens, dlens, p + |TokenSaid(lens, dlens, t)|, Append(out, t), steps)
  {
    hide BitsAt, Block, CopyBack, Sayable, TokenSaid, Usable;
    match t
    case Literal(b) => LiteralHeard(s, p, lens, dlens, out, b, steps);
    case Match(len, dist) => MatchHeard(s, p, lens, dlens, out, len, dist, steps);
  }

  lemma LiteralHeard(s: seq<Byte>, p: nat, lens: seq<nat>, dlens: seq<nat>, out: seq<Byte>, b: Byte, steps: nat)
    requires Usable(lens, dlens) && Sayable(lens, dlens, Literal(b))
    requires BitsAt(s, p, TokenSaid(lens, dlens, Literal(b)))
    ensures Block(s, lens, dlens, p, out, steps + 1)
         == Block(s, lens, dlens, p + |TokenSaid(lens, dlens, Literal(b))|, out + [b], steps)
  {
    hide BitsAt, Block, Symbol, Window, Kraft, Code, CodeBits;
    CodeRead(s, p, lens, b);
    LiteralStep(s, p, lens, dlens, out, b, steps);
  }

  lemma MatchHeard(s: seq<Byte>, p: nat, lens: seq<nat>, dlens: seq<nat>, out: seq<Byte>, len: nat, dist: nat,
                   steps: nat)
    requires Usable(lens, dlens) && Reaches(Match(len, dist), 32768) && Sayable(lens, dlens, Match(len, dist))
    requires 1 <= dist <= |out| && BitsAt(s, p, TokenSaid(lens, dlens, Match(len, dist)))
    ensures Block(s, lens, dlens, p, out, steps + 1)
         == Block(s, lens, dlens, p + |TokenSaid(lens, dlens, Match(len, dist))|, CopyBack(out, dist, len), steps)
  {
    hide *;
    MatchParts(lens, dlens, len, dist);
    var j := LengthSlot(len);
    BitsAtSplit(s, p, LengthPart(lens, len), DistPart(dlens, dist));
    LengthHeard(s, p, lens, len, j);
    DistHeard(s, p + lens[257 + j], dlens, j, len, dist);
    MatchStep(s, p, lens, dlens, out, len, dist, j, p + |LengthPart(lens, len)| + |DistPart(dlens, dist)|, steps);
  }

  lemma MatchParts(lens: seq<nat>, dlens: seq<nat>, len: nat, dist: nat)
    requires Usable(lens, dlens) && Reaches(Match(len, dist), 32768) && Sayable(lens, dlens, Match(len, dist))
    ensures 3 <= len <= 258 && 1 <= dist <= 32768 && |lens| <= 288 && |dlens| <= 32
    ensures Decodable(lens) && Decodable(dlens)
    ensures 257 + LengthSlot(len) < |lens| && lens[257 + LengthSlot(len)] > 0
    ensures DistRowOf(dist) < |dlens| && dlens[DistRowOf(dist)] > 0
    ensures TokenSaid(lens, dlens, Match(len, dist)) == LengthPart(lens, len) + DistPart(dlens, dist)
  {
    hide LengthSlot, DistRowOf, LengthPart, DistPart, Kraft;
  }

  lemma LiteralStep(s: seq<Byte>, p: nat, lens: seq<nat>, dlens: seq<nat>, out: seq<Byte>, b: Byte, steps: nat)
    requires |lens| <= 288 && |dlens| <= 32 && Symbol(lens, Window(s, p)) == b
    ensures Block(s, lens, dlens, p, out, steps + 1) == Block(s, lens, dlens, p + lens[b], out + [b], steps)
  {
    hide Symbol, Window, CopyBack, ReadPair;
  }

  lemma MatchStep(s: seq<Byte>, p: nat, lens: seq<nat>, dlens: seq<nat>, out: seq<Byte>, len: nat, dist: nat, j: nat,
                  end: nat, steps: nat)
    requires |lens| <= 288 && |dlens| <= 32 && j < 29 && 1 <= dist <= |out|
    requires Symbol(lens, Window(s, p)) == 257 + j && ReadPair(s, dlens, j, p + lens[257 + j]) == Pair(len, dist, end)
    ensures Block(s, lens, dlens, p, out, steps + 1) == Block(s, lens, dlens, end, CopyBack(out, dist, len), steps)
  {
    hide Symbol, Window, CopyBack, ReadPair;
  }

  // ----- the rows of section 3.2.5 by rule

  /** Four lengths to a number of extra bits, from eleven on; 258 stands alone. */
  ghost predicate LengthByRule(j: nat)
    requires j < 29
  {
    var e := if j < 8 || j == 28 then 0 else j / 4 - 1;
    && LengthExtra(j) == e
    && LengthBase(j) == if j == 28 then 258 else if j < 8 then 3 + j else 3 + (4 + j % 4) * Pow2(e)
  }

  /** Two distances to a number of extra bits, from five on. */
  ghost predicate DistByRule(k: nat)
    requires k < 30
  {
    var e := if k < 4 then 0 else k / 2 - 1;
    DistExtra(k) == e && DistBase(k) == if k < 4 then 1 + k else 1 + (2 + k % 2) * Pow2(e)
  }

  lemma RowsByRule(j: nat, k: nat)
    requires j < 29 && k < 30
    ensures LengthByRule(j) && DistByRule(k)
  {
    hide LengthByRule, DistByRule;
    if j < 15 {
      ShortLengths(j);
    } else {
      LongLengths(j);
    }
    if k < 15 {
      NearDistances(k);
    } else {
      FarDistances(k);
    }
  }

  lemma ShortLengths(j: nat)
    requires j < 15
    ensures LengthByRule(j)
  {
    hide Pow2;
    Pow2Values();
  }

  lemma LongLengths(j: nat)
    requires 15 <= j < 29
    ensures LengthByRule(j)
  {
    hide Pow2;
    Pow2Values();
  }

  lemma NearDistances(k: nat)
    requires k < 15
    ensures DistByRule(k)
  {
    hide Pow2;
    Pow2Values();
  }

  lemma FarDistances(k: nat)
    requires 15 <= k < 30
    ensures DistByRule(k)
  {
    hide Pow2;
    Pow2Values();
  }

  // ----- a block of tokens

  ghost predicate Tellable(lens: seq<nat>, dlens: seq<nat>, out: seq<Byte>, toks: seq<Token>)
    decreases |toks|
  {
    toks != [] ==>
      && Reaches(toks[0], |out|) && Reaches(toks[0], 32768) && Sayable(lens, dlens, toks[0])
      && Tellable(lens, dlens, Append(out, toks[0]), toks[1..])
  }

  /** What tokens make of the bytes before them. */
  ghost function Told(lens: seq<nat>, dlens: seq<nat>, out: seq<Byte>, toks: seq<Token>): seq<Byte>
    requires Tellable(lens, dlens, out, toks)
    decreases |toks|
  {
    if toks == [] then out else Told(lens, dlens, Append(out, toks[0]), toks[1..])
  }

  /** The tokens and the end-of-block symbol. */
  ghost function BlockSaid(lens: seq<nat>, dlens: seq<nat>, out: seq<Byte>, toks: seq<Token>): seq<Bit>
    requires |lens| > 256 && Tellable(lens, dlens, out, toks)
    decreases |toks|
  {
    if toks == [] then Said(lens, 256)
    else TokenSaid(lens, dlens, toks[0]) + BlockSaid(lens, dlens, Append(out, toks[0]), toks[1..])
  }

  lemma {:induction false} BlockHeard(s: seq<Byte>, p: nat, lens: seq<nat>, dlens: seq<nat>, out: seq<Byte>,
                                      toks: seq<Token>, steps: nat)
    requires Usable(lens, dlens) && Tellable(lens, dlens, out, toks) && steps > |toks|
    requires BitsAt(s, p, BlockSaid(lens, dlens, out, toks))
    ensures Block(s, lens, dlens, p, out, steps)
         == Done(Told(lens, dlens, out, toks), p + |BlockSaid(lens, dlens, out, toks)|)
    decreases |toks|
  {
    hide BitsAt, Block, Symbol, Window, Kraft, Code, CodeBits, TokenSaid, Append, Sayable;
    if toks == [] {
      CodeRead(s, p, lens, 256);
      EndStep(s, p, lens, dlens, out, steps - 1);
    } else {
      var t := toks[0];
      BitsAtSplit(s, p, TokenSaid(lens, dlens, t), BlockSaid(lens, dlens, Append(out, t), toks[1..]));
      TokenHeard(s, p, lens, dlens, out, t, steps - 1);
      BlockHeard(s, p + |TokenSaid(lens, dlens, t)|, lens, dlens, Append(out, t), toks[1..], steps - 1);
    }
  }

  lemma EndStep(s: seq<Byte>, p: nat, lens: seq<nat>, dlens: seq<nat>, out: seq<Byte>, steps: nat)
    requires |lens| <= 288 && |dlens| <= 32 && Symbol(lens, Window(s, p)) == 256
    ensures Block(s, lens, dlens, p, out, steps + 1) == Done(out, p + lens[256])
  {
    hide Symbol, Window, CopyBack, ReadPair;
  }

  // ----- whole streams

  datatype Piece = Verbatim(data: seq<Byte>) | InFixed(toks: seq<Token>) | InOwn(codes: Codes, toks: seq<Token>)

  function Kind(c: Piece): nat
  {
    match c case Verbatim(_) => 0 case InFixed(_) => 1 case InOwn(_, _) => 2
  }

  /** The block can stand behind `out`. */
  ghost predicate Follows(out: seq<Byte>, c: Piece)
  {
    match c
    case Verbatim(data) => |data| < 65536
    case InFixed(toks) => Tellable(FixedLengths(), FixedDistances(), out, toks)
    case InOwn(codes, toks) =>
      Proper(codes) && codes.lens[256] > 0 && Tellable(codes.lens, codes.dlens, out, toks)
  }

  ghost function After(out: seq<Byte>, c: Piece): seq<Byte>
    requires Follows(out, c)
  {
    match c
    case Verbatim(data) => out + data
    case InFixed(toks) => Told(FixedLengths(), FixedDistances(), out, toks)
    case InOwn(codes, toks) => Told(codes.lens, codes.dlens, out, toks)
  }

  /** LEN, its complement NLEN, both low byte first, and the bytes. */
  function StoredSaid(data: seq<Byte>): seq<Byte>
    requires |data| < 65536
  {
    [|data| % 256, |data| / 256, 255 - |data| % 256, 255 - |data| / 256] + data
  }

  /** What follows the three bits of the block header; a stored block starts at the next byte. */
  ghost predicate BodyAt(s: seq<Byte>, at: nat, out: seq<Byte>, c: Piece)
    requires Follows(out, c)
  {
    match c
    case Verbatim(data) => Has(s, (at + 7) / 8, StoredSaid(data))
    case InFixed(toks) => BitsAt(s, at, BlockSaid(FixedLengths(), FixedDistances(), out, toks))
    case InOwn(codes, toks) => BitsAt(s, at, HeaderSaid(codes) + BlockSaid(codes.lens, codes.dlens, out, toks))
  }

  ghost function BodyEnd(at: nat, out: seq<Byte>, c: Piece): nat
    requires Follows(out, c)
  {
    match c
    case Verbatim(data) => 8 * ((at + 7) / 8 + 4 + |data|)
    case InFixed(toks) => at + |BlockSaid(FixedLengths(), FixedDistances(), out, toks)|
    case InOwn(codes, toks) => at + |HeaderSaid(codes) + BlockSaid(codes.lens, codes.dlens, out, toks)|
  }

  lemma StoredHeard(s: seq<Byte>, at: nat, out: seq<Byte>, data: seq<Byte>)
    requires |data| < 65536 && Has(s, (at + 7) / 8, StoredSaid(data))
    ensures Stored(s, at, out) == Done(out + data, 8 * ((at + 7) / 8 + 4 + |data|))
  {
    var q, said := (at + 7) / 8, StoredSaid(data);
    var t := s[q..q + |said|];
    assert t[0] == s[q] && t[1] == s[q + 1] && t[2] == s[q + 2] && t[3] == s[q + 3];
    assert t[4..] == s[q + 4..q + 4 + |data|] && said[4..] == data;
  }

  lemma FixedUsable()
    ensures Usable(FixedLengths(), FixedDistances())
  {
    hide Kraft;
    Inflater.FixedCodesDecodable();
  }

  function Steps(c: Piece): nat
  {
    if c.Verbatim? then 0 else |c.toks| + 1
  }

  lemma BodyHeard(s: seq<Byte>, at: nat, out: seq<Byte>, c: Piece, steps: nat)
    requires Follows(out, c) && BodyAt(s, at, out, c) && Steps(c) <= steps
    ensures OneBlock(s, Kind(c), at, out, steps) == Done(After(out, c), BodyEnd(at, out, c))
  {
    hide BitsAt, Block, BlockSaid, HeaderSaid, Tellable, Told, Stored, StoredSaid, Has, FixedLengths, FixedDistances,
      Kraft,
      DynamicHeader, Spells, PlaceOf;
    match c
    case Verbatim(data) => StoredHeard(s, at, out, data);
    case InFixed(toks) =>
      FixedUsable();
      BlockHeard(s, at, FixedLengths(), FixedDistances(), out, toks, steps);
    case InOwn(codes, toks) =>
      BitsAtSplit(s, at, HeaderSaid(codes), BlockSaid(codes.lens, codes.dlens, out, toks));
      HeaderHeard(s, at, codes);
      BlockHeard(s, at + |HeaderSaid(codes)|, codes.lens, codes.dlens, out, toks, steps);
  }

  /** Blocks one after the other, the last one marked as final. */
  ghost predicate StreamAt(s: seq<Byte>, at: nat, out: seq<Byte>, cs: seq<Piece>)
    decreases |cs|
  {
    cs != []
    && Follows(out, cs[0])
    && BitsAt(s, at, ToBits(if |cs| == 1 then 1 else 0, 1) + ToBits(Kind(cs[0]), 2))
    && BodyAt(s, at + 3, out, cs[0])
    && (|cs| > 1 ==> StreamAt(s, BodyEnd(at + 3, out, cs[0]), After(out, cs[0]), cs[1..]))
  }

  ghost function Whole(s: seq<Byte>, at: nat, out: seq<Byte>, cs: seq<Piece>): seq<Byte>
    requires StreamAt(s, at, out, cs)
    decreases |cs|
  {
    if |cs| == 1 then After(out, cs[0])
    else Whole(s, BodyEnd(at + 3, out, cs[0]), After(out, cs[0]), cs[1..])
  }

  ghost predicate StepsFit(cs: seq<Piece>, steps: nat)
  {
    forall i :: 0 <= i < |cs| ==> Steps(cs[i]) <= steps
  }

  lemma {:induction false} StreamHeard(s: seq<Byte>, at: nat, out: seq<Byte>, cs: seq<Piece>, n: nat, steps: nat)
    requires StreamAt(s, at, out, cs) && |cs| <= n && StepsFit(cs, steps)
    ensures Blocks(s, at, out, n, steps).Done? && Blocks(s, at, out, n, steps).out == Whole(s, at, out, cs)
    decreases |cs|
  {
    hide BitsAt, BodyAt, Follows, After, BodyEnd, OneBlock, Lsb, ToBits, Pow2;
    var c := cs[0];
    var last := if |cs| == 1 then 1 else 0;
    Pow2Values();
    BitsAtSplit(s, at, ToBits(last, 1), ToBits(Kind(c), 2));
    LsbOfBits(s, at, last, 1);
    LsbOfBits(s, at + 1, Kind(c), 2);
    BodyHeard(s, at + 3, out, c, steps);
    if |cs| > 1 {
      assert forall i :: 0 <= i < |cs[1..]| ==> cs[1..][i] == cs[i + 1];
      StreamHeard(s, BodyEnd(at + 3, out, c), After(out, c), cs[1..], n - 1, steps);
    }
  }

  function MostSteps(cs: seq<Piece>): nat
  {
    if cs == [] then 0
    else
      var m := MostSteps(cs[1..]);
      if Steps(cs[0]) > m then Steps(cs[0]) else m
  }

  lemma {:induction false} MostFit(cs: seq<Piece>)
    ensures StepsFit(cs, MostSteps(cs))
  {
    if cs != [] {
      MostFit(cs[1..]);
      forall i | 0 <= i < |cs| ensures Steps(cs[i]) <= MostSteps(cs) {
        if i > 0 {
          assert cs[1..][i - 1] == cs[i];
        }
      }
    }
  }

  /** The two bytes of section 2.2 of RFC 1950: method 8, no dictionary, a multiple of 31. */
  predicate HeaderBytes(cmf: nat, flg: nat)
  {
    cmf % 16 == 8 && flg / 32 % 2 == 0 && (256 * cmf + flg) % 31 == 0
  }

  /** The reader asks exactly that, and fails on any other two bytes. */
  lemma HeaderBytesIff(s: seq<Byte>, n: nat, steps: nat)
    ensures ZlibHeader(ByteAt(s, 0), ByteAt(s, 1)) <==> HeaderBytes(ByteAt(s, 0), ByteAt(s, 1))
    ensures !HeaderBytes(ByteAt(s, 0), ByteAt(s, 1)) ==> Inflate(s, n, steps) == Failed
  {
    hide Blocks;
  }

  /** The inflater reads every stream of stored, fixed and dynamic blocks as what it stands for. */
  method InflateStream(s: seq<Byte>, ghost cs: seq<Piece>) returns (ok: bool, out: seq<Byte>)
    requires |s| >= 2 && HeaderBytes(s[0], s[1]) && StreamAt(s, 16, [], cs)
    ensures ok && out == Whole(s, 16, [], cs)
  {
    hide Blocks, StreamAt, Whole, MostSteps;
    MostFit(cs);
    StreamHeard(s, 16, [], cs, |cs|, MostSteps(cs));
    ok, out := Inflater.DecodeZlib(s, |cs|, MostSteps(cs));
  }
}
