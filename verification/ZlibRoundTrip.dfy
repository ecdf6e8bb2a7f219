/** Inflating what the compressor wrote gives back its input. */
module ZlibRoundTrip {
  import opened Words
  import opened BitStream
  import opened Huffman
  import opened ZBuf
  import opened InflateSpec
  import opened BitWriter
  import opened Deflate
  import opened Compress
  import FixedCode
  import Inflater

  lemma CodeSeen(s: seq<Byte>, p: nat, lens: seq<nat>, i: nat)
    requires i < |lens| && 0 < lens[i] <= MAX_LENGTH && Msb(s, p, lens[i]) == Code(lens, i)
    ensures Symbol(lens, Window(s, p)) == i
  {
    hide Msb, Symbol, Code;
    MsbPrefix(s, p, lens[i], 16);
    SymbolIs(lens, Window(s, p), i);
  }

  /** A canonical code, written, is the symbol the decoder sees. */
  lemma CodeRead(s: seq<Byte>, p: nat, lens: seq<nat>, i: nat)
    requires Decodable(lens) && i < |lens| && lens[i] > 0
    requires BitsAt(s, p, CodeBits(Code(lens, i), lens[i]))
    ensures Symbol(lens, Window(s, p)) == i
  {
    hide Reverse, Lsb, Msb, ToBits, FirstCode, Count, BitsAt, Symbol, Kraft, Code;
    var c, l := Code(lens, i), lens[i];
    CodeFits(lens, i);
    ReverseBound(c, l);
    LsbOfBits(s, p, Reverse(c, l), l);
    ReverseLsb(s, p, l);
    ReverseTwice(c, l);
    CodeSeen(s, p, lens, i);
  }

  lemma SymbolRead(s: seq<Byte>, p: nat, n: nat)
    requires n < 288 && BitsAt(s, p, SymbolBits(n))
    ensures Symbol(FixedLengths(), Window(s, p)) == n && FixedLengths()[n] == |SymbolBits(n)|
  {
    hide CodeBits, FirstCode, Count, BitsAt, Symbol, Kraft, Code, FixedCode.Number, FixedLengths, Msb;
    Inflater.FixedCodesDecodable();
    FixedCode.NumberIsCode(n);
    CodeRead(s, p, FixedLengths(), n);
  }

  lemma DistanceRead(s: seq<Byte>, p: nat, d: nat)
    requires d < 32 && BitsAt(s, p, CodeBits(d, 5))
    ensures Symbol(FixedDistances(), Window(s, p)) == d && FixedDistances()[d] == 5
  {
    hide CodeBits, FirstCode, Count, BitsAt, Symbol, Kraft, Code, FixedDistances, Msb;
    Inflater.FixedCodesDecodable();
    FixedCode.DistanceIsCode(d);
    CodeRead(s, p, FixedDistances(), d);
  }

  /** A length symbol and its extra bits, read back. */
  lemma LengthRead(s: seq<Byte>, p: nat, len: nat) returns (j: nat)
    requires 3 <= len <= 258 && BitsAt(s, p, LengthBits(len))
    ensures j < 29 && Symbol(FixedLengths(), Window(s, p)) == 257 + j
    ensures LengthBase(j) + Lsb(s, p + FixedLengths()[257 + j], LengthExtra(j)) == len
    ensures |LengthBits(len)| == FixedLengths()[257 + j] + LengthExtra(j)
  {
    hide LengthSlot, Window, LengthC, LengthEb, SymbolBits, ToBits, BitsAt, Symbol, Matches, Pow2, FixedCode.Len,
      FixedLengths, Lsb, LengthBase, LengthExtra;
    j := LengthSlot(len);
    LengthRow(j);
    var a, b := SymbolBits(257 + j), ToBits(len - LengthC(j), LengthEb(j));
    BitsAtSplit(s, p, a, b);
    SymbolRead(s, p, 257 + j);
    LsbOfBits(s, p + |a|, len - LengthC(j), LengthEb(j));
  }

  /** A distance code and its extra bits, read back. */
  lemma DistRead(s: seq<Byte>, p: nat, dist: nat) returns (k: nat)
    requires 1 <= dist <= 32767 && BitsAt(s, p, DistBits(dist))
    ensures k < 30 && Symbol(FixedDistances(), Window(s, p)) == k
    ensures FixedDistances()[k] == 5 && DistBase(k) + Lsb(s, p + 5, DistExtra(k)) == dist
    ensures |DistBits(dist)| == 5 + DistExtra(k)
  {
    hide DistSlot, Window, DistC, DistEb, CodeBits, ToBits, BitsAt, Symbol, Matches, Pow2, FixedDistances, Lsb,
      DistBase, DistExtra;
    k := DistSlot(dist);
    DistRow(k);
    var five := 5;
    var c, e := CodeBits(k, five), ToBits(dist - DistC(k), DistEb(k));
    BitsAtSplit(s, p, c, e);
    DistanceRead(s, p, k);
    CodeBitsSize(k, five);
    LsbOfBits(s, p + |c|, dist - DistC(k), DistEb(k));
  }

  /** A whole length/distance pair, read back. */
  lemma PairRead(s: seq<Byte>, p: nat, len: nat, dist: nat) returns (j: nat)
    requires 3 <= len <= 258 && 1 <= dist <= 32767
    requires BitsAt(s, p, LengthBits(len) + DistBits(dist))
    ensures j < 29 && Symbol(FixedLengths(), Window(s, p)) == 257 + j
    ensures ReadPair(s, FixedDistances(), j, p + FixedLengths()[257 + j])
         == Pair(len, dist, p + |LengthBits(len) + DistBits(dist)|)
  {
    hide LengthBits, DistBits, BitsAt, Symbol, Matches, FixedLengths, FixedDistances, Lsb, Window, LengthBase,
      LengthExtra, DistBase, DistExtra;
    BitsAtSplit(s, p, LengthBits(len), DistBits(dist));
    j := LengthRead(s, p, len);
    var k := DistRead(s, p + |LengthBits(len)|, dist);
  }

  lemma CodeBitsSize(code: nat, n: nat)
    ensures |CodeBits(code, n)| == n
  {
  }

  /** One written token is one step of the block. */
  lemma TokenRead(s: seq<Byte>, p: nat, out: seq<Byte>, t: Token, steps: nat)
    requires FitsAfter(t, |out|) && FitsAfter(t, 32768) && BitsAt(s, p, TokenBits(t))
    ensures Block(s, FixedLengths(), FixedDistances(), p, out, steps + 1)
         == Block(s, FixedLengths(), FixedDistances(), p + |TokenBits(t)|, Apply(out, t), steps)
  {
    hide SymbolBits, LengthBits, DistBits, BitsAt, Symbol, Matches, FixedLengths, FixedDistances, ReadPair, Window,
      CopyBack;
    match t
    case Literal(b) =>
      SymbolRead(s, p, b);
    case Match(len, dist) =>
      var _ := PairRead(s, p, len, dist);
  }

  /** Decoding keeps in step with the token list. */
  lemma {:induction false} TokensRead(s: seq<Byte>, p: nat, toks: seq<Token>, steps: nat)
    requires Followable(toks) && Writable(toks) && BitsAt(s, p, TokensBits(toks))
    ensures Block(s, FixedLengths(), FixedDistances(), p, [], |toks| + steps)
         == Block(s, FixedLengths(), FixedDistances(), p + |TokensBits(toks)|, Expand(toks), steps)
    decreases |toks|
  {
    hide TokenBits, Block, BitsAt, FixedLengths, FixedDistances, Apply;
    if toks != [] {
      var pre, t := toks[..|toks| - 1], toks[|toks| - 1];
      BitsAtSplit(s, p, TokensBits(pre), TokenBits(t));
      TokensRead(s, p, pre, steps + 1);
      TokenRead(s, p + |TokensBits(pre)|, Expand(pre), t, steps);
    }
  }

  lemma EndRead(s: seq<Byte>, p: nat, out: seq<Byte>)
    requires BitsAt(s, p, SymbolBits(256))
    ensures Block(s, FixedLengths(), FixedDistances(), p, out, 1) == Done(out, p + 7)
  {
    hide BitsAt, Symbol, Matches, FixedLengths, FixedDistances, ReadPair, Window, CopyBack;
    SymbolRead(s, p, 256);
  }

  /** The header bytes and the block header, read back. */
  lemma PreambleRead(s: seq<Byte>)
    requires BitsAt(s, 0, Preamble())
    ensures ZlibHeader(ByteAt(s, 0), ByteAt(s, 1))
    ensures Lsb(s, 16, 1) == 1 && Lsb(s, 17, 2) == 1
  {
    hide ToBits, BitsAt, Lsb;
    Pow2Values();
    var a, b, c, d := ToBits(0x78, 8), ToBits(0x5e, 8), ToBits(1, 1), ToBits(1, 2);
    BitsAtSplit(s, 0, a + b + c, d);
    BitsAtSplit(s, 0, a + b, c);
    BitsAtSplit(s, 0, a, b);
    LsbOfBits(s, 0, 0x78, 8);
    LsbOfBits(s, 8, 0x5e, 8);
    LsbOfBits(s, 16, 1, 1);
    LsbOfBits(s, 17, 1, 2);
    LsbByte(s, 0);
    LsbByte(s, 1);
  }

  /** Every stream that encodes a token list inflates to the bytes the list stands for. */
  lemma InflateEncoded(out: seq<Byte>, toks: seq<Token>)
    requires Followable(toks) && Encodes(out, toks)
    ensures Inflate(out, 1, |toks| + 1).Done?
    ensures Inflate(out, 1, |toks| + 1).out == Expand(toks)
  {
    hide TokensBits, SymbolBits, BitsAt, Preamble, FixedLengths, FixedDistances, Block, Followable, Expand, ZlibHeader,
      Lsb, ByteAt;
    BitsAtSplit(out, 0, Preamble() + TokensBits(toks), SymbolBits(256));
    BitsAtSplit(out, 0, Preamble(), TokensBits(toks));
    PreambleSize();
    PreambleRead(out);
    TokensRead(out, 19, toks, 1);
    EndRead(out, 19 + |TokensBits(toks)|, Expand(toks));
  }

  /** The compressor followed by the inflater is the identity on every byte string. */
  method CompressThenInflate(data: seq<Byte>, quality: int) returns (ok: bool, back: seq<Byte>)
    ensures ok && back == data
  {
    hide Followable, Encodes, Expand, Inflate;
    var z, toks := ZlibCompress(data, quality);
    InflateEncoded(z, toks);
    ok, back := Inflater.DecodeZlib(z, 1, |toks| + 1);
  }

  // ----- the reserved distances

  /** A pair has length zero exactly when its length symbol is one of the two reserved ones, 286 and 287. */
  lemma ZeroLength(s: seq<Byte>, dlens: seq<nat>, z: nat, at: nat)
    requires z < 31 && |dlens| <= 32 && ReadPair(s, dlens, z, at).Pair?
    ensures ReadPair(s, dlens, z, at).len == 0 <==> 257 + z >= 286
  {
    hide Symbol, Window, DistBase, DistExtra;
  }

  /** A pair has distance zero exactly when its distance symbol is one of the two reserved ones. */
  lemma ZeroDistance(s: seq<Byte>, dlens: seq<nat>, z: nat, at: nat)
    requires z < 31 && |dlens| <= 32 && ReadPair(s, dlens, z, at).Pair?
    ensures ReadPair(s, dlens, z, at).dist == 0 <==> Symbol(dlens, Window(s, at + LengthExtra(z))) >= 30
  {
    hide Symbol, Window, LengthBase, LengthExtra;
  }

  /** A fixed block with a length of three and the reserved distance symbol 30. */
  lemma ReservedDistance(s: seq<Byte>, n: nat, steps: nat)
    requires s == [0x78, 0x01, 0x03, 0x3e] && n > 0 && steps > 0
    ensures Inflate(s, n, steps) == Undefined
  {
    hide Symbol, FixedLengths, FixedDistances, Window, Lsb, Msb, Code, FixedCode.Number, FixedCode.Len;
    ReservedBits(s);
    ReservedSymbols(s);
    ZeroDistance(s, FixedDistances(), 0, 26);
  }

  lemma ReservedBits(s: seq<Byte>)
    requires s == [0x78, 0x01, 0x03, 0x3e]
    ensures ZlibHeader(ByteAt(s, 0), ByteAt(s, 1)) && Lsb(s, 17, 2) == 1
    ensures Msb(s, 19, 7) == 1 && Msb(s, 26, 5) == 30
  {
    ThirdByte(s);
    FourthByte(s);
    hide BitAt;
  }

  lemma ThirdByte(s: seq<Byte>)
    requires |s| == 4 && s[2] == 0x03
    ensures BitAt(s, 17) == 1 && BitAt(s, 18) == BitAt(s, 19) == BitAt(s, 20) == BitAt(s, 21) == 0
    ensures BitAt(s, 22) == BitAt(s, 23) == 0
  {
    hide Pow2;
    Pow2Values();
  }

  lemma FourthByte(s: seq<Byte>)
    requires |s| == 4 && s[3] == 0x3e
    ensures BitAt(s, 24) == 0 && BitAt(s, 25) == BitAt(s, 26) == BitAt(s, 27) == BitAt(s, 28) == BitAt(s, 29) == 1
    ensures BitAt(s, 30) == 0
  {
    hide Pow2;
    Pow2Values();
  }

  lemma ReservedSymbols(s: seq<Byte>)
    requires Msb(s, 19, 7) == 1 && Msb(s, 26, 5) == 30
    ensures Symbol(FixedLengths(), Window(s, 19)) == 257 && FixedLengths()[257] == 7
    ensures Symbol(FixedDistances(), Window(s, 26)) == 30
  {
    hide Symbol, Window, Msb, Code, FixedLengths, FixedDistances;
    FixedCode.NumberIsCode(257);
    CodeSeen(s, 19, FixedLengths(), 257);
    FixedCode.DistanceIsCode(30);
    CodeSeen(s, 26, FixedDistances(), 30);
  }
}
