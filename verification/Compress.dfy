/** `stbi_zlib_compress`: hash chains, lazy matching and the fixed Huffman code. */
module Compress {
  import opened Words
  import opened BitStream
  import opened BitWriter
  import opened InflateSpec
  import opened Deflate
  import FixedCode
  import Adler

  /** `stbiw__zlib_bitrev`. */
  method BitRev(code: nat, codebits: nat) returns (res: nat)
    ensures res == Reverse(code, codebits)
  {
    hide Reverse, Or;
    res := 0;
    var c: nat, n: nat := code, codebits;
    ReverseStep(code, 1);
    while n > 0
      invariant n <= codebits
      invariant res * Pow2(n) + Reverse(c, n) == Reverse(code, codebits)
      decreases n
    {
      ReverseStep(c, n);
      MulPow2Step(res, n);
      ShiftIn(res, c % 2, Pow2(n - 1));
      OrLow(res, c % 2);
      res := Or(c % 2, res * 2);
      c := c / 2;
      n := n - 1;
    }
    ReverseStep(c, 1);
  }

  lemma OrLow(res: nat, b: Bit)
    ensures Or(b, res * 2) == b + 2 * res
  {
    hide Or;
    Pow2Values();
    OrShifted(b, res, 1);
  }

  lemma ShiftIn(res: nat, b: nat, p: nat)
    ensures (b + 2 * res) * p == b * p + 2 * (res * p)
  {
  }

  const ZHASH := 16384

  /** `stbiw__zhash` and the mask applied to it. */
  function ZHash(b0: Byte, b1: Byte, b2: Byte): (h: nat)
    ensures h < ZHASH
  {
    var h0 := (b0 as nat) + (b1 as nat) * 256 + (b2 as nat) * 65536;
    var h1 := Xor(h0, Shl32(h0, 8));
    var h2 := (h1 + h1 / 32) % WORD;
    var h3 := Xor(h2, Shl32(h2, 16));
    var h4 := (h3 + h3 / 131072) % WORD;
    var h5 := Xor(h4, Shl32(h4, 0x200_0000));
    var h6 := (h5 + h5 / 64) % WORD;
    h6 % ZHASH
  }

  const WORD := 0x1_0000_0000

  /** A 32-bit left shift, the factor being the power of two. */
  function Shl32(v: nat, factor: nat): nat
  {
    v * factor % WORD
  }

  /** `stbiw__zlib_countm`: how far the bytes at `a` and `b` agree, up to 258. */
  method CountMatch(data: seq<Byte>, a: nat, b: nat, limit: nat) returns (i: nat)
    requires a < b && b + limit <= |data|
    ensures i <= limit && i <= 258 && Repeats(data, b, b - a, i)
    ensures i < limit && i < 258 ==> data[a + i] != data[b + i]
  {
    i := 0;
    while i < limit && i < 258
      invariant i <= limit && i <= 258 && Repeats(data, b, b - a, i)
    {
      if data[a + i] != data[b + i] {
        break;
      }
      i := i + 1;
    }
  }

  /** Chains only hold positions already passed. */
  ghost predicate Below(hlist: seq<nat>, i: nat)
  {
    forall k :: 0 <= k < |hlist| ==> hlist[k] < i
  }

  /** The chain's longest match of at least three bytes inside the window, last one winning ties. */
  method FindMatch(data: seq<Byte>, i: nat, hlist: seq<nat>) returns (best: nat, bestloc: int)
    requires i + 3 < |data| && Below(hlist, i)
    ensures bestloc >= 0 ==> bestloc in hlist && IsMatch(data, i, bestloc, best)
    ensures best >= 3 && !Longer(data, i, hlist, if bestloc >= 0 then best else 2)
  {
    best, bestloc := 3, -1;
    for j := 0 to |hlist|
      invariant bestloc >= 0 ==> bestloc in hlist && IsMatch(data, i, bestloc, best)
      invariant bestloc < 0 ==> best == 3
      invariant best >= 3 && !Longer(data, i, hlist[..j], if bestloc >= 0 then best else 2)
    {
      hide Repeats;
      assert hlist[..j + 1] == hlist[..j] + [hlist[j]];
      if hlist[j] > i - 32768 {
        var d := CountMatch(data, hlist[j], i, |data| - i);
        forall len: nat | IsMatch(data, i, hlist[j], len) ensures len <= d {
          NoLonger(data, i, hlist[j], d, len);
        }
        if d >= best {
          best, bestloc := d, hlist[j];
        }
      }
    }
    assert hlist[..|hlist|] == hlist;
  }

  /** Some position of the chain starts a match of more than `best` bytes. */
  ghost predicate Longer(data: seq<Byte>, i: nat, hlist: seq<nat>, best: nat)
  {
    exists loc: nat, len: nat :: loc in hlist && len > best && IsMatch(data, i, loc, len)
  }

  /** Where counting stopped, no longer match starts. */
  lemma NoLonger(data: seq<Byte>, i: nat, loc: nat, d: nat, len: nat)
    requires IsMatch(data, i, loc, len) && i + d <= |data|
    requires d < |data| - i && d < 258 ==> data[loc + d] != data[i + d]
    ensures len <= d
  {
    hide Repeats;
    RepeatsAt(data, i, i - loc, len, d);
  }

  lemma RepeatsAt(data: seq<Byte>, i: nat, dist: nat, len: nat, k: nat)
    requires Repeats(data, i, dist, len)
    ensures i + len <= |data| && (k < len ==> dist <= i && data[i + k] == data[i + k - dist])
  {
  }

  /** A back-reference the format can express, to bytes that really repeat. */
  ghost predicate IsMatch(data: seq<Byte>, i: nat, loc: nat, len: nat)
  {
    loc < i && i - loc <= 32767 && 3 <= len <= 258 && Repeats(data, i, i - loc, len)
  }

  /** Lazy matching: does the chain hold a longer match for position `i`? */
  method HasLonger(data: seq<Byte>, i: nat, hlist: seq<nat>, best: nat) returns (longer: bool)
    requires i < |data| && best >= 3 && Below(hlist, i)
    ensures longer <==> Longer(data, i, hlist, best)
  {
    longer := false;
    for j := 0 to |hlist|
      invariant !Longer(data, i, hlist[..j], best)
    {
      hide Repeats;
      assert hlist[..j + 1] == hlist[..j] + [hlist[j]];
      if hlist[j] > i - 32768 {
        var e := CountMatch(data, hlist[j], i, |data| - i);
        forall len: nat | IsMatch(data, i, hlist[j], len) ensures len <= e {
          NoLonger(data, i, hlist[j], e, len);
        }
        if e > best {
          assert hlist[j] in hlist && IsMatch(data, i, hlist[j], e);
          return true;
        }
      }
    }
    assert hlist[..|hlist|] == hlist;
  }

  /** `stbiw__zlib_huff`. */
  method EmitSymbol(w: Writer, n: nat)
    requires w.Valid() && n < 288
    modifies w
    ensures w.Valid() && w.bits == old(w.bits) + SymbolBits(n)
  {
    hide Reverse, ToBits;
    var len := FixedCode.Len(n);
    var r := BitRev(FixedCode.Number(n), len);
    ReverseBound(FixedCode.Number(n), len);
    w.Add(r, len);
  }

  /** The length and distance of a match, with their extra bits. */
  method EmitMatch(w: Writer, best: nat, d: nat)
    requires w.Valid() && 3 <= best <= 258 && 1 <= d <= 32767
    modifies w
    ensures w.Valid() && w.bits == old(w.bits) + TokenBits(Match(best, d))
  {
    hide LengthBits, DistBits;
    EmitLength(w, best);
    EmitDistance(w, d);
    assert old(w.bits) + LengthBits(best) + DistBits(d) == old(w.bits) + (LengthBits(best) + DistBits(d));
  }

  /** The table search `for (j = 0; v > table[j + 1] - 1; ++j)`. */
  method FindRow(table: seq<int>, v: int) returns (j: nat)
    requires 2 <= |table| && table[0] <= v < table[|table| - 1]
    ensures j == RowOf(table, v, 0)
  {
    j := 0;
    while v > table[j + 1] - 1
      invariant j + 1 < |table| && table[j] <= v && RowOf(table, v, j) == RowOf(table, v, 0)
      decreases |table| - j
    {
      j := j + 1;
    }
  }

  method FindLengthSlot(best: nat) returns (j: nat)
    requires 3 <= best <= 258
    ensures j == LengthSlot(best)
  {
    hide RowOf;
    j := FindRow(LENGTHC, best);
  }

  method FindDistSlot(d: nat) returns (j: nat)
    requires 1 <= d <= 32767
    ensures j == DistSlot(d)
  {
    hide RowOf;
    j := FindRow(DISTC, d);
  }

  method EmitLength(w: Writer, best: nat)
    requires w.Valid() && 3 <= best <= 258
    modifies w
    ensures w.Valid() && w.bits == old(w.bits) + LengthBits(best)
  {
    hide LengthC, LengthEb, SymbolBits, ToBits, LengthSlot, CodeBits, Pow2, FixedCode.Len;
    var j := FindLengthSlot(best);
    LengthRow(j);
    EmitSymbol(w, j + 257);
    if LengthEb(j) != 0 {
      w.Add(best - LengthC(j), LengthEb(j));
    } else {
      NoBits(best - LengthC(j), LengthEb(j));
    }
    ghost var s, e := SymbolBits(257 + j), ToBits(best - LengthC(j), LengthEb(j));
    assert old(w.bits) + s + e == old(w.bits) + (s + e);
    assert LengthBits(best) == s + e;
  }

  method EmitDistance(w: Writer, d: nat)
    requires w.Valid() && 1 <= d <= 32767
    modifies w
    ensures w.Valid() && w.bits == old(w.bits) + DistBits(d)
  {
    hide DistC, DistEb, ToBits, DistSlot, Reverse, Pow2;
    var j := FindDistSlot(d);
    DistRow(j);
    var five := 5;
    var r := BitRev(j, five);
    ReverseBound(j, five);
    w.Add(r, five);
    if DistEb(j) != 0 {
      w.Add(d - DistC(j), DistEb(j));
    } else {
      NoBits(d - DistC(j), DistEb(j));
    }
    ghost var s, e := CodeBits(j, five), ToBits(d - DistC(j), DistEb(j));
    assert old(w.bits) + s + e == old(w.bits) + (s + e);
    assert DistBits(d) == s + e;
  }

  lemma NoBits(v: nat, n: nat)
    requires n == 0
    ensures ToBits(v, n) == []
  {
  }

  // ----- the main loop

  /** The bits before the first token: header bytes 0x78 0x5e, BFINAL = 1, BTYPE = 1. */
  function Preamble(): seq<Bit>
  {
    ToBits(0x78, 8) + ToBits(0x5e, 8) + ToBits(1, 1) + ToBits(1, 2)
  }

  /** The tokens so far stand for the first `i` bytes, and their bits are what was written. */
  ghost predicate Progress(w: Writer, data: seq<Byte>, toks: seq<Token>, i: nat)
    reads w
  {
    && w.Valid() && i <= |data| && Followable(toks) && Writable(toks) && Expand(toks) == data[..i]
    && w.bits == Preamble() + TokensBits(toks)
  }

  lemma Extend(data: seq<Byte>, toks: seq<Token>, i: nat, t: Token, k: nat)
    requires i <= k <= |data| && Followable(toks) && Writable(toks) && Expand(toks) == data[..i]
    requires FitsAfter(t, i) && Apply(data[..i], t) == data[..k]
    ensures Followable(toks + [t]) && Writable(toks + [t]) && Expand(toks + [t]) == data[..k]
    ensures TokensBits(toks + [t]) == TokensBits(toks) + TokenBits(t)
  {
    hide Apply, TokenBits;
    assert (toks + [t])[..|toks|] == toks;
  }

  method EmitLiteral(w: Writer, data: seq<Byte>, ghost toks: seq<Token>, i: nat) returns (ghost more: seq<Token>)
    requires i < |data| && Progress(w, data, toks, i)
    modifies w
    ensures Progress(w, data, more, i + 1)
  {
    hide SymbolBits, Expand, Followable, TokensBits, Preamble;
    EmitSymbol(w, data[i]);
    more := toks + [Literal(data[i])];
    assert data[..i] + [data[i]] == data[..i + 1];
    Extend(data, toks, i, Literal(data[i]), i + 1);
    assert Preamble() + TokensBits(toks) + TokenBits(Literal(data[i])) == Preamble() + TokensBits(more);
  }

  method EmitReference(w: Writer, data: seq<Byte>, ghost toks: seq<Token>, i: nat, loc: nat, best: nat)
    returns (ghost more: seq<Token>)
    requires Progress(w, data, toks, i) && IsMatch(data, i, loc, best)
    modifies w
    ensures Progress(w, data, more, i + best)
  {
    hide TokenBits, Expand, Followable, TokensBits, Preamble, CopyBack;
    var d := i - loc;
    assert d <= 32767 && best <= 258;
    EmitMatch(w, best, d);
    ghost var t := Match(best, d);
    more := toks + [t];
    CopyRepeats(data, i, d, best);
    Extend(data, toks, i, t, i + best);
    assert Preamble() + TokensBits(toks) + TokenBits(t) == Preamble() + TokensBits(more);
  }

  /** Every chain holds only positions below `i`. */
  ghost predicate ChainsBelow(table: array<seq<nat>>, i: nat)
    reads table
  {
    table.Length == ZHASH && forall h :: 0 <= h < ZHASH ==> Below(table[h], i)
  }

  /** A chain with the current position: the older half of a full chain is dropped first. */
  function Recorded(chain: seq<nat>, quality: nat, i: nat): (r: seq<nat>)
    requires quality > 0
    ensures |chain| <= 2 * quality ==> |r| <= 2 * quality
    ensures i in r
  {
    (if |chain| == 2 * quality then chain[quality..] else chain) + [i]
  }

  /** Drop the older half of a full chain, then append the current position. */
  method Record(table: array<seq<nat>>, h: nat, quality: nat, i: nat)
    requires ChainsBelow(table, i) && h < ZHASH && quality >= 5
    modifies table
    ensures ChainsBelow(table, i + 1)
    ensures table[h] == Recorded(old(table[h]), quality, i)
    ensures forall k :: 0 <= k < ZHASH && k != h ==> table[k] == old(table[k])
  {
    if |table[h]| == 2 * quality {
      table[h] := table[h][quality..];
    }
    table[h] := table[h] + [i];
  }

  function Hash3(data: seq<Byte>, i: nat): (h: nat)
    requires i + 2 < |data|
    ensures h < ZHASH
  {
    ZHash(data[i], data[i + 1], data[i + 2])
  }

  /** The match to use at `i`, or -1: the best of its chain unless the next position does better. */
  method ChooseMatch(data: seq<Byte>, i: nat, table: array<seq<nat>>, quality: nat) returns (best: nat, bestloc: int)
    requires i + 3 < |data| && ChainsBelow(table, i) && quality >= 5
    modifies table
    ensures ChainsBelow(table, i + 1)
    ensures forall k :: 0 <= k < ZHASH ==>
              table[k] == if k == Hash3(data, i) then Recorded(old(table[k]), quality, i) else old(table[k])
    ensures bestloc >= 0 ==> IsMatch(data, i, bestloc, best)
    ensures bestloc >= 0 ==> !Longer(data, i, old(table[Hash3(data, i)]), best)
    ensures if bestloc >= 0 then !Longer(data, i + 1, table[Hash3(data, i + 1)], best)
            else Longer(data, i, old(table[Hash3(data, i)]), 2) ==> Longer(data, i + 1, table[Hash3(data, i + 1)], best)
  {
    hide ZHash, IsMatch, Longer, Recorded;
    var h := Hash3(data, i);
    best, bestloc := FindMatch(data, i, table[h]);
    Record(table, h, quality, i);
    if bestloc >= 0 {
      h := Hash3(data, i + 1);
      var longer := HasLonger(data, i + 1, table[h], best);
      if longer {
        bestloc := -1;
      }
    }
  }

  /** The token loop and the final bytes. */
  method EmitTokens(w: Writer, data: seq<Byte>, quality: nat) returns (ghost toks: seq<Token>)
    requires quality >= 5 && w.Valid() && w.bits == Preamble()
    modifies w
    ensures Progress(w, data, toks, |data|)
  {
    hide Expand, Followable, TokensBits, Preamble, IsMatch;
    var table := new seq<nat>[ZHASH](_ => []);
    toks := [];
    NoTokens(data);
    assert Preamble() + [] == Preamble();
    var i := 0;
    while i < |data| - 3
      invariant 0 <= i <= |data| && Progress(w, data, toks, i)
      invariant ChainsBelow(table, i) && fresh(table)
      decreases |data| - i
    {
      var best, bestloc := ChooseMatch(data, i, table, quality);
      if bestloc >= 0 {
        MatchSize(data, i, bestloc, best);
        toks := EmitReference(w, data, toks, i, bestloc, best);
        i := i + best;
      } else {
        toks := EmitLiteral(w, data, toks, i);
        i := i + 1;
      }
    }
    while i < |data|
      invariant 0 <= i <= |data| && Progress(w, data, toks, i)
      decreases |data| - i
    {
      toks := EmitLiteral(w, data, toks, i);
      i := i + 1;
    }
  }

  lemma NoTokens(data: seq<Byte>)
    ensures Followable([]) && Writable([]) && Expand([]) == data[..0] && TokensBits([]) == []
  {
  }

  lemma MatchSize(data: seq<Byte>, i: nat, loc: nat, best: nat)
    requires IsMatch(data, i, loc, best)
    ensures 3 <= best && i + best <= |data|
  {
  }

  /** `out` is a zlib stream of one fixed-code block holding exactly these tokens. */
  ghost predicate Encodes(out: seq<Byte>, toks: seq<Token>)
  {
    Writable(toks) && BitsAt(out, 0, Preamble() + TokensBits(toks) + SymbolBits(256))
  }

  method Start(w: Writer)
    requires w.Valid() && w.bits == [] && w.bitcount == 0
    modifies w
    ensures w.Valid() && w.bits == Preamble()
  {
    hide ToBits, Writer.Valid;
    Pow2Values();
    w.Push(0x78);
    w.Push(0x5e);
    w.Add(1, 1);
    w.Add(1, 2);
    assert [] + ToBits(0x78, 8) == ToBits(0x78, 8);
  }

  /** Zero bits up to the next byte boundary. */
  method PadToByte(w: Writer)
    requires w.Valid()
    modifies w
    ensures w.Valid() && w.bitcount == 0
    ensures old(w.bits) <= w.bits && |w.bits| <= |old(w.bits)| + 7
  {
    hide ToBits, ValueOf, BitsAt;
    Pow2Values();
    ghost var start := w.bitcount;
    while w.bitcount != 0
      invariant w.Valid() && old(w.bits) <= w.bits
      invariant w.bitcount != 0 ==> |w.bits| - |old(w.bits)| == w.bitcount - start && start > 0
      invariant w.bitcount == 0 ==> |w.bits| <= |old(w.bits)| + 7
      decreases if w.bitcount == 0 then 0 else 8 - w.bitcount
    {
      w.Add(0, 1);
    }
  }

  method PushTrailer(w: Writer, data: seq<Byte>)
    requires w.Valid() && w.bitcount == 0
    modifies w
    ensures w.Valid() && w.bitcount == 0 && old(w.bits) <= w.bits
    ensures w.out == old(w.out) + Adler.Trailer(data)
  {
    hide Adler.Sum1, Adler.Sum2, ToBits;
    var s1, s2 := Adler.Adler32(data);
    w.Push(s2 / 256);
    w.Push(s2 % 256);
    w.Push(s1 / 256);
    w.Push(s1 % 256);
  }

  /** `stbi_zlib_compress`. */
  method ZlibCompress(data: seq<Byte>, quality: int) returns (out: seq<Byte>, ghost toks: seq<Token>)
    ensures Followable(toks) && Expand(toks) == data
    ensures Encodes(out, toks)
    ensures |out| >= 4 && out[|out| - 4..] == Adler.Trailer(data)
    ensures 8 * |out| <= 9 * |data| + 65
  {
    hide Expand, Followable, TokensBits, SymbolBits, ValueOf, BitAt, BitsAt, Adler.Trailer, Preamble;
    var q := if quality < 5 then 5 else quality;
    var w := new Writer();
    Start(w);
    toks := EmitTokens(w, data, q);
    assert data[..|data|] == data;
    EmitSymbol(w, 256);
    ghost var body := w.bits;
    TokensSize(toks);
    PreambleSize();
    PadToByte(w);
    PushTrailer(w, data);
    out := w.out;
    assert w.bits[..8 * |out|] == w.bits && w.bits == body + w.bits[|body|..];
    BitsAtSplit(out, 0, body, w.bits[|body|..]);
  }

  lemma PreambleSize()
    ensures |Preamble()| == 19 && |SymbolBits(256)| == 7
  {
  }
}
