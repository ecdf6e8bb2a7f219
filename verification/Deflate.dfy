/** What the compressor emits: literals and back-references, their bits in the fixed code,
    and the bytes they stand for. */
module Deflate {
  import opened Words
  import opened BitStream
  import opened BitWriter
  import opened InflateSpec
  import FixedCode

  datatype Token = Literal(b: Byte) | Match(len: nat, dist: nat)

  /** A back-reference a decoder holding `have` bytes can follow. */
  predicate FitsAfter(t: Token, have: nat)
  {
    match t
    case Literal(_) => true
    case Match(len, dist) => 3 <= len <= 258 && 1 <= dist <= 32767 && dist <= have
  }

  function Apply(out: seq<Byte>, t: Token): (r: seq<Byte>)
    requires FitsAfter(t, |out|)
  {
    match t
    case Literal(b) => out + [b]
    case Match(len, dist) => CopyBack(out, dist, len)
  }

  /** Every token can be followed after those before it. */
  predicate Followable(toks: seq<Token>)
    decreases |toks|, 0
  {
    toks == [] || (Followable(toks[..|toks| - 1]) && FitsAfter(toks[|toks| - 1], |Expand(toks[..|toks| - 1])|))
  }

  /** The bytes a token list stands for. */
  function Expand(toks: seq<Token>): seq<Byte>
    requires Followable(toks)
    decreases |toks|, 1
  {
    if toks == [] then [] else Apply(Expand(toks[..|toks| - 1]), toks[|toks| - 1])
  }

  // ----- the writer's own tables

  const LENGTHC: seq<nat> := [
    3, 4, 5, 6, 7, 8, 9, 10, 11, 13, 15, 17, 19, 23, 27, 31, 35, 43, 51, 59, 67, 83, 99, 115, 131, 163, 195, 227, 258,
    259]

  const LENGTHEB: seq<nat> := [
    0, 0, 0, 0, 0, 0, 0, 0, 1, 1, 1, 1, 2, 2, 2, 2, 3, 3, 3, 3, 4, 4, 4, 4, 5, 5, 5, 5, 0]

  const DISTC: seq<nat> := [
    1, 2, 3, 4, 5, 7, 9, 13, 17, 25, 33, 49, 65, 97, 129, 193, 257, 385, 513, 769, 1025, 1537, 2049, 3073, 4097, 6145,
    8193, 12289, 16385, 24577, 32768]

  const DISTEB: seq<nat> := [
    0, 0, 0, 0, 1, 1, 2, 2, 3, 3, 4, 4, 5, 5, 6, 6, 7, 7, 8, 8, 9, 9, 10, 10, 11, 11, 12, 12, 13, 13]

  function LengthC(j: nat): nat requires j < 30 { LENGTHC[j] }
  function LengthEb(j: nat): nat requires j < 29 { LENGTHEB[j] }
  function DistC(j: nat): nat requires j < 31 { DISTC[j] }
  function DistEb(j: nat): nat requires j < 30 { DISTEB[j] }

  /** Each row's values are the ones its extra bits can express, and both sides agree on it. */
  lemma LengthRow(j: nat)
    requires j < 29
    ensures LengthC(j) < LengthC(j + 1) <= LengthC(j) + Pow2(LengthEb(j))
    ensures LengthBase(j) == LengthC(j) && LengthExtra(j) == LengthEb(j) <= 5
    ensures 3 <= LengthC(j)
  {
    hide Pow2;
    Pow2Values();
  }

  /** A length code with its extra bits and the longest distance fits in nine bits a byte. */
  lemma LengthCost(j: nat)
    requires j < 29
    ensures FixedCode.Len(257 + j) + LengthEb(j) + 18 <= 9 * LengthC(j)
  {
  }

  lemma DistRow(j: nat)
    requires j < 30
    ensures DistC(j) < DistC(j + 1) <= DistC(j) + Pow2(DistEb(j))
    ensures DistBase(j) == DistC(j) && DistExtra(j) == DistEb(j) <= 13
    ensures 1 <= DistC(j)
  {
    hide Pow2;
    Pow2Values();
  }

  /** The row of a value: `for (j = 0; v > table[j + 1] - 1; ++j)`. */
  function RowOf(table: seq<int>, v: int, j: nat): (r: nat)
    requires j + 1 < |table| && table[j] <= v < table[|table| - 1]
    ensures r + 1 < |table| && table[r] <= v < table[r + 1]
    decreases |table| - j
  {
    if v > table[j + 1] - 1 then RowOf(table, v, j + 1) else j
  }

  function LengthSlot(len: nat): (j: nat)
    requires 3 <= len <= 258
    ensures j < 29 && LengthC(j) <= len < LengthC(j + 1)
  {
    RowOf(LENGTHC, len, 0)
  }

  function DistSlot(dist: nat): (j: nat)
    requires 1 <= dist <= 32767
    ensures j < 30 && DistC(j) <= dist < DistC(j + 1)
  {
    RowOf(DISTC, dist, 0)
  }

  // ----- bits

  /** A Huffman code goes out most significant bit first: reversed, then low end first. */
  function CodeBits(code: nat, n: nat): seq<Bit>
  {
    ToBits(Reverse(code, n), n)
  }

  function SymbolBits(n: nat): (r: seq<Bit>)
    requires n < 288
    ensures |r| == FixedCode.Len(n)
  {
    CodeBits(FixedCode.Number(n), FixedCode.Len(n))
  }

  function LengthBits(len: nat): (r: seq<Bit>)
    requires 3 <= len <= 258
  {
    var j := LengthSlot(len);
    SymbolBits(257 + j) + ToBits(len - LengthC(j), LengthEb(j))
  }

  function DistBits(dist: nat): (r: seq<Bit>)
    requires 1 <= dist <= 32767
  {
    var j := DistSlot(dist);
    CodeBits(j, 5) + ToBits(dist - DistC(j), DistEb(j))
  }

  function TokenBits(t: Token): seq<Bit>
    requires FitsAfter(t, 32768)
  {
    match t
    case Literal(b) => SymbolBits(b)
    case Match(len, dist) => LengthBits(len) + DistBits(dist)
  }

  ghost predicate Writable(toks: seq<Token>)
  {
    forall i :: 0 <= i < |toks| ==> FitsAfter(toks[i], 32768)
  }

  function TokensBits(toks: seq<Token>): seq<Bit>
    requires Writable(toks)
  {
    if toks == [] then [] else TokensBits(toks[..|toks| - 1]) + TokenBits(toks[|toks| - 1])
  }

  /** No token takes more than nine bits for each byte it stands for. */
  lemma TokenSize(t: Token, out: seq<Byte>)
    requires FitsAfter(t, |out|)
    ensures FitsAfter(t, 32768)
    ensures |TokenBits(t)| <= 9 * (|Apply(out, t)| - |out|)
  {
    match t
    case Literal(_) =>
    case Match(len, dist) =>
      hide LengthSlot, DistSlot, LengthC, DistC, LengthEb, DistEb, ToBits, Reverse;
      var j, k := LengthSlot(len), DistSlot(dist);
      LengthCost(j);
      DistRow(k);
  }

  lemma {:induction false} TokensSize(toks: seq<Token>)
    requires Followable(toks) && Writable(toks)
    ensures |TokensBits(toks)| <= 9 * |Expand(toks)|
  {
    hide TokenBits, Apply;
    if toks != [] {
      var pre := toks[..|toks| - 1];
      TokensSize(pre);
      TokenSize(toks[|toks| - 1], Expand(pre));
    }
  }

  // ----- back-references

  /** The `len` bytes at `i` repeat those `dist` places back. */
  ghost predicate Repeats(data: seq<Byte>, i: nat, dist: nat, len: nat)
  {
    dist <= i && i + len <= |data| && forall k :: i <= k < i + len ==> data[k] == data[k - dist]
  }

  /** Bytes that really repeat are reproduced by the copy, overlapping or not. */
  lemma CopyRepeats(data: seq<Byte>, i: nat, dist: nat, len: nat)
    requires 1 <= dist && Repeats(data, i, dist, len)
    ensures CopyBack(data[..i], dist, len) == data[..i + len]
  {
    CopyAgrees(data, i, dist, len, CopyBack(data[..i], dist, len), i + len);
  }

  lemma {:induction false} CopyAgrees(data: seq<Byte>, i: nat, dist: nat, len: nat, r: seq<Byte>, j: nat)
    requires 1 <= dist && Repeats(data, i, dist, len) && i <= j <= i + len && |r| == i + len
    requires r[..i] == data[..i]
    requires forall k :: i <= k < |r| ==> r[k] == r[k - dist]
    ensures r[..j] == data[..j]
    decreases j
  {
    if j > i {
      CopyAgrees(data, i, dist, len, r, j - 1);
      assert r[j - 1] == r[j - 1 - dist] == r[..j - 1][j - 1 - dist];
      assert data[j - 1] == data[j - 1 - dist] == data[..j - 1][j - 1 - dist];
      assert r[..j] == r[..j - 1] + [r[j - 1]];
      assert data[..j] == data[..j - 1] + [data[j - 1]];
    }
  }
}
