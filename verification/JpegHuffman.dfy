/** The JPEG decoding tables: `stbi__build_huffman` and `stbi__jpeg_huff_decode` against the
    canonical codes of Annex C of ITU-T T.81. Symbols are listed in order of code length. */
module JpegHuffman {
  import opened Words
  import opened Huffman

  const FAST_BITS := 9
  const FAST_SIZE := 512
  const NOT_FAST := 255

  /** The sizes as the table lists them: in order of length, none of them unused. */
  ghost predicate Listed(lens: seq<nat>)
  {
    && |lens| <= 256
    && (forall i :: 0 <= i < |lens| ==> 1 <= lens[i] <= MAX_LENGTH)
    && (forall i, j :: 0 <= i < j < |lens| ==> lens[i] <= lens[j])
  }

  // ----- in a listed table the symbols of a length are consecutive

  /** `FirstSymbol(l)` symbols are shorter than `l`, and they come first. */
  lemma {:induction false} ShorterFirst(lens: seq<nat>, l: nat)
    requires Listed(lens)
    ensures FirstSymbol(lens, l) <= |lens|
    ensures forall i :: 0 <= i < |lens| ==> (i < FirstSymbol(lens, l) <==> lens[i] < l)
    decreases |lens|
  {
    hide FirstSymbol, Listed;
    if lens == [] {
      FirstSymbolEmpty(l);
    } else {
      var pre, x := lens[..|lens| - 1], lens[|lens| - 1];
      ListedInit(lens);
      ShorterFirst(pre, l);
      FirstSymbolAppend(pre, x, l);
      assert lens == pre + [x];
      if x < l && pre != [] {
        var last := |pre| - 1;
        assert pre[last] == lens[last] <= x;
      }
    }
  }

  lemma ListedInit(lens: seq<nat>)
    requires Listed(lens) && lens != []
    ensures Listed(lens[..|lens| - 1]) && lens[|lens| - 1] > 0
    ensures |lens| > 1 ==> lens[|lens| - 2] <= lens[|lens| - 1]
  {
  }

  /** The rank of a symbol is its distance from the first of its length. */
  lemma {:induction false} RankIs(lens: seq<nat>, i: nat)
    requires Listed(lens) && i < |lens|
    ensures FirstSymbol(lens, lens[i]) + Rank(lens, i) == i
  {
    var pre := lens[..i];
    ShorterFirst(lens, lens[i]);
    CountFrom(lens, FirstSymbol(lens, lens[i]), i);
  }

  /** Between the first symbol of a length and symbol `i` of it, all have that length. */
  lemma {:induction false} CountFrom(lens: seq<nat>, f: nat, i: nat)
    requires f <= i < |lens| && Listed(lens)
    requires forall m :: 0 <= m < |lens| ==> (m < f <==> lens[m] < lens[i])
    ensures Count(lens[..i], lens[i]) == i - f
  {
    CountBelow(lens, f, lens[i], i);
  }

  lemma {:induction false} CountBelow(lens: seq<nat>, f: nat, l: nat, k: nat)
    requires k <= |lens| && f <= |lens|
    requires forall m :: 0 <= m < k ==> (m < f ==> lens[m] != l) && (f <= m ==> lens[m] == l)
    ensures Count(lens[..k], l) == if k <= f then 0 else k - f
    decreases k
  {
    if k > 0 {
      CountBelow(lens, f, l, k - 1);
      assert lens[..k][..k - 1] == lens[..k - 1];
    }
  }

  // ----- two-level decoding as a function of the next sixteen bits

  ghost predicate ShortMatch(lens: seq<nat>, c: nat, i: nat)
  {
    Matches(lens, c * 128, i) && lens[i] <= FAST_BITS
  }

  /** What `fast` holds for the nine bits `c`: a symbol number kept in a byte, or 255. */
  ghost function FastId(lens: seq<nat>, c: nat): (f: nat)
    requires Listed(lens)
    ensures f <= 255 && (f < NOT_FAST ==> f < |lens|)
  {
    if i: nat :| ShortMatch(lens, c, i) then i else NOT_FAST
  }

  /** The first length from `s` on whose limit exceeds the window; 17 if there is none. */
  ghost function SlowSize(lens: seq<nat>, k: nat, s: nat): (r: nat)
    requires s <= 17
    ensures s <= r <= 17
    ensures r < 17 ==> k < Limit(lens, r)
    ensures forall m :: s <= m < r ==> Limit(lens, m) <= k
    decreases 17 - s
  {
    if s == 17 then 17 else if k < Limit(lens, s) then s else SlowSize(lens, k, s + 1)
  }

  datatype Hit = Hit(id: int, bits: nat) | Miss

  /** `stbi__jpeg_huff_decode` on a window, without the bookkeeping of bits. */
  ghost function TableDecode(lens: seq<nat>, k: nat): Hit
    requires Listed(lens)
  {
    var f := FastId(lens, k / 128);
    if f < NOT_FAST then Hit(f, lens[f])
    else
      var s := SlowSize(lens, k, FAST_BITS + 1);
      if s == 17 then Miss
      else Hit(k / Pow2(MAX_LENGTH - s) + FirstSymbol(lens, s) - FirstCode(lens, s), s)
  }

  ghost function CanonicalDecode(lens: seq<nat>, k: nat): Hit
  {
    var i := Symbol(lens, k);
    if i < 0 then Miss else Hit(i, lens[i])
  }

  /** Windows that agree on nine bits agree on codes of at most nine bits. */
  lemma SameShort(lens: seq<nat>, k: nat, i: nat)
    requires i < |lens| && 0 < lens[i] <= FAST_BITS
    ensures ShortMatch(lens, k / 128, i) <==> Matches(lens, k, i)
  {
    hide Code, Pow2;
    var d := FAST_BITS - lens[i];
    Pow2Values();
    DivDiv(k, 7, d);
    DivDiv(k / 128 * 128, 7, d);
    DivModIs(k / 128 * 128, 128, k / 128, 0);
  }

  lemma ShortUnique(lens: seq<nat>, c: nat, i: nat, j: nat)
    requires ShortMatch(lens, c, i) && ShortMatch(lens, c, j)
    ensures i == j
  {
    MatchUnique(lens, c * 128, i, j);
  }

  lemma FastIdIs(lens: seq<nat>, k: nat, i: nat)
    requires Listed(lens) && Matches(lens, k, i) && lens[i] <= FAST_BITS
    ensures FastId(lens, k / 128) == i
  {
    hide Code, Pow2;
    SameShort(lens, k, i);
    var j: nat :| ShortMatch(lens, k / 128, j) && FastId(lens, k / 128) == j;
    ShortUnique(lens, k / 128, i, j);
  }

  /** The table answers correctly when 255 cannot be mistaken for a symbol number. */
  lemma DecodeExact(lens: seq<nat>, k: nat)
    requires Listed(lens) && (|lens| <= 255 || lens[255] > FAST_BITS)
    ensures TableDecode(lens, k) == CanonicalDecode(lens, k)
  {
    hide Matches, SlowSize, FirstCode, FirstSymbol, FastId, Symbol, ShortMatch, Limit;
    if k < Limit(lens, FAST_BITS) {
      var i := BelowLimit(lens, k, FAST_BITS);
      SymbolIs(lens, k, i);
      MatchLength(lens, k, i);
      FastIdIs(lens, k, i);
    } else {
      NoFast(lens, k);
      SlowExact(lens, k);
    }
  }

  lemma MatchLength(lens: seq<nat>, k: nat, i: nat)
    requires Matches(lens, k, i)
    ensures i < |lens| && 0 < lens[i] <= MAX_LENGTH
  {
  }

  lemma NoFast(lens: seq<nat>, k: nat)
    requires Listed(lens) && Limit(lens, FAST_BITS) <= k
    ensures FastId(lens, k / 128) == NOT_FAST
  {
    hide Limit;
    if i: nat :| ShortMatch(lens, k / 128, i) {
      SameShort(lens, k, i);
      ShortCodesFill(lens, k, FAST_BITS);
    }
  }

  /** Past the short codes, the limit search finds the one code that matches. */
  lemma SlowExact(lens: seq<nat>, k: nat)
    requires Listed(lens) && Limit(lens, FAST_BITS) <= k
    ensures var s := SlowSize(lens, k, FAST_BITS + 1);
            CanonicalDecode(lens, k) ==
            if s == 17 then Miss else Hit(k / Pow2(MAX_LENGTH - s) + FirstSymbol(lens, s) - FirstCode(lens, s), s)
  {
    hide FirstCode, FirstSymbol, Symbol, Limit, Count;
    var s := SlowSize(lens, k, FAST_BITS + 1);
    if s == 17 {
      SymbolNone(lens, k);
    } else {
      var i := IntervalMatch(lens, k, s);
      SymbolIs(lens, k, i);
      RankIs(lens, i);
    }
  }

  // ----- full tables

  lemma {:induction false} KraftAtLeast(lens: seq<nat>, l: nat)
    requires l <= MAX_LENGTH && forall i :: 0 <= i < |lens| ==> 1 <= lens[i] <= l
    ensures Lengths(lens) && Kraft(lens) >= Times(|lens|, Pow2(MAX_LENGTH - l))
    decreases |lens|
  {
    hide Pow2, Times;
    if lens == [] {
      TimesStep(1, Pow2(MAX_LENGTH - l));
    } else {
      var pre, x := lens[..|lens| - 1], lens[|lens| - 1];
      KraftAtLeast(pre, l);
      Pow2Mono(MAX_LENGTH - l, MAX_LENGTH - x);
      TimesStep(|lens|, Pow2(MAX_LENGTH - l));
    }
  }

  /** The 256 codes of a full table are not all shorter than eight bits. */
  lemma FullLength(lens: seq<nat>)
    requires Listed(lens) && Decodable(lens) && |lens| == 256
    ensures lens[255] >= 8
  {
    hide Kraft, Pow2;
    if lens[255] < 8 {
      KraftAtLeast(lens, 7);
      Pow2Values();
    }
  }

  /** The codes end with the last one, and none is longer. */
  lemma LastCode(lens: seq<nat>)
    requires Listed(lens) && |lens| == 256 && 8 <= lens[255] <= FAST_BITS
    ensures FirstSymbol(lens, 10) == 256 && EndCode(lens, 10) == FirstCode(lens, 10)
    ensures FirstCode(lens, 10) == (Code(lens, 255) + 1) * (if lens[255] == 8 then 4 else 2)
  {
    hide Count, FirstSymbol, Rank;
    ShorterFirst(lens, 10);
    NoneLonger(lens, 10);
    NoneLonger(lens, 9);
    LastRank(lens);
  }

  lemma LastRank(lens: seq<nat>)
    requires lens != []
    ensures Count(lens, lens[|lens| - 1]) == Rank(lens, |lens| - 1) + 1
  {
  }

  lemma {:induction false} NoneLonger(lens: seq<nat>, l: nat)
    ensures (forall i :: 0 <= i < |lens| ==> lens[i] < l) ==> Count(lens, l) == 0
  {
    if lens != [] {
      NoneLonger(lens[..|lens| - 1], l);
    }
  }

  /** For the last code of a full table ten bits are taken, and symbol 252 or later is found. */
  lemma LastMisread(lens: seq<nat>, k: nat)
    requires Listed(lens) && Decodable(lens) && |lens| == 256 && lens[255] <= FAST_BITS
    requires k < WINDOW && Matches(lens, k, 255)
    ensures var m := if lens[255] == 8 then 4 else 2;
            TableDecode(lens, k) == Hit(256 - m + k / 64 % m, 10)
  {
    hide FirstCode, FirstSymbol, Count, Kraft, Code;
    FullLength(lens);
    LastCode(lens);
    FastIdIs(lens, k, 255);
    Pow2Values();
    LastSize(lens, k);
  }

  lemma LastSize(lens: seq<nat>, k: nat)
    requires |lens| == 256 && 8 <= lens[255] <= FAST_BITS && Matches(lens, k, 255)
    requires EndCode(lens, 10) == FirstCode(lens, 10) == (Code(lens, 255) + 1) * (if lens[255] == 8 then 4 else 2)
    ensures SlowSize(lens, k, 10) == 10
    ensures var m := if lens[255] == 8 then 4 else 2;
            k / 64 - FirstCode(lens, 10) == k / 64 % m - m
  {
    hide FirstCode, EndCode, Count, Code, Pow2, SlowSize, Limit;
    Pow2Values();
    LastBits(k, Code(lens, 255));
    assert Limit(lens, 10) == EndCode(lens, 10) * 64 by {
      LimitTen(lens);
    }
    SizeTen(lens, k);
  }

  lemma LastBits(k: nat, code: nat)
    ensures k / 256 == code ==> k < (code + 1) * 4 * 64 && k / 64 - (code + 1) * 4 == k / 64 % 4 - 4
    ensures k / 128 == code ==> k < (code + 1) * 2 * 64 && k / 64 - (code + 1) * 2 == k / 64 % 2 - 2
  {
  }

  lemma LimitTen(lens: seq<nat>)
    ensures Limit(lens, 10) == EndCode(lens, 10) * 64
  {
    hide EndCode;
    Pow2Values();
  }

  lemma SizeTen(lens: seq<nat>, k: nat)
    requires k < Limit(lens, 10)
    ensures SlowSize(lens, k, 10) == 10
  {
    hide Limit;
  }

  /** What the tables answer, for every table that is built and every window. */
  lemma DecodeAlways(lens: seq<nat>, k: nat)
    requires Listed(lens) && Decodable(lens) && k < WINDOW
    ensures TableDecode(lens, k) ==
            if |lens| == 256 && lens[255] <= FAST_BITS && Symbol(lens, k) == 255
            then var m := if lens[255] == 8 then 4 else 2; Hit(256 - m + k / 64 % m, 10)
            else CanonicalDecode(lens, k)
  {
    hide SlowSize, FirstCode, FirstSymbol, FastId, Limit, Kraft, Code, ShortMatch, Matches;
    if |lens| <= 255 || lens[255] > FAST_BITS {
      DecodeExact(lens, k);
    } else if Symbol(lens, k) == 255 {
      LastMisread(lens, k);
    } else if k < Limit(lens, FAST_BITS) {
      var i := BelowLimit(lens, k, FAST_BITS);
      SymbolIs(lens, k, i);
      MatchLength(lens, k, i);
      FastIdIs(lens, k, i);
    } else {
      NoFast(lens, k);
      SlowExact(lens, k);
    }
  }

  /** Every symbol number the tables answer is one of the table. */
  lemma HitInRange(lens: seq<nat>, k: nat)
    requires Listed(lens) && Decodable(lens) && k < WINDOW && TableDecode(lens, k).Hit?
    ensures 0 <= TableDecode(lens, k).id < |lens|
  {
    hide TableDecode, Kraft, Matches;
    DecodeAlways(lens, k);
  }

  /** A full table whose last code is short is misread: too many bits are taken for it. */
  lemma FullTableMisreads(lens: seq<nat>) returns (k: nat)
    requires Listed(lens) && Decodable(lens) && |lens| == 256 && lens[255] <= FAST_BITS
    ensures k < WINDOW && Symbol(lens, k) == 255
    ensures TableDecode(lens, k).Miss? || TableDecode(lens, k).bits > lens[255]
  {
    hide FirstCode, FirstSymbol, Symbol, Limit, Count, Kraft;
    var l := lens[255];
    var d := Pow2(MAX_LENGTH - l);
    k := Code(lens, 255) * d;
    CodeFits(lens, 255);
    Pow2Add(l, MAX_LENGTH - l);
    Pow2Values();
    MulLe(Code(lens, 255), Pow2(l) - 1, d);
    MulSub(Pow2(l), 1, d);
    DivModIs(k, d, Code(lens, 255), 0);
    SymbolIs(lens, k, 255);
    FastIdIs(lens, k, 255);
  }

  /** The fast table is exact precisely for the tables in which 255 stays free as a flag. */
  lemma ExactIff(lens: seq<nat>)
    requires Listed(lens) && Decodable(lens)
    ensures (forall k :: 0 <= k < WINDOW ==> TableDecode(lens, k) == CanonicalDecode(lens, k))
       <==> |lens| <= 255 || lens[255] > FAST_BITS
  {
    hide TableDecode, CanonicalDecode, Kraft;
    if |lens| <= 255 || lens[255] > FAST_BITS {
      forall k | 0 <= k < WINDOW ensures TableDecode(lens, k) == CanonicalDecode(lens, k) {
        DecodeExact(lens, k);
      }
    } else {
      var k := FullTableMisreads(lens);
      CanonicalHit(lens, k);
    }
  }

  /** The limit search has found a symbol, and its code is not the one the window begins with: the
      assertion behind the search fails. */
  ghost predicate Misplaced(lens: seq<nat>, k: nat)
    requires Listed(lens)
  {
    FastId(lens, k / 128) == NOT_FAST && TableDecode(lens, k).Hit?
    && !(TableDecode(lens, k).id >= 0 && Matches(lens, k, TableDecode(lens, k).id))
  }

  /** The assertion holds on every window precisely for the tables in which 255 stays free as a flag. */
  lemma AssertionIff(lens: seq<nat>)
    requires Listed(lens) && Decodable(lens)
    ensures (forall k :: 0 <= k < WINDOW ==> !Misplaced(lens, k)) <==> |lens| <= 255 || lens[255] > FAST_BITS
  {
    hide TableDecode, FastId, Kraft, Matches;
    if |lens| <= 255 || lens[255] > FAST_BITS {
      forall k | 0 <= k < WINDOW ensures !Misplaced(lens, k) {
        DecodeExact(lens, k);
      }
    } else {
      var k := LastMisplaced(lens);
    }
  }

  lemma LastMisplaced(lens: seq<nat>) returns (k: nat)
    requires Listed(lens) && Decodable(lens) && |lens| == 256 && lens[255] <= FAST_BITS
    ensures k < WINDOW && Misplaced(lens, k)
  {
    hide TableDecode, FastId, Kraft, Code, Pow2;
    FullLength(lens);
    Pow2Values();
    CodeFits(lens, 255);
    k := Code(lens, 255) * if lens[255] == 8 then 256 else 128;
    assert Matches(lens, k, 255);
    LastMisread(lens, k);
    FastIdIs(lens, k, 255);
    if Matches(lens, k, TableDecode(lens, k).id) {
      MatchUnique(lens, k, 255, TableDecode(lens, k).id);
    }
  }

  lemma CanonicalHit(lens: seq<nat>, k: nat)
    requires Symbol(lens, k) >= 0
    ensures CanonicalDecode(lens, k) == Hit(Symbol(lens, k), lens[Symbol(lens, k)])
  {
  }
}
