/** The canonical code of a DHT segment, computed from its sixteen counts. */
module JpegCounts {
  import opened Words
  import opened Huffman
  import opened JpegHuffman
  import opened JpegTable

  // ----- what the size list holds

  /** Sixteen counts weighed by the share of the code space a code of each length takes. */
  function Weight(count: seq<nat>, n: nat): nat
    requires n <= |count| && n <= MAX_LENGTH
  {
    if n == 0 then 0 else Weight(count, n - 1) + Times(count[n - 1], Pow2(MAX_LENGTH - n))
  }

  lemma {:induction false} Repeated(a: seq<nat>, c: nat, x: nat, l: nat)
    requires Lengths(a) && 1 <= x <= MAX_LENGTH
    ensures var r := a + seq(c, _ => x);
            Lengths(r) && Kraft(r) == Kraft(a) + Times(c, Pow2(MAX_LENGTH - x))
            && Count(r, l) == Count(a, l) + if x == l then c else 0
    decreases c
  {
    hide Kraft, Count, Pow2;
    if c == 0 {
      assert a + seq(c, _ => x) == a;
    } else {
      var r := a + seq(c - 1, _ => x);
      Repeated(a, c - 1, x, l);
      KraftAppend(r, x);
      CountAppend(r, x, l);
      TimesStep(c, Pow2(MAX_LENGTH - x));
      assert a + seq(c, _ => x) == r + [x];
    }
  }

  lemma EmptyList(l: nat)
    ensures Lengths([]) && Kraft([]) == 0 && Count([], l) == 0
  {
  }

  /** The Kraft sum and the number of symbols of every length. */
  lemma {:induction false} SizesAre(count: seq<nat>, n: nat, l: nat)
    requires n <= |count| && n <= MAX_LENGTH
    ensures Lengths(Sizes(count, n)) && Kraft(Sizes(count, n)) == Weight(count, n)
    ensures Count(Sizes(count, n), l) == if 1 <= l <= n then count[l - 1] else 0
  {
    hide Times, Pow2, Kraft, Count, Lengths;
    if n == 0 {
      EmptyList(l);
    } else {
      SizesAre(count, n - 1, l);
      Repeated(Sizes(count, n - 1), count[n - 1], n, l);
    }
  }

  /** The code of the first symbol of length `l`. */
  function FirstOf(count: seq<nat>, l: nat): nat
    requires l <= |count|
  {
    if l <= 1 then 0 else 2 * (FirstOf(count, l - 1) + count[l - 2])
  }

  lemma {:induction false} FirstsAre(count: seq<nat>, l: nat)
    requires |count| == 16 && 1 <= l <= 17
    ensures l <= 16 ==> FirstCode(Sizes(count, 16), l) == FirstOf(count, l)
    ensures FirstSymbol(Sizes(count, 16), l) == Total(count, l - 1)
  {
    hide Sizes, Count;
    if l > 1 {
      FirstsAre(count, l - 1);
      SizesAre(count, 16, l - 1);
    }
  }

  lemma SizesListed(count: seq<nat>)
    requires |count| == 16 && Total(count, 16) <= 256
    ensures Listed(Sizes(count, 16)) && |Sizes(count, 16)| == Total(count, 16)
  {
    hide Sizes, Total;
    SizesTotal(count, 16);
    SizesInOrder(count, 16);
  }

  /** Symbol `i` has length `l` and the code that is as far from the first of its length as it is. */
  lemma CodeOf(count: seq<nat>, l: nat, i: nat)
    requires |count| == 16 && Total(count, 16) <= 256 && 1 <= l <= 16 && Total(count, l - 1) <= i < Total(count, l)
    ensures i < |Sizes(count, 16)| && Sizes(count, 16)[i] == l
    ensures Code(Sizes(count, 16), i) == FirstOf(count, l) + i - Total(count, l - 1)
  {
    hide Sizes, Total, FirstOf, Count, FirstCode, FirstSymbol;
    SizesListed(count);
    TotalMono(count, l);
    var lens := Sizes(count, 16);
    FirstsAre(count, l);
    FirstsAre(count, l + 1);
    ShorterFirst(lens, l);
    ShorterFirst(lens, l + 1);
    RankIs(lens, i);
  }

  // ----- computing with given counts

  lemma Sums(count: seq<nat>)
    requires |count| == 16
    ensures Total(count, 0) == 0
    ensures forall l :: 1 <= l <= 16 ==> Total(count, l) == Total(count, l - 1) + count[l - 1]
  {
  }

  lemma Weights(count: seq<nat>)
    requires |count| == 16
    ensures Weight(count, 16) ==
            32768 * count[0] + 16384 * count[1] + 8192 * count[2] + 4096 * count[3]
            + 2048 * count[4] + 1024 * count[5] + 512 * count[6] + 256 * count[7]
            + 128 * count[8] + 64 * count[9] + 32 * count[10] + 16 * count[11]
            + 8 * count[12] + 4 * count[13] + 2 * count[14] + count[15]
  {
    hide Weight, Pow2;
    Pow2Values();
    NoWeight(count);
    FourWeights(count, 0, 4096);
    FourWeights(count, 4, 256);
    FourWeights(count, 8, 16);
    FourWeights(count, 12, 1);
  }

  /** Four lengths at a time; `w` is the share of the longest. */
  lemma FourWeights(count: seq<nat>, n: nat, w: nat)
    requires |count| == 16 && n <= 12 && w == Pow2(12 - n)
    ensures Weight(count, n + 4) == Weight(count, n)
            + 8 * w * count[n] + 4 * w * count[n + 1] + 2 * w * count[n + 2] + w * count[n + 3]
  {
    hide Weight, Pow2;
    Pow2Step(13 - n);
    Pow2Step(14 - n);
    Pow2Step(15 - n);
    WeightStep(count, n + 1, 8 * w);
    WeightStep(count, n + 2, 4 * w);
    WeightStep(count, n + 3, 2 * w);
    WeightStep(count, n + 4, w);
  }

  lemma NoWeight(count: seq<nat>)
    ensures Weight(count, 0) == 0
  {
  }

  lemma WeightStep(count: seq<nat>, n: nat, w: nat)
    requires 1 <= n <= |count| && n <= MAX_LENGTH && w == Pow2(MAX_LENGTH - n)
    ensures Weight(count, n) == Weight(count, n - 1) + w * count[n - 1]
  {
    hide Pow2;
  }

  // ----- two segments a file can hold

  /** Two codes of 15 bits and 255 of 16 bits: a prefix code of one symbol too many for the arrays. */
  lemma OneTooMany(count: seq<nat>)
    requires count == [0, 0, 0, 0, 0, 0, 0, 0, 0, 0, 0, 0, 0, 0, 2, 255]
    ensures Total(count, 16) == 257 && Lengths(Sizes(count, 16)) && Kraft(Sizes(count, 16)) <= WINDOW
  {
    hide Sizes, Weight, Kraft;
    SizesAre(count, 16, 0);
    Weights(count);
    Sums(count);
  }

  /** One code of 8 bits and 255 of 9 bits: the last symbol is misread. */
  lemma FullTable(count: seq<nat>) returns (k: nat)
    requires count == [0, 0, 0, 0, 0, 0, 0, 1, 255, 0, 0, 0, 0, 0, 0, 0]
    ensures var lens := Sizes(count, 16);
            && Listed(lens) && Decodable(lens) && |lens| == 256 && lens[255] == 9
            && Symbol(lens, k) == 255 && CanonicalDecode(lens, k) == Hit(255, 9)
            && TableDecode(lens, k) == Hit(254 + k / 64 % 2, 10)
  {
    hide Sizes, Kraft, TableDecode, Symbol, Code, Count, Listed, Weight, CanonicalDecode, FirstOf;
    SizesAre(count, 16, 0);
    Weights(count);
    Sums(count);
    SizesListed(count);
    CodeOf(count, 9, 255);
    k := FullTableMisreads(Sizes(count, 16));
    CanonicalHit(Sizes(count, 16), k);
    DecodeAlways(Sizes(count, 16), k);
  }
}
