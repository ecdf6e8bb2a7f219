/** Canonical prefix codes, as defined in section 3.2.2 of RFC 1951 and in Annex C of
    ITU-T T.81: a list of code lengths (0 = symbol unused) determines the code of every
    symbol. A 16-bit window, read most significant bit first, is compared with codes by
    dropping its low bits. */
module Huffman {
  import opened Words

  const MAX_LENGTH := 16
  const WINDOW := 65536

  ghost predicate Lengths(lens: seq<nat>)
  {
    forall i :: 0 <= i < |lens| ==> lens[i] <= MAX_LENGTH
  }

  /** How many symbols have length `l`. */
  function Count(lens: seq<nat>, l: nat): nat
  {
    if lens == [] then 0
    else Count(lens[..|lens| - 1], l) + (if lens[|lens| - 1] == l then 1 else 0)
  }

  /** As `Count`, but the unused symbols of length 0 do not count. */
  function Used(lens: seq<nat>, l: nat): nat
  {
    if l == 0 then 0 else Count(lens, l)
  }

  /** The code of the first symbol of length `l`. */
  function FirstCode(lens: seq<nat>, l: nat): nat
  {
    if l == 0 then 0 else 2 * (FirstCode(lens, l - 1) + Used(lens, l - 1))
  }

  /** One past the code of the last symbol of length `l`. */
  function EndCode(lens: seq<nat>, l: nat): nat
  {
    FirstCode(lens, l) + Used(lens, l)
  }

  /** The number of symbols shorter than `l`. */
  function FirstSymbol(lens: seq<nat>, l: nat): nat
  {
    if l == 0 then 0 else FirstSymbol(lens, l - 1) + Used(lens, l - 1)
  }

  /** Position of symbol `i` among the symbols of its own length. */
  function Rank(lens: seq<nat>, i: nat): nat
    requires i < |lens|
  {
    Count(lens[..i], lens[i])
  }

  function Code(lens: seq<nat>, i: nat): nat
    requires i < |lens|
  {
    FirstCode(lens, lens[i]) + Rank(lens, i)
  }

  /** `EndCode` aligned with the 16-bit window: where the codes of length at most `l` end. */
  function Limit(lens: seq<nat>, l: nat): nat
    requires l <= MAX_LENGTH
  {
    EndCode(lens, l) * Pow2(MAX_LENGTH - l)
  }

  /** The Kraft sum in units of 2^-16, symbol by symbol. */
  function Kraft(lens: seq<nat>): nat
    requires Lengths(lens)
  {
    if lens == [] then 0
    else Kraft(lens[..|lens| - 1]) + Share(lens[|lens| - 1], MAX_LENGTH)
  }

  function Share(len: nat, l: nat): nat
  {
    if 0 < len <= l then Pow2(l - len) else 0
  }

  /** Symbol `i` is the one whose code starts the window `k`. */
  ghost predicate Matches(lens: seq<nat>, k: nat, i: nat)
  {
    i < |lens| && 0 < lens[i] <= MAX_LENGTH && k / Pow2(MAX_LENGTH - lens[i]) == Code(lens, i)
  }

  ghost predicate Decodable(lens: seq<nat>)
  {
    Lengths(lens) && Kraft(lens) <= WINDOW
  }

  // ----- the Kraft sum and the codes

  lemma {:induction false} EndCodeAppend(lens: seq<nat>, x: nat, l: nat)
    ensures EndCode(lens + [x], l) == EndCode(lens, l) + Share(x, l)
    decreases l
  {
    assert (lens + [x])[..|lens|] == lens;
    if l > 0 {
      EndCodeAppend(lens, x, l - 1);
    }
  }

  /** The code space used up to length 16 is the Kraft sum. */
  lemma {:induction false} EndCodeIsKraft(lens: seq<nat>)
    requires Lengths(lens)
    ensures EndCode(lens, MAX_LENGTH) == Kraft(lens)
  {
    if lens == [] {
      EndCodeEmpty(MAX_LENGTH);
    } else {
      var pre := lens[..|lens| - 1];
      EndCodeIsKraft(pre);
      EndCodeAppend(pre, lens[|lens| - 1], MAX_LENGTH);
      assert lens == pre + [lens[|lens| - 1]];
    }
  }

  lemma KraftAppend(lens: seq<nat>, x: nat)
    requires Lengths(lens) && x <= MAX_LENGTH
    ensures Lengths(lens + [x]) && Kraft(lens + [x]) == Kraft(lens) + Share(x, MAX_LENGTH)
  {
    assert (lens + [x])[..|lens|] == lens;
  }

  lemma CountAppend(lens: seq<nat>, x: nat, l: nat)
    ensures Count(lens + [x], l) == Count(lens, l) + (if x == l then 1 else 0)
  {
    assert (lens + [x])[..|lens|] == lens;
  }

  lemma {:induction false} EndCodeEmpty(l: nat)
    ensures EndCode([], l) == 0
  {
    if l > 0 {
      EndCodeEmpty(l - 1);
    }
  }

  lemma LimitStep(lens: seq<nat>, l: nat)
    requires 0 < l <= MAX_LENGTH
    ensures FirstCode(lens, l) * Pow2(MAX_LENGTH - l) == Limit(lens, l - 1)
    ensures Limit(lens, l - 1) <= Limit(lens, l)
  {
    var e, d := EndCode(lens, l - 1), MAX_LENGTH - l;
    assert Pow2(d + 1) == 2 * Pow2(d);
    MulTwice(e, Pow2(d));
    MulLe(FirstCode(lens, l), EndCode(lens, l), Pow2(d));
    assert FirstCode(lens, l) == 2 * e;
    assert 2 * e * Pow2(d) == 2 * (e * Pow2(d)) by { MulTwiceLeft(e, Pow2(d)); }
  }

  lemma {:induction false} LimitMono(lens: seq<nat>, l: nat, m: nat)
    requires l <= m <= MAX_LENGTH
    ensures Limit(lens, l) <= Limit(lens, m)
    decreases m
  {
    if l < m {
      LimitMono(lens, l, m - 1);
      LimitStep(lens, m);
    }
  }

  /** The Kraft inequality holds exactly when no length runs out of codes. */
  lemma DecodableIff(lens: seq<nat>)
    requires Lengths(lens)
    ensures Kraft(lens) <= WINDOW <==> forall l :: 0 <= l <= MAX_LENGTH ==> EndCode(lens, l) <= Pow2(l)
  {
    EndCodeIsKraft(lens);
    Pow2Values();
    if Kraft(lens) <= WINDOW {
      forall l | 0 <= l <= MAX_LENGTH ensures EndCode(lens, l) <= Pow2(l) {
        EndCodeFits(lens, l);
      }
    }
  }

  lemma EndCodeFits(lens: seq<nat>, l: nat)
    requires Decodable(lens) && l <= MAX_LENGTH
    ensures EndCode(lens, l) <= Pow2(l)
    ensures Limit(lens, l) <= WINDOW
  {
    hide Kraft, EndCode, Pow2;
    EndCodeIsKraft(lens);
    LimitMono(lens, l, MAX_LENGTH);
    Pow2Values();
    var d := MAX_LENGTH - l;
    Pow2Add(l, d);
    MulSucc(Pow2(l), Pow2(d));
    if EndCode(lens, l) > Pow2(l) {
      MulLe(Pow2(l) + 1, EndCode(lens, l), Pow2(d));
    }
  }

  // ----- ranks

  lemma {:induction false} CountPrefix(lens: seq<nat>, i: nat, l: nat)
    requires i <= |lens|
    ensures Count(lens[..i], l) <= Count(lens, l)
    decreases |lens|
  {
    if i == |lens| {
      assert lens[..i] == lens;
    } else {
      var pre := lens[..|lens| - 1];
      CountPrefix(pre, i, l);
      assert pre[..i] == lens[..i];
    }
  }

  /** Ranks grow along the symbols of one length and stay below their number. */
  lemma RankGrows(lens: seq<nat>, i: nat, j: nat)
    requires i < j < |lens| && lens[i] == lens[j]
    ensures Rank(lens, i) < Rank(lens, j)
  {
    RankCounted(lens[..j], i);
    assert lens[..j][..i] == lens[..i];
  }

  lemma RankCounted(lens: seq<nat>, i: nat)
    requires i < |lens|
    ensures Rank(lens, i) < Count(lens, lens[i])
  {
    assert lens[..i + 1][..i] == lens[..i];
    CountPrefix(lens, i + 1, lens[i]);
  }

  /** Every rank below the number of symbols of a length is taken. */
  lemma {:induction false} RankTaken(lens: seq<nat>, l: nat, r: nat) returns (i: nat)
    requires r < Count(lens, l)
    ensures i < |lens| && lens[i] == l && Rank(lens, i) == r
  {
    var pre := lens[..|lens| - 1];
    if r < Count(pre, l) {
      i := RankTaken(pre, l, r);
      assert pre[..i] == lens[..i];
    } else {
      i := |lens| - 1;
    }
  }

  // ----- symbol numbers

  lemma {:induction false} FirstSymbolAppend(lens: seq<nat>, x: nat, l: nat)
    ensures FirstSymbol(lens + [x], l) == FirstSymbol(lens, l) + (if 0 < x < l then 1 else 0)
    decreases l
  {
    hide Count;
    if l > 0 {
      FirstSymbolAppend(lens, x, l - 1);
      CountAppend(lens, x, l - 1);
    }
  }

  lemma {:induction false} FirstSymbolEmpty(l: nat)
    ensures FirstSymbol([], l) == 0
  {
    if l > 0 {
      FirstSymbolEmpty(l - 1);
    }
  }

  // ----- the interval argument

  /** A matching symbol of length `l` puts the window between the limits of `l - 1` and `l`. */
  lemma MatchInterval(lens: seq<nat>, k: nat, i: nat)
    requires Matches(lens, k, i)
    ensures Limit(lens, lens[i] - 1) <= k < Limit(lens, lens[i])
  {
    var l := lens[i];
    var d := Pow2(MAX_LENGTH - l);
    RankCounted(lens, i);
    LimitStep(lens, l);
    DivLt(k, d, FirstCode(lens, l));
    DivLt(k, d, EndCode(lens, l));
  }

  /** Between the limits of `l - 1` and `l` there is exactly the code at that offset. */
  lemma IntervalMatch(lens: seq<nat>, k: nat, l: nat) returns (i: nat)
    requires 0 < l <= MAX_LENGTH
    requires Limit(lens, l - 1) <= k < Limit(lens, l)
    ensures Matches(lens, k, i) && lens[i] == l
    ensures k / Pow2(MAX_LENGTH - l) == FirstCode(lens, l) + Rank(lens, i)
  {
    var d := Pow2(MAX_LENGTH - l);
    LimitStep(lens, l);
    DivLt(k, d, FirstCode(lens, l));
    DivLt(k, d, EndCode(lens, l));
    i := RankTaken(lens, l, k / d - FirstCode(lens, l));
  }

  /** Codes of length at most `l` fill exactly the windows below `Limit(l)`. */
  lemma {:induction false} ShortCodesFill(lens: seq<nat>, k: nat, l: nat)
    requires l <= MAX_LENGTH
    ensures k < Limit(lens, l) <==> exists i: nat :: Matches(lens, k, i) && lens[i] <= l
  {
    if k < Limit(lens, l) {
      var i := BelowLimit(lens, k, l);
    }
    if i: nat :| Matches(lens, k, i) && lens[i] <= l {
      MatchInterval(lens, k, i);
      LimitMono(lens, lens[i], l);
    }
  }

  lemma {:induction false} BelowLimit(lens: seq<nat>, k: nat, l: nat) returns (i: nat)
    requires l <= MAX_LENGTH
    requires k < Limit(lens, l)
    ensures Matches(lens, k, i) && lens[i] <= l
    decreases l
  {
    assert l > 0;
    if k < Limit(lens, l - 1) {
      i := BelowLimit(lens, k, l - 1);
    } else {
      i := IntervalMatch(lens, k, l);
    }
  }

  /** Prefix freedom: at most one symbol matches a window. */
  lemma MatchUnique(lens: seq<nat>, k: nat, i: nat, j: nat)
    requires Matches(lens, k, i) && Matches(lens, k, j)
    ensures i == j
  {
    MatchInterval(lens, k, i);
    MatchInterval(lens, k, j);
    if lens[i] < lens[j] {
      LimitMono(lens, lens[i], lens[j] - 1);
    } else if lens[j] < lens[i] {
      LimitMono(lens, lens[j], lens[i] - 1);
    } else if i < j {
      RankGrows(lens, i, j);
    } else if j < i {
      RankGrows(lens, j, i);
    }
  }

  /** The symbol a window decodes to, or -1. */
  ghost function Symbol(lens: seq<nat>, k: nat): (r: int)
    ensures r == -1 <==> !exists i: nat :: Matches(lens, k, i)
    ensures r != -1 ==> 0 <= r < |lens| && Matches(lens, k, r)
  {
    if i: nat :| Matches(lens, k, i) then i else -1
  }

  lemma SymbolIs(lens: seq<nat>, k: nat, i: nat)
    requires Matches(lens, k, i)
    ensures Symbol(lens, k) == i
  {
    MatchUnique(lens, k, i, Symbol(lens, k));
  }

  /** No symbol matches exactly when the window lies past all codes. */
  lemma SymbolNone(lens: seq<nat>, k: nat)
    requires Lengths(lens)
    ensures Symbol(lens, k) == -1 <==> k >= Limit(lens, MAX_LENGTH)
  {
    ShortCodesFill(lens, k, MAX_LENGTH);
  }

  lemma CodeFits(lens: seq<nat>, i: nat)
    requires Decodable(lens) && i < |lens| && lens[i] > 0
    ensures Code(lens, i) < Pow2(lens[i])
  {
    RankCounted(lens, i);
    EndCodeFits(lens, lens[i]);
  }
}
