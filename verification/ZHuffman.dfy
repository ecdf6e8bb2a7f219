/** The decoding tables of the inflater: `stbi__zhuffman` and `stbi__zbuild_huffman`. */
module ZHuffman {
  import opened Words
  import opened BitStream
  import opened BitReverse
  import opened Huffman

  const FAST_BITS := 9
  const FAST_SIZE := 512
  const MAX_SYMBOLS := 288

  /** A length list the builder is called with: at most 288 symbols, lengths at most 15. */
  ghost predicate SizeList(lens: seq<nat>)
  {
    |lens| <= MAX_SYMBOLS && forall i :: 0 <= i < |lens| ==> lens[i] <= 15
  }

  /** The window whose first nine bits are the index `j`, read least significant bit first. */
  function FastWindow(j: nat): nat
  {
    Reverse(j, FAST_BITS) * 128
  }

  ghost predicate FastMatch(lens: seq<nat>, j: nat, i: nat)
  {
    Matches(lens, FastWindow(j), i) && lens[i] <= FAST_BITS
  }

  function FastEntry(lens: seq<nat>, i: nat): nat
    requires i < |lens|
  {
    lens[i] * 512 + i
  }

  /** `Slot` is where symbol `i` is filed: by length, then by number. */
  function Slot(lens: seq<nat>, i: nat): nat
    requires i < |lens|
  {
    FirstSymbol(lens, lens[i]) + Rank(lens, i)
  }

  // ----- slots

  lemma {:induction false} FirstSymbolBound(lens: seq<nat>, l: nat)
    ensures FirstSymbol(lens, l) <= |lens|
    decreases |lens|
  {
    if lens == [] {
      FirstSymbolEmpty(l);
    } else {
      var pre := lens[..|lens| - 1];
      FirstSymbolBound(pre, l);
      FirstSymbolAppend(pre, lens[|lens| - 1], l);
      assert lens == pre + [lens[|lens| - 1]];
    }
  }

  lemma {:induction false} FirstSymbolMono(lens: seq<nat>, l: nat, m: nat)
    requires l <= m
    ensures FirstSymbol(lens, l) <= FirstSymbol(lens, m)
    decreases m
  {
    if l < m {
      FirstSymbolMono(lens, l, m - 1);
    }
  }

  lemma SlotBound(lens: seq<nat>, i: nat)
    requires i < |lens| && lens[i] > 0
    ensures Slot(lens, i) < FirstSymbol(lens, lens[i] + 1) <= |lens|
  {
    RankCounted(lens, i);
    FirstSymbolBound(lens, lens[i] + 1);
  }

  /** No two used symbols share a slot. */
  lemma SlotUnique(lens: seq<nat>, i: nat, j: nat)
    requires i < |lens| && j < |lens| && lens[i] > 0 && lens[j] > 0 && i != j
    ensures Slot(lens, i) != Slot(lens, j)
  {
    SlotBound(lens, i);
    SlotBound(lens, j);
    if lens[i] < lens[j] {
      FirstSymbolMono(lens, lens[i] + 1, lens[j]);
    } else if lens[j] < lens[i] {
      FirstSymbolMono(lens, lens[j] + 1, lens[i]);
    } else if i < j {
      RankGrows(lens, i, j);
    } else {
      RankGrows(lens, j, i);
    }
  }

  // ----- the fast table

  /** Windows that agree on the first nine bits agree on every code of at most nine bits. */
  lemma ShortMatch(lens: seq<nat>, k: nat, k2: nat, i: nat)
    requires k / 128 == k2 / 128
    requires Matches(lens, k, i) && lens[i] <= FAST_BITS
    ensures Matches(lens, k2, i)
  {
    var d := FAST_BITS - lens[i];
    assert Pow2(7) == 128;
    DivDiv(k, 7, d);
    DivDiv(k2, 7, d);
  }

  /** Index `j` starts with the reversed code of symbol `i`. */
  lemma FastIndex(lens: seq<nat>, j: nat, i: nat)
    requires Decodable(lens) && i < |lens| && 0 < lens[i] <= FAST_BITS
    ensures FastMatch(lens, j, i) <==> j % Pow2(lens[i]) == Reverse(Code(lens, i), lens[i])
  {
    hide Reverse, FirstCode, Count;
    var l, c := lens[i], Code(lens, i);
    CodeFits(lens, i);
    FastWindowPrefix(j, l);
    ReverseLow(j, j % Pow2(l), l) by { LowLow(j, Pow2(l)); }
    LowBound(j, Pow2(l));
    ReverseTwice(j % Pow2(l), l);
    ReverseTwice(c, l);
  }

  lemma LowLow(v: nat, d: nat)
    requires d > 0
    ensures v % d % d == v % d
  {
    DivModIs(v % d, d, 0, v % d);
  }

  lemma LowBound(v: nat, d: nat)
    requires d > 0
    ensures 0 <= v % d < d
  {
  }

  lemma FastWindowPrefix(j: nat, l: nat)
    requires l <= FAST_BITS
    ensures FastWindow(j) / Pow2(MAX_LENGTH - l) == Reverse(j, l)
  {
    hide Reverse;
    var nine := FAST_BITS;
    ReversePrefix(j, nine, l);
    DivDiv(FastWindow(j), 7, nine - l);
    assert Pow2(7) == 128;
    assert FastWindow(j) / 128 == Reverse(j, nine);
  }

  // ----- steps of the builder

  lemma TooManyCodes(lens: seq<nat>, l: nat)
    requires Lengths(lens) && 1 <= l <= MAX_LENGTH && EndCode(lens, l) > Pow2(l)
    ensures Kraft(lens) > WINDOW
  {
    DecodableIff(lens);
  }

  /** With no length past 15, codes that fit up to 15 fit altogether. */
  lemma AllCodesFit(lens: seq<nat>)
    requires SizeList(lens)
    requires forall l :: 1 <= l < 16 ==> EndCode(lens, l) <= Pow2(l)
    ensures Decodable(lens)
  {
    hide Count, Pow2, Kraft, FirstCode;
    NoLongCodes(lens);
    DecodableIff(lens);
    NextRow(lens, 15);
    FirstRow(lens);
  }

  lemma {:induction false} NoLongCodes(lens: seq<nat>)
    requires forall i :: 0 <= i < |lens| ==> lens[i] <= 15
    ensures Count(lens, 16) == 0
  {
    if lens != [] {
      NoLongCodes(lens[..|lens| - 1]);
    }
  }

  lemma FirstRow(lens: seq<nat>)
    ensures EndCode(lens, 0) == 0 && Pow2(0) == 1
  {
  }

  lemma FirstCodeOne(lens: seq<nat>)
    ensures FirstCode(lens, 1) == 0 && FirstSymbol(lens, 1) == 0 && Pow2(1) == 2
  {
    assert FirstCode(lens, 0) == 0;
  }

  lemma EndCodeIs(lens: seq<nat>, l: nat)
    requires l <= MAX_LENGTH
    ensures EndCode(lens, l) == FirstCode(lens, l) + Used(lens, l)
    ensures Limit(lens, l) == EndCode(lens, l) * Pow2(16 - l)
  {
  }

  lemma NextRow(lens: seq<nat>, l: nat)
    ensures Pow2(l + 1) == 2 * Pow2(l)
    ensures FirstCode(lens, l + 1) == 2 * EndCode(lens, l)
    ensures FirstSymbol(lens, l + 1) == FirstSymbol(lens, l) + Used(lens, l)
  {
  }

  /** The 16-bit fields never truncate. */
  lemma FitsWord(lens: seq<nat>, l: nat)
    requires SizeList(lens) && l <= 15
    ensures Pow2(l) < 0x10000 && FirstSymbol(lens, l) < 0x10000
  {
    Pow2Mono(l, 15);
    assert Pow2(15) == 32768;
    FirstSymbolBound(lens, l);
  }

  lemma FastWord(i: nat, s: nat)
    requires i < MAX_SYMBOLS && s <= 15
    ensures Or(i, s * 512) % 0x10000 == s * 512 + i
  {
    hide Or, Pow2;
    Pow2Values();
    OrShifted(i, s, 9);
  }

  lemma CountNext(lens: seq<nat>, i: nat, l: nat)
    requires i < |lens|
    ensures Count(lens[..i + 1], l) == Count(lens[..i], l) + (if lens[i] == l then 1 else 0)
  {
    assert lens[..i + 1][..i] == lens[..i];
  }

  /** Stepping by `d` from `j` meets no other index with the same remainder. */
  lemma StepRemainder(j: nat, d: nat, r: nat, m: nat)
    requires d > 0 && r < d && j % d == r
    ensures (j + d) % d == r
    ensures j <= m < j + d ==> (m % d == r <==> m == j)
  {
    var q := j / d;
    assert j == q * d + r;
    MulSucc(q, d);
    DivModIs(j + d, d, q + 1, r);
    if j < m < j + d {
      if m < q * d + d {
        DivModIs(m, d, q, m - q * d);
      } else {
        DivModIs(m, d, q + 1, m - q * d - d);
      }
    }
  }

  lemma LowStart(j: nat, d: nat, m: nat)
    requires d > 0 && j < d
    ensures j % d == j
    ensures m < j ==> m % d != j
  {
    DivModIs(j, d, 0, j);
    if m < j {
      DivModIs(m, d, 0, m);
    }
  }

  // ----- the tables

  class Table {
    const fast: array<nat>
    const firstcode: array<nat>
    const maxcode: array<nat>
    const firstsymbol: array<nat>
    const size: array<nat>
    const value: array<nat>

    ghost predicate Valid()
    {
      && fast.Length == FAST_SIZE && firstcode.Length == 16 && maxcode.Length == 17
      && firstsymbol.Length == 16 && size.Length == MAX_SYMBOLS && value.Length == MAX_SYMBOLS
      && fast != firstcode && fast != maxcode && fast != firstsymbol && fast != size && fast != value
      && firstcode != maxcode && firstcode != firstsymbol && firstcode != size && firstcode != value
      && maxcode != firstsymbol && maxcode != size && maxcode != value
      && firstsymbol != size && firstsymbol != value && size != value
    }

    ghost function Arrays(): set<object>
    {
      {fast, firstcode, maxcode, firstsymbol, size, value}
    }

    constructor ()
      ensures Valid() && fresh(Arrays())
    {
      fast := new nat[FAST_SIZE];
      firstcode := new nat[16];
      maxcode := new nat[17];
      firstsymbol := new nat[16];
      size := new nat[MAX_SYMBOLS];
      value := new nat[MAX_SYMBOLS];
    }

    /** The first `n` rows of the per-length tables. */
    ghost predicate CodesReady(lens: seq<nat>, n: nat)
      requires Valid() && n <= 16
      reads firstcode, maxcode, firstsymbol
    {
      forall l :: 1 <= l < n ==>
        firstcode[l] == FirstCode(lens, l) && firstsymbol[l] == FirstSymbol(lens, l) && maxcode[l] == Limit(lens, l)
    }

    /** The symbols below `n` are filed. */
    ghost predicate SymbolsReady(lens: seq<nat>, n: nat)
      requires Valid() && n <= |lens|
      reads size, value
    {
      forall i: nat :: i < n && lens[i] > 0 ==>
        Slot(lens, i) < MAX_SYMBOLS && size[Slot(lens, i)] == lens[i] && value[Slot(lens, i)] == i
    }

    /** The fast table knows exactly the short codes among the first `n` symbols. */
    ghost predicate FastReady(lens: seq<nat>, n: nat)
      requires Valid() && n <= |lens|
      reads fast
    {
      && (forall j: nat, i: nat :: j < FAST_SIZE && i < n && FastMatch(lens, j, i) ==> fast[j] == FastEntry(lens, i))
      && (forall j: nat :: j < FAST_SIZE && fast[j] != 0 ==> exists i: nat :: i < n && FastMatch(lens, j, i))
    }

    /** The tables are those of the canonical code with these lengths. */
    ghost predicate Built(lens: seq<nat>)
      reads Arrays()
    {
      && Valid() && SizeList(lens) && Decodable(lens)
      && CodesReady(lens, 16) && maxcode[16] == WINDOW
      && SymbolsReady(lens, |lens|) && FastReady(lens, |lens|)
    }

    method Build(sizelist: seq<nat>) returns (ok: bool)
      requires Valid() && SizeList(sizelist)
      modifies Arrays()
      ensures ok <==> Kraft(sizelist) <= WINDOW
      ensures ok ==> Built(sizelist)
    {
      hide FirstCode, Count, FirstSymbol, Kraft, FastMatch, Slot;
      for j := 0 to FAST_SIZE
        invariant forall m :: 0 <= m < j ==> fast[m] == 0
      {
        fast[j] := 0;
      }
      var sizes := CountSizes(sizelist);
      var next_code := new nat[16];
      ok := AssignCodes(sizelist, sizes, next_code);
      if ok {
        maxcode[16] := 0x10000;
        assert CodesReady(sizelist, 16);
        FileSymbols(sizelist, next_code);
      }
    }

    static method CountSizes(sizelist: seq<nat>) returns (sizes: array<nat>)
      requires SizeList(sizelist)
      ensures fresh(sizes) && sizes.Length == 17
      ensures forall l :: 0 <= l < 17 ==> sizes[l] == Used(sizelist, l)
    {
      hide Count;
      sizes := new nat[17](_ => 0);
      CountNone();
      for i := 0 to |sizelist|
        invariant forall l :: 0 <= l < 17 ==> sizes[l] == Count(sizelist[..i], l)
      {
        forall l | 0 <= l < 17
          ensures Count(sizelist[..i + 1], l) == Count(sizelist[..i], l) + (if sizelist[i] == l then 1 else 0)
        {
          CountNext(sizelist, i, l);
        }
        sizes[sizelist[i]] := sizes[sizelist[i]] + 1;
      }
      assert sizelist[..|sizelist|] == sizelist;
      sizes[0] := 0;
    }

    method AssignCodes(ghost lens: seq<nat>, sizes: array<nat>, next_code: array<nat>) returns (ok: bool)
      requires Valid() && SizeList(lens)
      requires sizes.Length == 17 && next_code.Length == 16
      requires next_code != sizes && next_code != firstcode && next_code != maxcode && next_code != firstsymbol
      requires sizes != firstcode && sizes != maxcode && sizes != firstsymbol
      requires forall l :: 0 <= l < 17 ==> sizes[l] == Used(lens, l)
      modifies firstcode, maxcode, firstsymbol, next_code
      ensures ok <==> Kraft(lens) <= WINDOW
      ensures ok ==> CodesReady(lens, 16)
      ensures ok ==> forall l :: 1 <= l < 16 ==> next_code[l] == FirstCode(lens, l)
    {
      hide FirstCode, Used, EndCode, Limit, FirstSymbol, Kraft, Pow2;
      for i := 1 to 16
      {
        if sizes[i] > Pow2(i) {
          EndCodeIs(lens, i);
          TooManyCodes(lens, i);
          return false;
        }
      }
      var code, k := 0, 0;
      FirstCodeOne(lens);
      for i := 1 to 16
        invariant code == FirstCode(lens, i) <= Pow2(i) && k == FirstSymbol(lens, i)
        invariant forall l :: 0 <= l < 17 ==> sizes[l] == Used(lens, l)
        invariant CodesReady(lens, i)
        invariant forall l :: 1 <= l < i ==> next_code[l] == FirstCode(lens, l)
        invariant forall l :: 1 <= l < i ==> EndCode(lens, l) <= Pow2(l)
      {
        FitsWord(lens, i);
        EndCodeIs(lens, i);
        NextRow(lens, i);
        next_code[i] := code;
        firstcode[i] := code % 0x10000;
        firstsymbol[i] := k % 0x10000;
        code := code + sizes[i];
        if sizes[i] != 0 {
          if code - 1 >= Pow2(i) {
            TooManyCodes(lens, i);
            return false;
          }
        }
        maxcode[i] := code * Pow2(16 - i);
        code := code * 2;
        k := k + sizes[i];
      }
      AllCodesFit(lens);
      ok := true;
    }

    method FileSymbols(sizelist: seq<nat>, next_code: array<nat>)
      requires Valid() && SizeList(sizelist) && Decodable(sizelist)
      requires CodesReady(sizelist, 16)
      requires forall j :: 0 <= j < FAST_SIZE ==> fast[j] == 0
      requires next_code.Length == 16
      requires next_code != fast && next_code != size && next_code != value
      requires next_code != firstcode && next_code != firstsymbol && next_code != maxcode
      requires forall l :: 1 <= l < 16 ==> next_code[l] == FirstCode(sizelist, l)
      modifies fast, size, value, next_code
      ensures SymbolsReady(sizelist, |sizelist|) && FastReady(sizelist, |sizelist|)
    {
      hide FirstCode, Count, FirstSymbol, Kraft, FastMatch, Limit;
      ghost var lens := sizelist;
      CountNone();
      for i := 0 to |sizelist|
        invariant CodesReady(lens, 16)
        invariant forall l :: 1 <= l < 16 ==> next_code[l] == FirstCode(lens, l) + Count(lens[..i], l)
        invariant SymbolsReady(lens, i) && FastReady(lens, i)
      {
        var s := sizelist[i];
        if s != 0 {
          var code := next_code[s];
          assert code == Code(lens, i);
          FileOne(lens, i, code - firstcode[s] + firstsymbol[s], s);
          FastOne(lens, i, code, s);
          next_code[s] := code + 1;
        } else {
          FastUnused(lens, i);
        }
        forall l | 1 <= l < 16
          ensures Count(lens[..i + 1], l) == Count(lens[..i], l) + (if s == l then 1 else 0)
        {
          CountNext(lens, i, l);
        }
      }
    }

    /** File symbol `i`, whose slot is `c`. */
    method FileOne(ghost lens: seq<nat>, i: nat, c: nat, s: nat)
      requires Valid() && SizeList(lens) && i < |lens| && lens[i] == s > 0
      requires c == Slot(lens, i)
      requires SymbolsReady(lens, i)
      modifies size, value
      ensures SymbolsReady(lens, i + 1)
    {
      hide FirstSymbol, Count;
      SlotBound(lens, i);
      size[c] := s;
      value[c] := i;
      forall m: nat | m < i && lens[m] > 0
        ensures Slot(lens, m) != c
      {
        SlotUnique(lens, i, m);
      }
    }

    /** Enter symbol `i`, whose code is `code`, into the fast table if it is short. */
    method FastOne(ghost lens: seq<nat>, i: nat, code: nat, s: nat)
      requires Valid() && SizeList(lens) && Decodable(lens) && i < |lens| && lens[i] == s > 0
      requires code == Code(lens, i)
      requires FastReady(lens, i)
      modifies fast
      ensures FastReady(lens, i + 1)
    {
      hide FirstCode, Count, Kraft, Reverse, BitReverseN;
      var fastv := Or(i, s * 512) % 0x10000;
      FastWord(i, s);
      if s <= FAST_BITS {
        BitReverseNCorrect(code, s);
        FillFast(lens, i, BitReverseN(code, s), s, fastv);
      } else {
        FastUnused(lens, i);
      }
    }

    method FillFast(ghost lens: seq<nat>, ghost i: nat, start: nat, s: nat, fastv: nat)
      requires Valid() && SizeList(lens) && Decodable(lens) && i < |lens| && lens[i] == s && 0 < s <= FAST_BITS
      requires start == Reverse(Code(lens, i), s) && fastv == FastEntry(lens, i)
      requires FastReady(lens, i)
      modifies fast
      ensures FastReady(lens, i + 1)
    {
      hide FirstCode, Count, Kraft, Reverse, Code;
      ReverseBound(Code(lens, i), s);
      var j := start;
      ghost var d := Pow2(s);
      forall m: nat ensures m < j ==> m % d != start {
        LowStart(start, d, m);
      }
      LowStart(start, d, 0);
      while j < FAST_SIZE
        invariant j % d == start
        invariant forall m: nat :: m < FAST_SIZE && m < j && m % d == start ==> fast[m] == fastv
        invariant forall m: nat :: m < FAST_SIZE && !(m < j && m % d == start) ==> fast[m] == old(fast[m])
        decreases FAST_SIZE - j
      {
        fast[j] := fastv;
        forall m: nat ensures (j + d) % d == start && (j <= m < j + d ==> (m % d == start <==> m == j)) {
          StepRemainder(j, d, start, m);
        }
        j := j + Pow2(s);
      }
      forall m: nat | m < FAST_SIZE
        ensures m % d == start ==> fast[m] == fastv && FastMatch(lens, m, i)
        ensures m % d != start ==> fast[m] == old(fast[m]) && !FastMatch(lens, m, i)
      {
        FastIndex(lens, m, i);
      }
      FastFilled(lens, i, old(fast[..]), fast[..]);
    }

    /** A symbol without a short code leaves the fast table as it is. */
    lemma FastUnused(lens: seq<nat>, i: nat)
      requires Valid() && i < |lens| && FastReady(lens, i)
      requires lens[i] == 0 || lens[i] > FAST_BITS
      ensures FastReady(lens, i + 1)
    {
      hide FastWindow, Code;
    }
  }

  /** The new fast table answers for symbol `i` and still for the symbols before it. */
  lemma FastFilled(lens: seq<nat>, i: nat, before: seq<nat>, after: seq<nat>)
    requires i < |lens| && |before| == |after| == FAST_SIZE
    requires forall j: nat, m: nat :: j < FAST_SIZE && m < i && FastMatch(lens, j, m) ==>
               before[j] == FastEntry(lens, m)
    requires forall j: nat :: j < FAST_SIZE && before[j] != 0 ==> exists m: nat :: m < i && FastMatch(lens, j, m)
    requires forall j: nat :: j < FAST_SIZE ==>
               if FastMatch(lens, j, i) then after[j] == FastEntry(lens, i) else after[j] == before[j]
    ensures forall j: nat, m: nat :: j < FAST_SIZE && m < i + 1 && FastMatch(lens, j, m) ==>
              after[j] == FastEntry(lens, m)
    ensures forall j: nat :: j < FAST_SIZE && after[j] != 0 ==> exists m: nat :: m < i + 1 && FastMatch(lens, j, m)
  {
    hide FastWindow, Code, Matches, FastEntry;
    forall j: nat, m: nat | j < FAST_SIZE && m < i + 1 && FastMatch(lens, j, m)
      ensures after[j] == FastEntry(lens, m)
    {
      if FastMatch(lens, j, i) {
        MatchUnique(lens, FastWindow(j), i, m);
      }
    }
  }

  lemma CountNone()
    ensures forall lens: seq<nat>, l: nat :: Count(lens[..0], l) == 0
  {
  }
}
