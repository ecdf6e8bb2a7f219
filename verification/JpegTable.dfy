/** `stbi__build_huffman`: from the sixteen counts of a DHT segment to decoding tables. */
module JpegTable {
  import opened Words
  import opened Huffman
  import opened JpegHuffman

  /** The size list of Annex C: `count[l - 1]` symbols of each length `l`. */
  function Sizes(count: seq<nat>, n: nat): (r: seq<nat>)
    requires n <= |count|
    ensures forall i :: 0 <= i < |r| ==> 1 <= r[i] <= n
  {
    if n == 0 then [] else Sizes(count, n - 1) + seq(count[n - 1], _ => n)
  }

  /** The number of symbols. */
  function Total(count: seq<nat>, n: nat): nat
    requires n <= |count|
  {
    if n == 0 then 0 else Total(count, n - 1) + count[n - 1]
  }

  datatype Outcome = Ok | BadLengths | PastTheArray

  lemma {:induction false} SizesInOrder(count: seq<nat>, n: nat)
    requires n <= |count|
    ensures forall i, j :: 0 <= i < j < |Sizes(count, n)| ==> Sizes(count, n)[i] <= Sizes(count, n)[j]
  {
    if n > 0 {
      SizesInOrder(count, n - 1);
      var a, b := Sizes(count, n - 1), seq(count[n - 1], _ => n);
      var r := a + b;
      assert Sizes(count, n) == r;
      forall i, j | 0 <= i < j < |r| ensures r[i] <= r[j] {
        if j < |a| {
          assert r[i] == a[i] && r[j] == a[j];
        } else {
          assert r[j] == n;
          assert i < |a| ==> r[i] == a[i];
        }
      }
    }
  }

  class Table {
    const fast: array<int>
    const code: array<int>
    const values: array<int>
    const size: array<int>
    const maxcode: array<int>
    const delta: array<int>

    ghost predicate Valid()
    {
      && fast.Length == FAST_SIZE && code.Length == 256 && values.Length == 256
      && size.Length == 257 && maxcode.Length == 18 && delta.Length == 17
      && fast != code && fast != values && fast != size && fast != maxcode
      && code != values && code != size && code != maxcode
      && values != size && values != maxcode && size != maxcode
      && delta != fast && delta != code && delta != values && delta != size && delta != maxcode
    }

    ghost function Arrays(): set<object>
    {
      {fast, code, values, size, maxcode, delta}
    }

    constructor ()
      ensures Valid() && fresh(Arrays())
    {
      fast := new int[FAST_SIZE];
      code := new int[256];
      values := new int[256];
      size := new int[257];
      maxcode := new int[18];
      delta := new int[17];
    }

    ghost predicate SizesReady(lens: seq<nat>)
      requires Valid()
      reads size
    {
      |lens| <= 256 && (forall i :: 0 <= i < |lens| ==> size[i] == lens[i]) && size[|lens|] == 0
    }

    /** Codes of the first `k` symbols. */
    ghost predicate CodesReady(lens: seq<nat>, k: nat)
      requires Valid() && k <= |lens| <= 256
      reads code
    {
      forall i: nat :: i < k ==> code[i] == Code(lens, i)
    }

    ghost predicate RowsReady(lens: seq<nat>, n: nat)
      requires Valid() && n <= 17
      reads maxcode, delta
    {
      forall l :: 1 <= l < n ==>
        maxcode[l] == Limit(lens, l) && delta[l] == FirstSymbol(lens, l) - FirstCode(lens, l)
    }

    ghost predicate FastReady(lens: seq<nat>, n: nat)
      requires Valid() && n <= |lens|
      reads fast
    {
      && (forall c: nat, i: nat :: c < FAST_SIZE && i < n && ShortMatch(lens, c, i) ==> fast[c] == i)
      && (forall c: nat :: c < FAST_SIZE && fast[c] != NOT_FAST ==> exists i: nat :: i < n && ShortMatch(lens, c, i))
    }

    /** The tables are those of the canonical code with these sizes. */
    ghost predicate Built(lens: seq<nat>)
      reads fast, size, maxcode, delta
    {
      && Valid() && Listed(lens) && Decodable(lens)
      && SizesReady(lens) && RowsReady(lens, 17) && maxcode[17] == 0xffff_ffff
      && forall c: nat :: c < FAST_SIZE ==> fast[c] == FastId(lens, c)
    }

    /** Nothing limits the number of symbols: past 256 of them the size list with its terminator leaves
        its array. */
    method Build(count: seq<nat>) returns (r: Outcome)
      requires Valid() && |count| == 16
      modifies fast, code, size, maxcode, delta
      ensures r.PastTheArray? <==> Total(count, 16) > 256
      ensures Total(count, 16) <= 256 ==> (r.Ok? <==> Kraft(Sizes(count, 16)) <= WINDOW)
      ensures r.Ok? ==> Built(Sizes(count, 16))
    {
      hide FirstCode, Count, FirstSymbol, Kraft, ShortMatch, Sizes, Total;
      SizesInOrder(count, 16);
      SizesTotal(count, 16);
      ghost var lens := Sizes(count, 16);
      var k, inside := ListSizes(count);
      if !inside {
        return PastTheArray;
      }
      var ok := AssignCodes(lens);
      if !ok {
        return BadLengths;
      }
      maxcode[17] := 0xffff_ffff;
      FillFast(lens, k);
      FastFinal(lens);
      r := Ok;
    }

    /** The size list with its terminator stays inside `size` exactly when the counts sum to at most 256. */
    method ListSizes(count: seq<nat>) returns (k: nat, inside: bool)
      requires Valid() && |count| == 16
      modifies size
      ensures inside <==> Total(count, 16) <= 256
      ensures inside ==> k == |Sizes(count, 16)| && SizesReady(Sizes(count, 16))
    {
      hide Sizes, Total;
      k := 0;
      SizesStart(count);
      SizesTotal(count, 0);
      SizesTotal(count, 16);
      for i := 0 to 16
        invariant k == |Sizes(count, i)| == Total(count, i) <= size.Length
        invariant forall m :: 0 <= m < k ==> size[m] == Sizes(count, i)[m]
      {
        SizesStep(count, i);
        SizesTotal(count, i + 1);
        TotalMono(count, i + 1);
        for j := 0 to count[i]
          invariant k == |Sizes(count, i)| + j <= size.Length
          invariant forall m :: 0 <= m < k ==> size[m] == Sizes(count, i + 1)[m]
        {
          if k >= size.Length {
            return k, false;
          }
          size[k] := i + 1;
          k := k + 1;
        }
      }
      if k >= size.Length {
        return k, false;
      }
      size[k] := 0;
      inside := true;
    }

    method AssignCodes(ghost lens: seq<nat>) returns (ok: bool)
      requires Valid() && Listed(lens) && SizesReady(lens)
      modifies code, maxcode, delta
      ensures ok <==> Kraft(lens) <= WINDOW
      ensures ok ==> RowsReady(lens, 17) && CodesReady(lens, |lens|)
    {
      hide FirstCode, Used, EndCode, Limit, FirstSymbol, Kraft, Pow2, Code, Decodable;
      var c, k := 0, 0;
      FirstRow(lens);
      for j := 1 to 17
        invariant c == FirstCode(lens, j) <= Pow2(j) && k == FirstSymbol(lens, j) <= |lens|
        invariant SizesReady(lens) && CodesReady(lens, k) && RowsReady(lens, j)
        invariant forall l :: 0 <= l < j ==> EndCode(lens, l) <= Pow2(l)
      {
        RowFacts(lens, j);
        delta[j] := k - c;
        if size[k] == j {
          c, k := AssignRow(lens, j, c, k);
          if c - 1 >= Pow2(j) {
            TooMany(lens, j);
            return false;
          }
          Pow2Mono(j, 16);
          Pow2Values();
        } else {
          EmptyRow(lens, j, k);
        }
        maxcode[j] := c * Pow2(16 - j);
        c := c * 2;
      }
      AllListed(lens, k);
      DecodableIff(lens);
      ok := true;
    }

    /** The symbols of length `j` get consecutive codes. */
    method AssignRow(ghost lens: seq<nat>, j: nat, c0: nat, k0: nat) returns (c: nat, k: nat)
      requires Valid() && Listed(lens) && SizesReady(lens) && 1 <= j <= 16
      requires c0 == FirstCode(lens, j) && k0 == FirstSymbol(lens, j) <= |lens| && CodesReady(lens, k0)
      requires size[k0] == j
      modifies code
      ensures k == FirstSymbol(lens, j + 1) <= |lens| && c == EndCode(lens, j) > 0
      ensures c <= 0x1_0000 ==> CodesReady(lens, k)
    {
      hide FirstCode, Used, FirstSymbol, Code, Listed, Limit, Pow2;
      c, k := c0, k0;
      ShorterFirst(lens, j);
      ShorterFirst(lens, j + 1);
      RowFacts(lens, j);
      while size[k] == j
        invariant k0 <= k <= |lens| && k <= FirstSymbol(lens, j + 1) && c == c0 + (k - k0)
        invariant SizesReady(lens) && (c <= 0x1_0000 ==> CodesReady(lens, k))
        invariant k > k0 || size[k] == j
        decreases |lens| - k
      {
        CodeInRow(lens, k);
        code[k] := c % 0x1_0000;
        k := k + 1;
        c := c + 1;
      }
    }

    method FillFast(ghost lens: seq<nat>, k: nat)
      requires Valid() && Listed(lens) && Decodable(lens) && SizesReady(lens) && CodesReady(lens, |lens|) && k == |lens|
      modifies fast
      ensures FastReady(lens, |lens|)
    {
      hide ShortMatch, Code, Kraft;
      for c := 0 to FAST_SIZE
        invariant forall m :: 0 <= m < c ==> fast[m] == NOT_FAST
      {
        fast[c] := NOT_FAST;
      }
      for i := 0 to k
        invariant FastReady(lens, i)
      {
        if size[i] <= FAST_BITS {
          FillOne(lens, i, code[i], size[i]);
        } else {
          LongCode(lens, i);
        }
      }
    }

    /** Enter symbol `i`, whose code is short, at every index it starts. */
    method FillOne(ghost lens: seq<nat>, i: nat, code_i: nat, s: nat)
      requires Valid() && Listed(lens) && Decodable(lens) && i < |lens| && s == lens[i] <= FAST_BITS
      requires code_i == Code(lens, i)
      requires FastReady(lens, i)
      modifies fast
      ensures FastReady(lens, i + 1)
    {
      hide ShortMatch, Code, Kraft, Pow2;
      var c, m := code_i * Pow2(FAST_BITS - s), Pow2(FAST_BITS - s);
      CodeRange(lens, i);
      for j := 0 to m
        invariant forall x :: 0 <= x < FAST_SIZE ==> fast[x] == if c <= x < c + j then i else old(fast[x])
      {
        fast[c + j] := i;
      }
      FastEntered(lens, i, old(fast[..]), fast[..], c, m);
    }

    lemma LongCode(lens: seq<nat>, i: nat)
      requires Valid() && i < |lens| && lens[i] > FAST_BITS && FastReady(lens, i)
      ensures FastReady(lens, i + 1)
    {
      hide Matches;
    }

    lemma FastFinal(lens: seq<nat>)
      requires Valid() && Listed(lens) && FastReady(lens, |lens|)
      ensures forall c: nat :: c < FAST_SIZE ==> fast[c] == FastId(lens, c)
    {
      hide Matches;
      forall c: nat | c < FAST_SIZE ensures fast[c] == FastId(lens, c) {
        if i: nat :| ShortMatch(lens, c, i) {
          ShortInRange(lens, c, i);
          var j: nat :| ShortMatch(lens, c, j) && FastId(lens, c) == j;
          ShortUnique(lens, c, i, j);
        }
      }
    }
  }

  lemma ShortInRange(lens: seq<nat>, c: nat, i: nat)
    requires ShortMatch(lens, c, i)
    ensures i < |lens|
  {
  }

  lemma FastEntered(lens: seq<nat>, i: nat, before: seq<int>, after: seq<int>, c: nat, m: nat)
    requires Listed(lens) && Decodable(lens) && i < |lens| && lens[i] <= FAST_BITS && |before| == |after| == FAST_SIZE
    requires c == Code(lens, i) * Pow2(FAST_BITS - lens[i]) && m == Pow2(FAST_BITS - lens[i])
    requires forall x: nat, j: nat :: x < FAST_SIZE && j < i && ShortMatch(lens, x, j) ==> before[x] == j
    requires forall x: nat :: x < FAST_SIZE && before[x] != NOT_FAST ==>
               exists j: nat :: j < i && ShortMatch(lens, x, j)
    requires forall x :: 0 <= x < FAST_SIZE ==> after[x] == if c <= x < c + m then i else before[x]
    ensures forall x: nat, j: nat :: x < FAST_SIZE && j < i + 1 && ShortMatch(lens, x, j) ==> after[x] == j
    ensures forall x: nat :: x < FAST_SIZE && after[x] != NOT_FAST ==>
              exists j: nat :: j < i + 1 && ShortMatch(lens, x, j)
  {
    hide ShortMatch, Code, Kraft, Pow2;
    forall x: nat, j: nat | x < FAST_SIZE && j < i + 1 && ShortMatch(lens, x, j) ensures after[x] == j {
      ShortRange(lens, x, i);
      if c <= x < c + m {
        ShortUnique(lens, x, i, j);
      }
    }
    forall x: nat | x < FAST_SIZE && after[x] != NOT_FAST ensures exists j: nat :: j < i + 1 && ShortMatch(lens, x, j) {
      ShortRange(lens, x, i);
    }
  }

  /** The indices a short code starts. */
  lemma ShortRange(lens: seq<nat>, x: nat, i: nat)
    requires i < |lens| && 0 < lens[i] <= FAST_BITS
    ensures var m := Pow2(FAST_BITS - lens[i]);
            ShortMatch(lens, x, i) <==> Code(lens, i) * m <= x < Code(lens, i) * m + m
  {
    hide Code, Pow2;
    var d := FAST_BITS - lens[i];
    Pow2Values();
    DivDiv(x * 128, 7, d);
    DivLt(x, Pow2(d), Code(lens, i));
    DivLt(x, Pow2(d), Code(lens, i) + 1);
    MulSucc(Code(lens, i), Pow2(d));
  }

  lemma CodeRange(lens: seq<nat>, i: nat)
    requires Decodable(lens) && i < |lens| && 0 < lens[i] <= FAST_BITS
    ensures Code(lens, i) * Pow2(FAST_BITS - lens[i]) + Pow2(FAST_BITS - lens[i]) <= FAST_SIZE
  {
    hide Code, Pow2, Kraft;
    CodeFits(lens, i);
    var d := Pow2(FAST_BITS - lens[i]);
    MulSucc(Code(lens, i), d);
    MulLe(Code(lens, i) + 1, Pow2(lens[i]), d);
    Pow2Add(lens[i], FAST_BITS - lens[i]);
    Pow2Values();
  }

  // ----- rows

  lemma SizesStart(count: seq<nat>)
    ensures Sizes(count, 0) == []
  {
  }

  lemma SizesStep(count: seq<nat>, i: nat)
    requires i < |count|
    ensures var a, r := Sizes(count, i), Sizes(count, i + 1);
            && |r| == |a| + count[i] && (forall m :: 0 <= m < |a| ==> r[m] == a[m])
            && (forall m :: |a| <= m < |r| ==> r[m] == i + 1)
  {
  }

  lemma {:induction false} SizesTotal(count: seq<nat>, n: nat)
    requires n <= |count|
    ensures |Sizes(count, n)| == Total(count, n)
  {
    if n > 0 {
      SizesTotal(count, n - 1);
    }
  }

  lemma {:induction false} TotalMono(count: seq<nat>, n: nat)
    requires n <= |count| == 16
    ensures Total(count, n) <= Total(count, 16)
    decreases 16 - n
  {
    if n < 16 {
      TotalMono(count, n + 1);
    }
  }

  lemma FirstRow(lens: seq<nat>)
    ensures FirstCode(lens, 1) == 0 && FirstSymbol(lens, 1) == 0 && Pow2(1) == 2 && EndCode(lens, 0) == 0
    ensures Pow2(0) == 1
  {
    assert FirstCode(lens, 0) == 0;
  }

  lemma RowFacts(lens: seq<nat>, l: nat)
    requires 1 <= l <= 16
    ensures EndCode(lens, l) == FirstCode(lens, l) + Used(lens, l)
    ensures FirstCode(lens, l + 1) == 2 * EndCode(lens, l)
    ensures FirstSymbol(lens, l + 1) == FirstSymbol(lens, l) + Used(lens, l)
    ensures Limit(lens, l) == EndCode(lens, l) * Pow2(16 - l)
    ensures Pow2(l + 1) == 2 * Pow2(l)
  {
  }

  lemma EmptyRow(lens: seq<nat>, j: nat, k: nat)
    requires Listed(lens) && 1 <= j <= 16 && k == FirstSymbol(lens, j) <= |lens|
    requires k == |lens| || lens[k] != j
    ensures Used(lens, j) == 0
  {
    hide FirstSymbol, Used;
    RowFacts(lens, j);
    ShorterFirst(lens, j);
    ShorterFirst(lens, j + 1);
    if k < |lens| {
      assert lens[k] >= j + 1;
    }
  }

  lemma TooMany(lens: seq<nat>, l: nat)
    requires Lengths(lens) && 1 <= l <= MAX_LENGTH && EndCode(lens, l) > Pow2(l)
    ensures Kraft(lens) > WINDOW
  {
    DecodableIff(lens);
  }

  lemma AllListed(lens: seq<nat>, k: nat)
    requires Listed(lens) && k == FirstSymbol(lens, 17)
    ensures k == |lens|
  {
    hide FirstSymbol;
    ShorterFirst(lens, 17);
    if lens != [] {
      assert lens[|lens| - 1] < 17;
    }
  }

  lemma CodeInRow(lens: seq<nat>, k: nat)
    requires Listed(lens) && k < |lens|
    ensures Code(lens, k) == FirstCode(lens, lens[k]) + (k - FirstSymbol(lens, lens[k]))
  {
    hide FirstCode, FirstSymbol, Count;
    RankIs(lens, k);
  }
}
