/** The codes a dynamic block brings along: section 3.2.7 of RFC 1951, from the writer's side. The
    reader accepts exactly the headers that can be written so, as what they say. */
module DeflateHeader {
  import opened Words
  import opened BitStream
  import opened Huffman
  import opened ZBuf
  import opened InflateSpec
  import opened BitWriter
  import opened Deflate
  import opened ZlibRoundTrip

  /** The bits of a symbol in the canonical code with these lengths. */
  function Said(lens: seq<nat>, i: nat): (r: seq<Bit>)
    requires i < |lens|
    ensures |r| == lens[i]
  {
    CodeBits(Code(lens, i), lens[i])
  }

  // ----- the lengths of a dynamic block: section 3.2.7

  /** The order of the code-length lengths: the three repeat codes, zero, then outwards from eight. */
  function Order(i: nat): (d: nat)
    requires i < 19
    ensures d < 19
  {
    if i < 3 then 16 + i else if i == 3 then 0 else if i % 2 == 0 then 8 + (i - 4) / 2 else 7 - (i - 5) / 2
  }

  function PlaceOf(d: nat): (i: nat)
    requires d < 19
    ensures i < 19 && Order(i) == d
  {
    if d >= 16 then d - 16 else if d == 0 then 3 else if d >= 8 then 4 + 2 * (d - 8) else 5 + 2 * (7 - d)
  }

  lemma OrderOnce(i: nat)
    requires i < 19
    ensures PlaceOf(Order(i)) == i
  {
  }

  /** The reader's table is this order. */
  lemma DezigzagIs(i: nat)
    requires i < 19
    ensures Dezigzag(i) == Order(i)
  {
  }

  /** The first `n` code-length lengths, three bits each. */
  function SizesSaid(cl: seq<nat>, n: nat): (r: seq<Bit>)
    requires |cl| == 19 && n <= 19
    ensures |r| == 3 * n
  {
    if n == 0 then [] else SizesSaid(cl, n - 1) + ToBits(cl[Order(n - 1)], 3)
  }

  ghost predicate SmallSizes(cl: seq<nat>)
  {
    |cl| == 19 && forall d :: 0 <= d < 19 ==> cl[d] <= 7
  }

  lemma {:induction false} SizesHeard(s: seq<Byte>, at: nat, cl: seq<nat>, n: nat)
    requires SmallSizes(cl) && n <= 19 && BitsAt(s, at, SizesSaid(cl, n))
    ensures forall d: nat :: d < 19 ==> CodeLengthSizes(s, at, n)[d] == if PlaceOf(d) < n then cl[d] else 0
  {
    hide BitsAt, ToBits, Lsb, Order, PlaceOf, Dezigzag, CodeLengthSizes, Pow2;
    if n == 0 {
      NoSizes(s, at);
    } else {
      var o := Order(n - 1);
      BitsAtSplit(s, at, SizesSaid(cl, n - 1), ToBits(cl[o], 3));
      SizesHeard(s, at, cl, n - 1);
      Pow2Values();
      LsbOfBits(s, at + 3 * (n - 1), cl[o], 3);
      DezigzagIs(n - 1);
      OrderOnce(n - 1);
      OneMoreSize(s, at, n);
    }
  }

  lemma NoSizes(s: seq<Byte>, at: nat)
    ensures forall d: nat :: d < 19 ==> CodeLengthSizes(s, at, 0)[d] == 0
  {
  }

  lemma OneMoreSize(s: seq<Byte>, at: nat, n: nat)
    requires 0 < n <= 19
    ensures CodeLengthSizes(s, at, n) == CodeLengthSizes(s, at, n - 1)[Dezigzag(n - 1) := Lsb(s, at + 3 * (n - 1), 3)]
  {
    hide Lsb, Dezigzag;
  }

  /** The code-length alphabet. */
  datatype Op = Length(x: nat) | CopyLast(n: nat) | FewZeros(n: nat) | ManyZeros(n: nat)

  function OpSymbol(op: Op): nat
  {
    match op case Length(x) => x case CopyLast(_) => 16 case FewZeros(_) => 17 case ManyZeros(_) => 18
  }

  predicate OpInRange(op: Op)
  {
    match op
    case Length(x) => x <= 15
    case CopyLast(n) => 3 <= n <= 6
    case FewZeros(n) => 3 <= n <= 10
    case ManyZeros(n) => 11 <= n <= 138
  }

  function OpExtra(op: Op): seq<Bit>
    requires OpInRange(op)
  {
    match op
    case Length(_) => []
    case CopyLast(n) => ToBits(n - 3, 2)
    case FewZeros(n) => ToBits(n - 3, 3)
    case ManyZeros(n) => ToBits(n - 11, 7)
  }

  /** The lengths after one more symbol. */
  function Grown(got: seq<nat>, op: Op): (r: seq<nat>)
    requires op.CopyLast? ==> got != []
  {
    match op
    case Length(x) => got + [x]
    case CopyLast(n) => got + Fill(got[|got| - 1], n)
    case _ => got + Fill(0, op.n)
  }

  ghost predicate Spells(cl: seq<nat>, got: seq<nat>, ops: seq<Op>, all: seq<nat>)
    requires |cl| == 19
    decreases |ops|
  {
    if ops == [] then got == all
    else
      && OpInRange(ops[0]) && cl[OpSymbol(ops[0])] > 0 && (ops[0].CopyLast? ==> got != [])
      && Spells(cl, Grown(got, ops[0]), ops[1..], all)
  }

  ghost function OpSaid(cl: seq<nat>, op: Op): seq<Bit>
    requires |cl| == 19 && OpInRange(op)
  {
    Said(cl, OpSymbol(op)) + OpExtra(op)
  }

  ghost function OpsSaid(cl: seq<nat>, got: seq<nat>, ops: seq<Op>, all: seq<nat>): seq<Bit>
    requires |cl| == 19 && Spells(cl, got, ops, all)
    decreases |ops|
  {
    if ops == [] then [] else OpSaid(cl, ops[0]) + OpsSaid(cl, Grown(got, ops[0]), ops[1..], all)
  }

  lemma {:induction false} SpellsGrow(cl: seq<nat>, got: seq<nat>, ops: seq<Op>, all: seq<nat>)
    requires |cl| == 19 && Spells(cl, got, ops, all)
    ensures |got| <= |all| && (ops != [] ==> |Grown(got, ops[0])| <= |all| && |got| < |all|)
    decreases |ops|
  {
    if ops != [] {
      SpellsGrow(cl, Grown(got, ops[0]), ops[1..], all);
    }
  }

  ghost predicate Lens15(lens: seq<nat>)
  {
    forall i :: 0 <= i < |lens| ==> lens[i] <= 15
  }

  /** One symbol of the list of lengths. */
  lemma OpHeard(s: seq<Byte>, cl: seq<nat>, at: nat, got: seq<nat>, op: Op, total: nat)
    requires SmallSizes(cl) && Decodable(cl) && OpInRange(op) && cl[OpSymbol(op)] > 0 && (op.CopyLast? ==> got != [])
    requires Lens15(got) && |got| < total && |Grown(got, op)| <= total
    requires BitsAt(s, at, OpSaid(cl, op))
    ensures Lens15(Grown(got, op))
    ensures CodeLengths(s, cl, at, got, total) == CodeLengths(s, cl, at + |OpSaid(cl, op)|, Grown(got, op), total)
  {
    hide BitsAt, ToBits, Lsb, Symbol, Window, Code, CodeBits, Kraft, Pow2, CodeLengths;
    Pow2Values();
    BitsAtSplit(s, at, Said(cl, OpSymbol(op)), OpExtra(op));
    CodeRead(s, at, cl, OpSymbol(op));
    var p := at + cl[OpSymbol(op)];
    match op
    case Length(x) =>
      LengthStep(s, cl, at, got, x, total);
    case CopyLast(n) =>
      LsbOfBits(s, p, n - 3, 2);
      RepeatStep(s, cl, at, got, 16, 2, n, total);
    case FewZeros(n) =>
      LsbOfBits(s, p, n - 3, 3);
      RepeatStep(s, cl, at, got, 17, 3, n, total);
    case ManyZeros(n) =>
      LsbOfBits(s, p, n - 11, 7);
      RepeatStep(s, cl, at, got, 18, 7, n, total);
  }

  lemma LengthStep(s: seq<Byte>, cl: seq<nat>, at: nat, got: seq<nat>, x: nat, total: nat)
    requires |cl| == 19 && Lens15(got) && |got| < total && x <= 15 && Symbol(cl, Window(s, at)) == x
    ensures CodeLengths(s, cl, at, got, total) == CodeLengths(s, cl, at + cl[x], got + [x], total)
  {
    hide Symbol, Window, Lsb;
  }

  lemma RepeatStep(s: seq<Byte>, cl: seq<nat>, at: nat, got: seq<nat>, c: nat, bits: nat, n: nat, total: nat)
    requires |cl| == 19 && Lens15(got) && 16 <= c <= 18 && Symbol(cl, Window(s, at)) == c && (c == 16 ==> got != [])
    requires bits == (if c == 16 then 2 else if c == 17 then 3 else 7)
    requires Lsb(s, at + cl[c], bits) + (if c == 18 then 11 else 3) == n && |got| + n <= total && |got| < total
    ensures CodeLengths(s, cl, at, got, total)
         == CodeLengths(s, cl, at + cl[c] + bits, got + Fill(if c == 16 then got[|got| - 1] else 0, n), total)
  {
    hide Symbol, Window, Lsb;
  }

  lemma {:induction false} OpsHeard(s: seq<Byte>, cl: seq<nat>, at: nat, got: seq<nat>, ops: seq<Op>, all: seq<nat>)
    requires SmallSizes(cl) && Decodable(cl) && Lens15(got) && Spells(cl, got, ops, all)
    requires BitsAt(s, at, OpsSaid(cl, got, ops, all))
    ensures |got| <= |all|
    ensures CodeLengths(s, cl, at, got, |all|) == LengthsRead(all, at + |OpsSaid(cl, got, ops, all)|)
    decreases |ops|
  {
    hide BitsAt, Symbol, Window, Kraft, OpSaid, Grown;
    SpellsGrow(cl, got, ops, all);
    if ops != [] {
      hide CodeLengths;
      var op := ops[0];
      BitsAtSplit(s, at, OpSaid(cl, op), OpsSaid(cl, Grown(got, op), ops[1..], all));
      OpHeard(s, cl, at, got, op, |all|);
      OpsHeard(s, cl, at + |OpSaid(cl, op)|, Grown(got, op), ops[1..], all);
    }
  }

  /** The two codes of a dynamic block, the code-length code and the symbols that spell them. */
  datatype Codes = Codes(lens: seq<nat>, dlens: seq<nat>, cl: seq<nat>, hclen: nat, ops: seq<Op>)

  ghost predicate Proper(c: Codes)
  {
    && 257 <= |c.lens| <= 288 && 1 <= |c.dlens| <= 32 && Lens15(c.lens) && Lens15(c.dlens)
    && Decodable(c.lens) && Decodable(c.dlens) && SmallSizes(c.cl) && Decodable(c.cl)
    && 4 <= c.hclen <= 19 && (forall d: nat :: d < 19 && c.cl[d] > 0 ==> PlaceOf(d) < c.hclen)
    && Spells(c.cl, [], c.ops, c.lens + c.dlens)
  }

  ghost function CountsSaid(c: Codes): (r: seq<Bit>)
    requires Proper(c)
    ensures |r| == 14
  {
    ToBits(|c.lens| - 257, 5) + ToBits(|c.dlens| - 1, 5) + ToBits(c.hclen - 4, 4)
  }

  ghost function HeaderSaid(c: Codes): seq<Bit>
    requires Proper(c)
  {
    CountsSaid(c) + SizesSaid(c.cl, c.hclen) + OpsSaid(c.cl, [], c.ops, c.lens + c.dlens)
  }

  lemma CountsHeard(s: seq<Byte>, at: nat, c: Codes)
    requires Proper(c) && BitsAt(s, at, CountsSaid(c))
    ensures Lsb(s, at, 5) + 257 == |c.lens| && Lsb(s, at + 5, 5) + 1 == |c.dlens| && Lsb(s, at + 10, 4) + 4 == c.hclen
  {
    hide BitsAt, ToBits, Lsb, Spells, Decodable, SmallSizes, Lens15, Pow2;
    Pow2Values();
    var x, y, z := ToBits(|c.lens| - 257, 5), ToBits(|c.dlens| - 1, 5), ToBits(c.hclen - 4, 4);
    BitsAtSplit(s, at, x + y, z);
    BitsAtSplit(s, at, x, y);
    LsbOfBits(s, at, |c.lens| - 257, 5);
    LsbOfBits(s, at + 5, |c.dlens| - 1, 5);
    LsbOfBits(s, at + 10, c.hclen - 4, 4);
  }

  lemma WholeSizes(s: seq<Byte>, at: nat, c: Codes)
    requires Proper(c) && BitsAt(s, at, SizesSaid(c.cl, c.hclen))
    ensures CodeLengthSizes(s, at, c.hclen) == c.cl
  {
    hide BitsAt, CodeLengthSizes, PlaceOf, SizesSaid, Spells, Kraft;
    SizesHeard(s, at, c.cl, c.hclen);
  }

  /** For all pairs of codes and every way to spell their lengths: the header is read as the codes. */
  lemma HeaderHeard(s: seq<Byte>, at: nat, c: Codes)
    requires Proper(c) && BitsAt(s, at, HeaderSaid(c))
    ensures DynamicHeader(s, at) == Header(c.lens, c.dlens, at + |HeaderSaid(c)|)
  {
    hide BitsAt, ToBits, Lsb, Spells, Kraft, CountsSaid, SizesSaid, OpsSaid, CodeLengthSizes, CodeLengths, PlaceOf;
    var counts, sizes, ops := CountsSaid(c), SizesSaid(c.cl, c.hclen), OpsSaid(c.cl, [], c.ops, c.lens + c.dlens);
    BitsAtSplit(s, at, counts + sizes, ops);
    BitsAtSplit(s, at, counts, sizes);
    CountsHeard(s, at, c);
    WholeSizes(s, at + 14, c);
    OpsHeard(s, c.cl, at + 14 + 3 * c.hclen, [], c.ops, c.lens + c.dlens);
    assert (c.lens + c.dlens)[..|c.lens|] == c.lens && (c.lens + c.dlens)[|c.lens|..] == c.dlens;
  }

  // ----- nothing else is accepted as a header

  /** A symbol is seen only where its code is. */
  lemma SymbolSaid(s: seq<Byte>, p: nat, lens: seq<nat>)
    requires Symbol(lens, Window(s, p)) >= 0
    ensures var i := Symbol(lens, Window(s, p)); lens[i] > 0 && BitsAt(s, p, Said(lens, i))
  {
    hide Reverse, Lsb, Msb, ToBits, BitsAt, Symbol, Code;
    var i := Symbol(lens, Window(s, p));
    var l := lens[i];
    MsbPrefix(s, p, l, 16);
    ReverseLsb(s, p, l);
    LsbBound(s, p, l);
    ReverseTwice(Lsb(s, p, l), l);
    FieldSaid(s, p, l);
  }

  lemma {:induction false} SizesRead(s: seq<Byte>, at: nat, n: nat)
    requires n <= 19
    ensures forall d: nat :: d < 19 ==>
              CodeLengthSizes(s, at, n)[d] == if PlaceOf(d) < n then Lsb(s, at + 3 * PlaceOf(d), 3) else 0
  {
    hide Lsb, Order, PlaceOf, Dezigzag, CodeLengthSizes;
    if n == 0 {
      NoSizes(s, at);
    } else {
      SizesRead(s, at, n - 1);
      DezigzagIs(n - 1);
      OrderOnce(n - 1);
      OneMoreSize(s, at, n);
    }
  }

  lemma {:induction false} SizesFound(s: seq<Byte>, at: nat, n: nat, m: nat)
    requires m <= n <= 19
    ensures BitsAt(s, at, SizesSaid(CodeLengthSizes(s, at, n), m))
  {
    hide BitsAt, ToBits, Lsb, Order, CodeLengthSizes, PlaceOf;
    var cl := CodeLengthSizes(s, at, n);
    if m == 0 {
      NoBits(s, at);
    } else {
      SizesFound(s, at, n, m - 1);
      SizesRead(s, at, n);
      OrderOnce(m - 1);
      FieldSaid(s, at + 3 * (m - 1), 3);
      BitsAtSplit(s, at, SizesSaid(cl, m - 1), ToBits(cl[Order(m - 1)], 3));
    }
  }

  /** One symbol of a list that is read to its end. */
  lemma OpFound(s: seq<Byte>, cl: seq<nat>, at: nat, got: seq<nat>, total: nat) returns (op: Op)
    requires SmallSizes(cl) && Lens15(got) && |got| < total && CodeLengths(s, cl, at, got, total).LengthsRead?
    ensures OpInRange(op) && cl[OpSymbol(op)] > 0 && (op.CopyLast? ==> got != []) && BitsAt(s, at, OpSaid(cl, op))
    ensures |Grown(got, op)| <= total
  {
    hide BitsAt, ToBits, Lsb, Symbol, Window, Code, CodeBits, Pow2;
    var c := Symbol(cl, Window(s, at));
    SymbolSaid(s, at, cl);
    var p := at + cl[c];
    Pow2Values();
    LsbBound(s, p, 2);
    LsbBound(s, p, 3);
    LsbBound(s, p, 7);
    if c < 16 {
      op := Length(c);
      NoBits(s, p);
    } else if c == 16 {
      op := CopyLast(Lsb(s, p, 2) + 3);
      FieldSaid(s, p, 2);
    } else if c == 17 {
      op := FewZeros(Lsb(s, p, 3) + 3);
      FieldSaid(s, p, 3);
    } else {
      op := ManyZeros(Lsb(s, p, 7) + 11);
      FieldSaid(s, p, 7);
    }
    BitsAtSplit(s, at, Said(cl, OpSymbol(op)), OpExtra(op));
  }

  lemma {:induction false} OpsFound(s: seq<Byte>, cl: seq<nat>, at: nat, got: seq<nat>, total: nat)
    returns (ops: seq<Op>)
    requires SmallSizes(cl) && Decodable(cl) && Lens15(got) && |got| <= total
    requires CodeLengths(s, cl, at, got, total).LengthsRead?
    ensures var r := CodeLengths(s, cl, at, got, total);
            && Spells(cl, got, ops, r.lens)
            && BitsAt(s, at, OpsSaid(cl, got, ops, r.lens)) && r.at == at + |OpsSaid(cl, got, ops, r.lens)|
    decreases total - |got|
  {
    hide BitsAt, Symbol, Window, Kraft, OpSaid, OpSymbol, OpInRange, CodeLengths;
    if |got| == total {
      ops := [];
      LengthsEnd(s, cl, at, got, total);
      NoBits(s, at);
    } else {
      var op := OpFound(s, cl, at, got, total);
      OpHeard(s, cl, at, got, op, total);
      GrownMore(got, op);
      var rest := OpsFound(s, cl, at + |OpSaid(cl, op)|, Grown(got, op), total);
      ops := [op] + rest;
      assert ops[1..] == rest;
      var all := CodeLengths(s, cl, at, got, total).lens;
      BitsAtSplit(s, at, OpSaid(cl, op), OpsSaid(cl, Grown(got, op), rest, all));
    }
  }

  lemma GrownMore(got: seq<nat>, op: Op)
    requires OpInRange(op) && (op.CopyLast? ==> got != [])
    ensures |got| < |Grown(got, op)|
  {
  }

  lemma LengthsEnd(s: seq<Byte>, cl: seq<nat>, at: nat, got: seq<nat>, total: nat)
    requires |cl| == 19 && Lens15(got) && |got| == total
    ensures CodeLengths(s, cl, at, got, total) == LengthsRead(got, at)
  {
  }

  /** A header that is accepted is one that can be written. */
  lemma HeaderFound(s: seq<Byte>, at: nat) returns (c: Codes)
    requires DynamicHeader(s, at).Header?
    ensures Proper(c) && BitsAt(s, at, HeaderSaid(c))
    ensures DynamicHeader(s, at) == Header(c.lens, c.dlens, at + |HeaderSaid(c)|)
  {
    hide BitsAt, ToBits, Lsb, Spells, Kraft, SizesSaid, OpsSaid, CodeLengthSizes, CodeLengths, PlaceOf, Pow2;
    Pow2Values();
    LsbBound(s, at, 5);
    LsbBound(s, at + 5, 5);
    LsbBound(s, at + 10, 4);
    var hlit, hdist, hclen := Lsb(s, at, 5) + 257, Lsb(s, at + 5, 5) + 1, Lsb(s, at + 10, 4) + 4;
    var cl := CodeLengthSizes(s, at + 14, hclen);
    SizesRead(s, at + 14, hclen);
    SizesFound(s, at + 14, hclen, hclen);
    var ops := OpsFound(s, cl, at + 14 + 3 * hclen, [], hlit + hdist);
    var r := CodeLengths(s, cl, at + 14 + 3 * hclen, [], hlit + hdist);
    c := Codes(r.lens[..hlit], r.lens[hlit..], cl, hclen, ops);
    assert c.lens + c.dlens == r.lens;
    FieldSaid(s, at, 5);
    FieldSaid(s, at + 5, 5);
    FieldSaid(s, at + 10, 4);
    var x, y, z := ToBits(hlit - 257, 5), ToBits(hdist - 1, 5), ToBits(hclen - 4, 4);
    BitsAtSplit(s, at, x, y);
    BitsAtSplit(s, at, x + y, z);
    BitsAtSplit(s, at, CountsSaid(c), SizesSaid(cl, hclen));
    BitsAtSplit(s, at, CountsSaid(c) + SizesSaid(cl, hclen), OpsSaid(cl, [], ops, r.lens));
  }

  /** The reader accepts exactly the headers section 3.2.7 lets a writer write, as what they say. */
  lemma HeaderIff(s: seq<Byte>, at: nat, lens: seq<nat>, dlens: seq<nat>, end: nat)
    ensures DynamicHeader(s, at) == Header(lens, dlens, end) <==>
            exists c: Codes :: Proper(c) && c.lens == lens && c.dlens == dlens && BitsAt(s, at, HeaderSaid(c))
                               && end == at + |HeaderSaid(c)|
  {
    hide DynamicHeader, Proper, HeaderSaid, BitsAt;
    if DynamicHeader(s, at) == Header(lens, dlens, end) {
      var c := HeaderFound(s, at);
    }
    if c: Codes :| Proper(c) && c.lens == lens && c.dlens == dlens && BitsAt(s, at, HeaderSaid(c))
                   && end == at + |HeaderSaid(c)| {
      HeaderHeard(s, at, c);
    }
  }

  // ----- every pair of codes has a header

  /** Every pair of length lists has such a header: sixteen lengths of four bits and no repeats. */
  function PlainSizes(): seq<nat>
  {
    seq(19, d => if d < 16 then 4 else 0)
  }

  function PlainOps(all: seq<nat>): (r: seq<Op>)
    ensures |r| == |all|
  {
    seq(|all|, i requires 0 <= i < |all| => Length(all[i]))
  }

  lemma PlainKraft()
    ensures SmallSizes(PlainSizes()) && Decodable(PlainSizes())
  {
    var p := PlainSizes();
    PlainKraftTo(19);
    assert p[..19] == p;
  }

  lemma {:induction false} PlainKraftTo(n: nat)
    requires n <= 19
    ensures Lengths(PlainSizes()[..n]) && Kraft(PlainSizes()[..n]) == 4096 * if n <= 16 then n else 16
  {
    if n == 0 {
      assert PlainSizes()[..0] == [];
    } else {
      hide Kraft, Pow2;
      PlainKraftTo(n - 1);
      Pow2Values();
      KraftAppend(PlainSizes()[..n - 1], PlainSizes()[n - 1]);
      assert PlainSizes()[..n] == PlainSizes()[..n - 1] + [PlainSizes()[n - 1]];
    }
  }

  lemma {:induction false} PlainSpells(got: seq<nat>, all: seq<nat>)
    requires Lens15(all)
    ensures Spells(PlainSizes(), got, PlainOps(all), got + all)
    decreases |all|
  {
    hide PlainSizes;
    if all == [] {
      assert got + all == got;
    } else {
      assert PlainOps(all)[1..] == PlainOps(all[1..]);
      assert got + [all[0]] + all[1..] == got + all;
      PlainSpells(got + [all[0]], all[1..]);
      assert PlainSizes()[all[0]] > 0 by {
        PlainUsed(all[0]);
      }
    }
  }

  lemma PlainUsed(x: nat)
    requires x <= 15
    ensures PlainSizes()[x] == 4
  {
  }

  lemma EveryPair(lens: seq<nat>, dlens: seq<nat>)
    requires 257 <= |lens| <= 288 && 1 <= |dlens| <= 32 && Lens15(lens) && Lens15(dlens)
    requires Decodable(lens) && Decodable(dlens)
    ensures Proper(Codes(lens, dlens, PlainSizes(), 19, PlainOps(lens + dlens)))
  {
    hide PlainSizes, PlainOps, Spells, Kraft, PlaceOf;
    PlainKraft();
    PlainSpells([], lens + dlens);
    assert [] + (lens + dlens) == lens + dlens;
  }
}
