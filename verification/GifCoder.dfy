/** LZW coding as Appendix F of GIF89a describes it: strings of indices, each in the table of the
    coder, which gains the last string and the index behind it with every string sent. Whatever
    strings a coder cuts an image into, the decoder draws the image. */
module GifCoder {
  import opened Words
  import opened BitStream
  import opened Slices
  import opened BitWriter
  import opened GifLzw

  /** What a coder sends: a clear code, a string under its number, or the end code. */
  datatype Sent = Clear | Piece(w: seq<Byte>, code: nat)

  /** The coder's table when it sends `w` behind the string `last`; there is no `last` after a clear code. */
  function Table(dict: seq<seq<Byte>>, last: seq<Byte>, w: seq<Byte>): seq<seq<Byte>>
    requires w != []
  {
    if last == [] then dict else dict + [last + [w[0]]]
  }

  /** Bits needed for a number. */
  function BitLength(n: nat): (b: nat)
    ensures n < Pow2(b) && (b > 0 ==> Pow2(b - 1) <= n)
  {
    if n == 0 then 0
    else
      Pow2Step(BitLength(n / 2) + 1);
      BitLength(n / 2) + 1
  }

  /** The number of bits of the next code: enough for the number of the next entry, at most twelve
      unless there are 4096 colours. */
  function Width(cs: nat, entries: nat, last: seq<Byte>): (b: nat)
  {
    var most := if cs < 12 then 12 else cs + 1;
    if last == [] then cs + 1 else if BitLength(entries) > most then most else BitLength(entries)
  }

  /** The pieces a coder may send. */
  ghost predicate MaySend(cs: nat, dict: seq<seq<Byte>>, last: seq<Byte>, items: seq<Sent>)
    decreases |items|
  {
    items != [] ==>
      match items[0]
      case Clear => MaySend(cs, Initial(cs), [], items[1..])
      case Piece(w, code) =>
        && w != []
        && var table := Table(dict, last, w);
        && code < |table| && table[code] == w && code < Pow2(Width(cs, |dict|, last))
        && MaySend(cs, table, w, items[1..])
  }

  /** From `at` on the data holds the codes of the pieces, and then the end code or too few bits for one. */
  ghost predicate Holds(data: seq<Byte>, at: nat, cs: nat, dict: seq<seq<Byte>>, last: seq<Byte>, items: seq<Sent>)
    requires MaySend(cs, dict, last, items)
    decreases |items|
  {
    var width := Width(cs, |dict|, last);
    if items == [] then at + width > 8 * |data| || BitsAt(data, at, ToBits(Pow2(cs) + 1, width))
    else
      && at + width <= 8 * |data|
      && match items[0]
         case Clear =>
           BitsAt(data, at, ToBits(Pow2(cs), width)) && Holds(data, at + width, cs, Initial(cs), [], items[1..])
         case Piece(w, code) =>
           BitsAt(data, at, ToBits(code, width)) && Holds(data, at + width, cs, Table(dict, last, w), w, items[1..])
  }

  /** The image the pieces cut up. */
  function Indices(items: seq<Sent>): seq<Byte>
  {
    if items == [] then [] else (if items[0].Clear? then [] else items[0].w) + Indices(items[1..])
  }

  /** The table has room: not too many pieces without a clear code. */
  predicate HasRoom(cs: nat, entries: nat, afresh: bool, items: seq<Sent>)
    decreases |items|
  {
    items != [] ==>
      match items[0]
      case Clear => HasRoom(cs, Pow2(cs) + 2, true, items[1..])
      case Piece(_, _) =>
        if afresh then HasRoom(cs, entries, false, items[1..])
        else entries < MAX_CODES && HasRoom(cs, entries + 1, false, items[1..])
  }

  // ----- the decoder's dictionary is the coder's table

  /** The decoder lags one string behind, and finds the missing index in the string it is told. */
  lemma SameTable(dict: seq<seq<Byte>>, prev: int, last: seq<Byte>, w: seq<Byte>, code: nat)
    requires -1 <= prev < |dict| && w != [] && last == (if prev < 0 then [] else dict[prev])
    requires prev >= 0 ==> last != []
    requires var table := Table(dict, last, w); code < |table| && table[code] == w
    ensures code <= |dict| && (prev < 0 ==> code < |dict|) && Extended(dict, prev, code) == Table(dict, last, w)
  {
    if prev >= 0 && code == |dict| {
      assert w == last + [w[0]];
      assert w[0] == last[0];
    }
  }

  /** The decoder's state stands for the coder's. */
  ghost predicate InStep(cs: nat, size: nat, dict: seq<seq<Byte>>, prev: int, last: seq<Byte>)
  {
    && 1 <= cs <= 12 && -1 <= prev < |dict| && last == (if prev < 0 then [] else dict[prev])
    && (prev >= 0 ==> last != []) && size == Width(cs, |dict|, last)
    && Pow2(cs) + 2 <= |dict| && dict[Pow2(cs)] == dict[Pow2(cs) + 1] == []
    && (prev < 0 ==> |dict| == Pow2(cs) + 2)
  }

  lemma BitLengthIs(n: nat, b: nat)
    requires b > 0 && Pow2(b - 1) <= n < Pow2(b)
    ensures BitLength(n) == b
  {
    hide BitLength, Pow2;
    var c := BitLength(n);
    Pow2Values();
    if c < b {
      Pow2Mono(c, b - 1);
    } else if c > b {
      Pow2Mono(b, c - 1);
    }
  }

  /** Both special codes fit the width. */
  lemma WidthHolds(cs: nat, entries: nat, last: seq<Byte>)
    requires 1 <= cs <= 12 && Pow2(cs) + 2 <= entries
    ensures 0 < Width(cs, entries, last) && Pow2(cs) + 1 < Pow2(Width(cs, entries, last))
  {
    hide BitLength, Pow2;
    Pow2Step(cs + 1);
    Pow2Values();
    Pow2Mono(1, cs);
    var w, b := Width(cs, entries, last), BitLength(entries);
    if b <= cs {
      Pow2Mono(b, cs);
    }
    if w > cs {
      Pow2Mono(cs + 1, w);
    }
  }

  /** The test on the mask keeps the width. */
  lemma WidthStep(cs: nat, n: nat, last: seq<Byte>, m: nat, w: seq<Byte>, size: nat)
    requires 1 <= cs <= 12 && Pow2(cs) + 2 <= n && size == Width(cs, n, last) && w != []
    requires if last == [] then n == Pow2(cs) + 2 && m == n else m == n + 1
    ensures Width(cs, m, w) == if MaskRule(m, size) then size + 1 else size
  {
    hide BitLength, Pow2;
    Pow2Step(cs + 1);
    Pow2Values();
    Pow2Mono(1, cs);
    if last == [] {
      FirstWidth(cs, m);
    } else {
      var most := if cs < 12 then 12 else cs + 1;
      var b := BitLength(n);
      if b > most {
        FullWidth(most, n, m);
      } else {
        NextWidth(b, n, m);
        if b <= 11 {
          Pow2Mono(b, 11);
        } else {
          Pow2Mono(12, b);
        }
      }
    }
  }

  lemma FirstWidth(cs: nat, m: nat)
    requires 1 <= cs <= 12 && m == Pow2(cs) + 2
    ensures if cs == 1 then BitLength(m) == 3 && MaskRule(m, 2) else BitLength(m) == cs + 1 && !MaskRule(m, cs + 1)
  {
    hide BitLength, Pow2;
    Pow2Values();
    Pow2Step(cs + 1);
    if cs == 1 {
      BitLengthIs(m, 3);
    } else {
      Pow2Mono(2, cs);
      BitLengthIs(m, cs + 1);
      DivModIs(m, Pow2(cs + 1), 0, m);
    }
  }

  lemma FullWidth(most: nat, n: nat, m: nat)
    requires most >= 12 && BitLength(n) > most && m == n + 1
    ensures BitLength(m) > most && m > 0xfff
  {
    hide BitLength, Pow2;
    Pow2Values();
    Pow2Mono(12, most);
    Pow2Mono(most, BitLength(n) - 1);
    if BitLength(m) <= most {
      Pow2Mono(BitLength(m), most);
    }
  }

  lemma NextWidth(b: nat, n: nat, m: nat)
    requires n > 0 && b == BitLength(n) && m == n + 1
    ensures if m == Pow2(b) then BitLength(m) == b + 1 && m % Pow2(b) == 0
            else BitLength(m) == b && m % Pow2(b) != 0
  {
    hide BitLength, Pow2;
    Pow2Step(b + 1);
    Pow2Values();
    if m == Pow2(b) {
      BitLengthIs(m, b + 1);
      DivModIs(m, Pow2(b), 1, 0);
    } else {
      BitLengthIs(m, b);
      DivModIs(m, Pow2(b), 0, m);
    }
  }

  // ----- one code

  lemma ClearHeard(cs: nat, size: nat, dict: seq<seq<Byte>>, prev: int, last: seq<Byte>)
    requires InStep(cs, size, dict, prev, last)
    ensures InStep(cs, cs + 1, Initial(cs), -1, [])
  {
    hide Pow2;
  }

  lemma PieceHeard(cs: nat, size: nat, dict: seq<seq<Byte>>, prev: int, last: seq<Byte>, w: seq<Byte>, code: nat,
                   out: seq<Byte>)
    requires InStep(cs, size, dict, prev, last) && w != []
    requires var table := Table(dict, last, w); code < |table| && table[code] == w
    ensures var t := OnCode(cs, MaskRule, code, size, dict, prev, false, out);
            if prev >= 0 && |dict| >= MAX_CODES then t == Stop(TooManyCodes)
            else
              && t.Go? && t.dict == Table(dict, last, w) && t.prev == code && t.out == out + w
              && InStep(cs, t.size, t.dict, code, w)
  {
    hide Pow2, BitLength, Width, MaskRule, Initial, Extended;
    WidthHolds(cs, |dict|, last);
    SameTable(dict, prev, last, w, code);
    var table := Table(dict, last, w);
    assert table[Pow2(cs)] == table[Pow2(cs) + 1] == [];
    WidthStep(cs, |dict|, last, |table|, w, size);
  }

  // ----- all codes

  ghost function Expected(cs: nat, entries: nat, afresh: bool, items: seq<Sent>, out: seq<Byte>): Raster
  {
    if HasRoom(cs, entries, afresh, items) then Drawn(out + Indices(items)) else TooManyCodes
  }

  ghost predicate Going(dict: seq<seq<Byte>>, prev: int, size: nat)
  {
    -1 <= prev < |dict| && size > 0
  }

  lemma RunEnds(data: seq<Byte>, cs: nat, at: nat, size: nat, dict: seq<seq<Byte>>, prev: int, first: bool,
                out: seq<Byte>)
    requires Going(dict, prev, size) && Pow2(cs) + 1 < Pow2(size)
    requires at + size > 8 * |data| || BitsAt(data, at, ToBits(Pow2(cs) + 1, size))
    ensures Run(data, cs, MaskRule, at, size, dict, prev, first, out) == Drawn(out)
  {
    hide Lsb, Pow2, MaskRule, Initial, BitsAt, ToBits;
    if at + size <= 8 * |data| {
      LsbOfBits(data, at, Pow2(cs) + 1, size);
    }
  }

  lemma RunClears(data: seq<Byte>, cs: nat, at: nat, size: nat, dict: seq<seq<Byte>>, prev: int, first: bool,
                  out: seq<Byte>)
    requires Going(dict, prev, size) && Pow2(cs) < Pow2(size)
    requires BitsAt(data, at, ToBits(Pow2(cs), size)) && at + size <= 8 * |data|
    ensures Run(data, cs, MaskRule, at, size, dict, prev, first, out)
         == Run(data, cs, MaskRule, at + size, cs + 1, Initial(cs), -1, false, out)
  {
    hide Lsb, Pow2, MaskRule, Initial, BitsAt, ToBits, Run;
    LsbOfBits(data, at, Pow2(cs), size);
    RunStep(data, cs, MaskRule, at, size, dict, prev, first, out);
  }

  lemma RunDraws(data: seq<Byte>, cs: nat, at: nat, size: nat, dict: seq<seq<Byte>>, prev: int, last: seq<Byte>,
                 w: seq<Byte>, code: nat, out: seq<Byte>) returns (next: nat)
    requires InStep(cs, size, dict, prev, last) && w != [] && size > 0 && code < Pow2(size)
    requires var table := Table(dict, last, w); code < |table| && table[code] == w
    requires BitsAt(data, at, ToBits(code, size)) && at + size <= 8 * |data|
    ensures prev >= 0 && |dict| >= MAX_CODES ==>
              Run(data, cs, MaskRule, at, size, dict, prev, false, out) == TooManyCodes
    ensures prev < 0 || |dict| < MAX_CODES ==>
              && next > 0 && InStep(cs, next, Table(dict, last, w), code, w)
              && Run(data, cs, MaskRule, at, size, dict, prev, false, out)
              == Run(data, cs, MaskRule, at + size, next, Table(dict, last, w), code, false, out + w)
  {
    hide Lsb, Pow2, MaskRule, Initial, BitsAt, ToBits, Run, OnCode, Table, Width;
    LsbOfBits(data, at, code, size);
    PieceHeard(cs, size, dict, prev, last, w, code, out);
    RunStep(data, cs, MaskRule, at, size, dict, prev, false, out);
    var t := OnCode(cs, MaskRule, code, size, dict, prev, false, out);
    next := if t.Go? then t.size else 0;
  }

  /** Whatever pieces the coder sends, the decoder draws them, as long as its table has room. */
  lemma {:induction false} Heard(data: seq<Byte>, cs: nat, at: nat, size: nat, dict: seq<seq<Byte>>, prev: int,
                                 first: bool, last: seq<Byte>, items: seq<Sent>, out: seq<Byte>)
    requires InStep(cs, size, dict, prev, last) && MaySend(cs, dict, last, items)
    requires first && items != [] ==> items[0].Clear?
    requires Holds(data, at, cs, dict, last, items)
    ensures size > 0
    ensures Run(data, cs, MaskRule, at, size, dict, prev, first, out) == Expected(cs, |dict|, prev < 0, items, out)
    decreases |items|
  {
    hide BitsAt, ToBits, Lsb, Pow2, Initial, Width, BitLength, Table, MaskRule, Run, InStep, MaySend, Holds, Expected;
    Unfold(cs, size, dict, prev, last);
    if items == [] {
      NoneLeft(data, at, cs, dict, last, items, prev < 0, out);
      RunEnds(data, cs, at, size, dict, prev, first, out);
    } else {
      var rest := items[1..];
      match items[0]
      case Clear =>
        ClearFirst(data, at, cs, dict, last, items, prev < 0, out);
        ClearHeard(cs, size, dict, prev, last);
        RunClears(data, cs, at, size, dict, prev, first, out);
        Heard(data, cs, at + size, cs + 1, Initial(cs), -1, false, [], rest, out);
      case Piece(w, code) =>
        PieceNotEmpty(cs, dict, last, items);
        PieceFirst(data, at, cs, dict, last, items, prev < 0, out);
        var next := RunDraws(data, cs, at, size, dict, prev, last, w, code, out);
        if prev < 0 || |dict| < MAX_CODES {
          Heard(data, cs, at + size, next, Table(dict, last, w), code, false, w, rest, out + w);
        }
    }
  }

  lemma NoneLeft(data: seq<Byte>, at: nat, cs: nat, dict: seq<seq<Byte>>, last: seq<Byte>, items: seq<Sent>,
                 afresh: bool, out: seq<Byte>)
    requires items == []
    ensures MaySend(cs, dict, last, items)
    ensures var width := Width(cs, |dict|, last);
            Holds(data, at, cs, dict, last, items) <==>
            at + width > 8 * |data| || BitsAt(data, at, ToBits(Pow2(cs) + 1, width))
    ensures Expected(cs, |dict|, afresh, items, out) == Drawn(out)
  {
    hide BitsAt, ToBits, Pow2, Width;
    assert out + [] == out;
  }

  lemma ClearFirst(data: seq<Byte>, at: nat, cs: nat, dict: seq<seq<Byte>>, last: seq<Byte>, items: seq<Sent>,
                   afresh: bool, out: seq<Byte>)
    requires items != [] && items[0].Clear?
    ensures MaySend(cs, dict, last, items) <==> MaySend(cs, Initial(cs), [], items[1..])
    ensures var width := Width(cs, |dict|, last);
            MaySend(cs, dict, last, items) ==>
              (Holds(data, at, cs, dict, last, items) <==>
               && at + width <= 8 * |data| && BitsAt(data, at, ToBits(Pow2(cs), width))
               && Holds(data, at + width, cs, Initial(cs), [], items[1..]))
    ensures Expected(cs, |dict|, afresh, items, out) == Expected(cs, |Initial(cs)|, true, items[1..], out)
  {
    hide Pow2, Initial, Width, ToBits, BitsAt;
    assert [] + Indices(items[1..]) == Indices(items[1..]);
  }

  lemma PieceFirst(data: seq<Byte>, at: nat, cs: nat, dict: seq<seq<Byte>>, last: seq<Byte>, items: seq<Sent>,
                   afresh: bool, out: seq<Byte>)
    requires items != [] && items[0].Piece? && items[0].w != [] && (afresh <==> last == [])
    ensures var w, code := items[0].w, items[0].code;
            var table, width := Table(dict, last, w), Width(cs, |dict|, last);
            && (MaySend(cs, dict, last, items) <==>
                code < |table| && table[code] == w && code < Pow2(width) && MaySend(cs, table, w, items[1..]))
            && (MaySend(cs, dict, last, items) ==>
                  (Holds(data, at, cs, dict, last, items) <==>
                   && at + width <= 8 * |data| && BitsAt(data, at, ToBits(code, width))
                   && Holds(data, at + width, cs, table, w, items[1..])))
            && Expected(cs, |dict|, afresh, items, out)
            == if !afresh && |dict| >= MAX_CODES then TooManyCodes
               else Expected(cs, |table|, false, items[1..], out + w)
  {
    hide Pow2, Initial, Width, ToBits, BitsAt;
    var w := items[0].w;
    assert out + (w + Indices(items[1..])) == out + w + Indices(items[1..]);
  }

  lemma PieceNotEmpty(cs: nat, dict: seq<seq<Byte>>, last: seq<Byte>, items: seq<Sent>)
    requires MaySend(cs, dict, last, items) && items != [] && items[0].Piece?
    ensures items[0].w != []
  {
    hide Pow2, Width, Table;
  }

  lemma Unfold(cs: nat, size: nat, dict: seq<seq<Byte>>, prev: int, last: seq<Byte>)
    requires InStep(cs, size, dict, prev, last)
    ensures Going(dict, prev, size) && size == Width(cs, |dict|, last) && Pow2(cs) + 1 < Pow2(size)
    ensures last == [] <==> prev < 0
  {
    hide Pow2, Width;
    WidthHolds(cs, |dict|, last);
  }

  // ----- whole rasters

  /** The raster of a coder that starts with a clear code, if it sends anything. */
  ghost predicate Coding(data: seq<Byte>, cs: nat, items: seq<Sent>)
  {
    && MaySend(cs, Initial(cs), [], items) && (items != [] ==> items[0].Clear?)
    && Holds(data, 0, cs, Initial(cs), [], items)
  }

  /** Any pieces and clear codes are decoded to the image they cut up, or refused for want of room. */
  lemma RasterHeard(data: seq<Byte>, cs: nat, items: seq<Sent>)
    requires 1 <= cs <= 12 && Coding(data, cs, items)
    ensures Decode(data, cs, MaskRule)
         == if HasRoom(cs, Pow2(cs) + 2, true, items) then Drawn(Indices(items)) else TooManyCodes
  {
    hide BitsAt, Pow2, Initial, Run, Holds, MaySend, InStep;
    StartInStep(cs);
    Heard(data, cs, 0, cs + 1, Initial(cs), -1, true, [], items, []);
    assert [] + Indices(items) == Indices(items);
  }

  lemma StartInStep(cs: nat)
    requires 1 <= cs <= 12
    ensures InStep(cs, cs + 1, Initial(cs), -1, [])
  {
    hide Pow2;
  }

  // ----- nothing else is drawn

  /** Every entry but the two special ones is a string. */
  ghost predicate Strings(cs: nat, dict: seq<seq<Byte>>)
  {
    forall c: nat :: c < |dict| && c != Pow2(cs) && c != Pow2(cs) + 1 ==> dict[c] != []
  }

  lemma PieceFound(cs: nat, size: nat, dict: seq<seq<Byte>>, prev: int, last: seq<Byte>, code: nat)
    requires InStep(cs, size, dict, prev, last) && Strings(cs, dict)
    requires code != Pow2(cs) && code != Pow2(cs) + 1 && code <= |dict| && (prev < 0 ==> code < |dict|)
    ensures var grown := Extended(dict, prev, code);
            && code < |grown| && grown[code] != [] && Table(dict, last, grown[code]) == grown && Strings(cs, grown)
  {
    hide Pow2, Width;
    var grown := Extended(dict, prev, code);
    if prev >= 0 && code == |dict| {
      assert grown[code] == last + [last[0]];
    } else {
      assert grown[code] == dict[code];
    }
  }

  /** A code that does not stop the decoder is a piece. */
  lemma TurnFound(cs: nat, size: nat, dict: seq<seq<Byte>>, prev: int, last: seq<Byte>, first: bool, code: nat,
                  out: seq<Byte>)
    requires InStep(cs, size, dict, prev, last) && Strings(cs, dict) && size > 0
    requires code != Pow2(cs) && code != Pow2(cs) + 1
    ensures var t := OnCode(cs, MaskRule, code, size, dict, prev, first, out);
            if t.Stop? then !t.r.Drawn?
            else
              && !first && (prev < 0 || |dict| < MAX_CODES) && code < |t.dict| && t.dict[code] != [] && t.prev == code
              && Table(dict, last, t.dict[code]) == t.dict && Strings(cs, t.dict) && t.out == out + t.dict[code]
  {
    hide Pow2, Width, MaskRule, Table, Extended;
    if code <= |dict| && (prev < 0 ==> code < |dict|) {
      PieceFound(cs, size, dict, prev, last, code);
    }
  }

  /** A picture that is drawn is one that a coder can send. */
  lemma {:induction false} Found(data: seq<Byte>, cs: nat, at: nat, size: nat, dict: seq<seq<Byte>>, prev: int,
                                 first: bool, last: seq<Byte>, out: seq<Byte>) returns (items: seq<Sent>)
    requires InStep(cs, size, dict, prev, last) && Strings(cs, dict) && size > 0
    requires Run(data, cs, MaskRule, at, size, dict, prev, first, out).Drawn?
    ensures MaySend(cs, dict, last, items) && Holds(data, at, cs, dict, last, items)
    ensures first && items != [] ==> items[0].Clear?
    ensures Run(data, cs, MaskRule, at, size, dict, prev, first, out) == Expected(cs, |dict|, prev < 0, items, out)
    decreases 8 * |data| - at
  {
    hide BitsAt, ToBits, Lsb, Pow2, Initial, Width, BitLength, Table, MaskRule, Run, OnCode, InStep, MaySend, Holds,
      Expected,
      Strings;
    Unfold(cs, size, dict, prev, last);
    items := [];
    if at + size > 8 * |data| {
      NoneLeft(data, at, cs, dict, last, items, prev < 0, out);
      RunEnds(data, cs, at, size, dict, prev, first, out);
      return;
    }
    var code := Lsb(data, at, size);
    FieldSaid(data, at, size);
    LsbBound(data, at, size);
    RunStep(data, cs, MaskRule, at, size, dict, prev, first, out);
    if code == Pow2(cs) + 1 {
      NoneLeft(data, at, cs, dict, last, items, prev < 0, out);
      RunEnds(data, cs, at, size, dict, prev, first, out);
    } else if code == Pow2(cs) {
      RunClears(data, cs, at, size, dict, prev, first, out);
      ClearHeard(cs, size, dict, prev, last);
      InitialStrings(cs);
      var rest := Found(data, cs, at + size, cs + 1, Initial(cs), -1, false, [], out);
      items := [Clear] + rest;
      assert items[1..] == rest;
      ClearFirst(data, at, cs, dict, last, items, prev < 0, out);
    } else {
      var t := OnCode(cs, MaskRule, code, size, dict, prev, first, out);
      TurnFound(cs, size, dict, prev, last, first, code, out);
      var w := t.dict[code];
      var next := RunDraws(data, cs, at, size, dict, prev, last, w, code, out);
      var rest := Found(data, cs, at + size, next, t.dict, code, false, w, out + w);
      items := [Piece(w, code)] + rest;
      assert items[1..] == rest;
      PieceFirst(data, at, cs, dict, last, items, prev < 0, out);
    }
  }

  lemma InitialStrings(cs: nat)
    ensures Strings(cs, Initial(cs))
  {
    hide Pow2;
  }

  /** The decoder draws exactly what some coder can send, as long as its table has room. */
  lemma RasterIff(data: seq<Byte>, cs: nat, ix: seq<Byte>)
    requires 1 <= cs <= 12
    ensures Decode(data, cs, MaskRule) == Drawn(ix) <==>
            exists items: seq<Sent> ::
              Coding(data, cs, items) && HasRoom(cs, Pow2(cs) + 2, true, items) && Indices(items) == ix
  {
    hide Pow2, Initial, Run, InStep, HasRoom, Indices, MaySend, Holds, Strings;
    if Decode(data, cs, MaskRule) == Drawn(ix) {
      StartInStep(cs);
      InitialStrings(cs);
      var items := Found(data, cs, 0, cs + 1, Initial(cs), -1, true, [], []);
      assert [] + Indices(items) == Indices(items);
      assert Coding(data, cs, items);
    }
    if items: seq<Sent> :| Coding(data, cs, items) && HasRoom(cs, Pow2(cs) + 2, true, items) && Indices(items) == ix {
      RasterHeard(data, cs, items);
    }
  }

  // ----- how long a coder may go on without a clear code

  ghost predicate AllPieces(items: seq<Sent>)
  {
    forall i :: 0 <= i < |items| ==> items[i].Piece?
  }

  /** Between clear codes there is room for as many pieces as the table has entries left, and one more:
      the first piece adds none. A coder that keeps using a full table is refused after that. */
  lemma RoomIff(cs: nat, items: seq<Sent>)
    requires cs <= 12 && AllPieces(items)
    ensures HasRoom(cs, Pow2(cs) + 2, true, items) <==> |items| <= MAX_CODES - Pow2(cs) - 1
  {
    hide Pow2, HasRoom;
    Pow2Mono(cs, 12);
    Pow2Values();
    RoomFirst(cs, Pow2(cs) + 2, items);
    if items != [] {
      assert AllPieces(items[1..]);
      RoomLeft(cs, Pow2(cs) + 2, items[1..]);
    }
  }

  lemma RoomFirst(cs: nat, entries: nat, items: seq<Sent>)
    requires items != [] ==> items[0].Piece?
    ensures HasRoom(cs, entries, true, items) <==> items == [] || HasRoom(cs, entries, false, items[1..])
  {
    hide Pow2;
  }

  lemma {:induction false} RoomLeft(cs: nat, entries: nat, items: seq<Sent>)
    requires AllPieces(items) && entries <= MAX_CODES
    ensures HasRoom(cs, entries, false, items) <==> entries + |items| <= MAX_CODES
    decreases |items|
  {
    hide Pow2;
    if items != [] && entries < MAX_CODES {
      assert AllPieces(items[1..]);
      RoomLeft(cs, entries + 1, items[1..]);
    }
  }

  // ----- every image has a coding

  /** The simplest coder: a clear code before every index. */
  function Simple(ix: seq<Byte>): seq<Sent>
  {
    if ix == [] then [] else [Clear, Piece([ix[0]], ix[0])] + Simple(ix[1..])
  }

  lemma {:induction false} SimpleMaySend(cs: nat, dict: seq<seq<Byte>>, last: seq<Byte>, ix: seq<Byte>)
    requires cs <= 12 && forall i :: 0 <= i < |ix| ==> ix[i] < Pow2(cs)
    ensures MaySend(cs, dict, last, Simple(ix))
    decreases |ix|
  {
    hide Pow2, Initial, BitLength;
    if ix != [] {
      var items, i := Simple(ix), ix[0];
      var tail := items[1..];
      assert tail[1..] == Simple(ix[1..]) && tail[0] == Piece([i], i) && items[0] == Clear;
      SimpleMaySend(cs, Initial(cs), [i], ix[1..]);
      Pow2Step(cs + 1);
      Rooted(cs, i);
      assert MaySend(cs, Initial(cs), [], tail);
    }
  }

  lemma Rooted(cs: nat, i: Byte)
    requires i < Pow2(cs)
    ensures Initial(cs)[i] == [i]
  {
  }

  lemma {:induction false} SimpleDraws(cs: nat, n: nat, afresh: bool, ix: seq<Byte>)
    ensures Indices(Simple(ix)) == ix && HasRoom(cs, n, afresh, Simple(ix))
    decreases |ix|
  {
    hide Pow2;
    if ix != [] {
      var items, i := Simple(ix), ix[0];
      var tail := items[1..];
      assert tail[1..] == Simple(ix[1..]) && tail[0] == Piece([i], i) && items[0] == Clear;
      SimpleDraws(cs, Pow2(cs) + 2, false, ix[1..]);
      assert Indices(tail) == [i] + ix[1..] == ix;
      assert Indices(items) == [] + Indices(tail);
      assert HasRoom(cs, Pow2(cs) + 2, true, tail);
    }
  }

  // ----- sub-blocks

  /** The file holds the chunks from `p` on, each behind its length, and then an empty one. */
  predicate ChunksAt(s: seq<Byte>, p: nat, chunks: seq<seq<Byte>>)
    decreases |chunks|
  {
    if chunks == [] then p < |s| && s[p] == 0
    else
      && 1 <= |chunks[0]| <= 255 && Has(s, p, [|chunks[0]|] + chunks[0])
      && ChunksAt(s, p + 1 + |chunks[0]|, chunks[1..])
  }

  function Joined(chunks: seq<seq<Byte>>): seq<Byte>
  {
    if chunks == [] then [] else chunks[0] + Joined(chunks[1..])
  }

  function ChunksEnd(p: nat, chunks: seq<seq<Byte>>): nat
    decreases |chunks|
  {
    if chunks == [] then p + 1 else ChunksEnd(p + 1 + |chunks[0]|, chunks[1..])
  }

  lemma {:induction false} ChunksHeard(s: seq<Byte>, p: nat, chunks: seq<seq<Byte>>)
    requires ChunksAt(s, p, chunks)
    ensures SubBlocks(s, p) == Joined(chunks) && BlocksEnd(s, p) == ChunksEnd(p, chunks)
    decreases |chunks|
  {
    hide SubBlocks, BlocksEnd, Bytes, Has;
    if chunks == [] {
      NoBlock(s, p);
    } else {
      var c := chunks[0];
      HasSplit(s, p, [|c|], c);
      FirstByte(s, p, |c|);
      BytesAre(s, p + 1, c);
      OneBlock(s, p);
      ChunksHeard(s, p + 1 + |c|, chunks[1..]);
    }
  }

  lemma FirstByte(s: seq<Byte>, p: nat, b: Byte)
    requires Has(s, p, [b])
    ensures ByteAt(s, p) == b
  {
    assert s[p..p + 1][0] == b;
  }

  lemma NoBlock(s: seq<Byte>, p: nat)
    requires p < |s| && s[p] == 0
    ensures SubBlocks(s, p) == [] && BlocksEnd(s, p) == p + 1
  {
  }

  lemma OneBlock(s: seq<Byte>, p: nat)
    requires ByteAt(s, p) > 0
    ensures var len := ByteAt(s, p);
            && SubBlocks(s, p) == Bytes(s, p + 1, len) + SubBlocks(s, p + 1 + len)
            && BlocksEnd(s, p) == BlocksEnd(s, p + 1 + len)
  {
    hide Bytes;
  }
}
