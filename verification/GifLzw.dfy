/** LZW decoding of GIF raster data with a dictionary of strings: Appendix F of the GIF89a
    specification, with the error cases of this decoder. */
module GifLzw {
  import opened Words
  import opened BitStream
  import opened Slices

  const MAX_CODES := 8192

  /** The data of the sub-blocks from `p` up to the empty one; past the file there are only zeros. */
  function SubBlocks(s: seq<Byte>, p: nat): seq<Byte>
    decreases |s| - p
  {
    var len := ByteAt(s, p);
    if len == 0 then [] else Bytes(s, p + 1, len) + SubBlocks(s, p + 1 + len)
  }

  /** The position behind the empty sub-block. */
  function BlocksEnd(s: seq<Byte>, p: nat): nat
    decreases |s| - p
  {
    var len := ByteAt(s, p);
    if len == 0 then p + 1 else BlocksEnd(s, p + 1 + len)
  }

  datatype Raster = Drawn(indices: seq<Byte>) | NoClearCode | TooManyCodes | IllegalCode | BadCodeSize

  /** When codes get one bit longer, given the number of codes and their size. */
  type Rule = (nat, nat) -> bool

  /** The decoder's test on the mask. */
  function MaskRule(n: nat, size: nat): bool
  {
    n % Pow2(size) == 0 && n <= 0xfff
  }

  /** Codes of this size are used up, and twelve bits are not reached. */
  function FullRule(n: nat, size: nat): bool
  {
    n == Pow2(size) && size < 12
  }

  /** The dictionary after a clear code: one string per colour, and the two special codes. */
  function Initial(cs: nat): (r: seq<seq<Byte>>)
    ensures |r| == Pow2(cs) + 2
  {
    seq(Pow2(cs) + 2, i requires 0 <= i < Pow2(cs) + 2 => if i < Pow2(cs) then [i % 256] else [])
  }

  function First(s: seq<Byte>): Byte
  {
    if s == [] then 0 else s[0]
  }

  /** The dictionary with the string that a code read after `prev` adds. */
  function Extended(dict: seq<seq<Byte>>, prev: int, code: nat): (r: seq<seq<Byte>>)
    requires -1 <= prev < |dict| && code <= |dict|
    ensures |r| == |dict| + if prev >= 0 then 1 else 0
  {
    if prev < 0 then dict
    else dict + [dict[prev] + [First(if code == |dict| then dict[prev] else dict[code])]]
  }

  /** What one code does: go on with another dictionary, or stop. */
  datatype Turn = Go(size: nat, dict: seq<seq<Byte>>, prev: int, out: seq<Byte>) | Stop(r: Raster)

  function OnCode(cs: nat, rule: Rule, code: nat, size: nat, dict: seq<seq<Byte>>, prev: int, first: bool,
                  out: seq<Byte>): (t: Turn)
    requires -1 <= prev < |dict| && size > 0
    ensures t.Go? ==> -1 <= t.prev < |t.dict| && t.size > 0
  {
    if code == Pow2(cs) then Go(cs + 1, Initial(cs), -1, out)
    else if code == Pow2(cs) + 1 then Stop(Drawn(out))
    else if code > |dict| then Stop(IllegalCode)
    else if first then Stop(NoClearCode)
    else if prev >= 0 && |dict| >= MAX_CODES then Stop(TooManyCodes)
    else if prev < 0 && code == |dict| then Stop(IllegalCode)
    else
      var grown := Extended(dict, prev, code);
      Go(if rule(|grown|, size) then size + 1 else size, grown, code, out + grown[code])
  }

  ghost function Run(data: seq<Byte>, cs: nat, rule: Rule, at: nat, size: nat, dict: seq<seq<Byte>>, prev: int,
                     first: bool, out: seq<Byte>): Raster
    requires -1 <= prev < |dict| && size > 0
    decreases 8 * |data| - at
  {
    if at + size > 8 * |data| then Drawn(out)
    else
      match OnCode(cs, rule, Lsb(data, at, size), size, dict, prev, first, out)
      case Stop(r) => r
      case Go(size1, dict1, prev1, out1) => Run(data, cs, rule, at + size, size1, dict1, prev1, false, out1)
  }

  ghost function Decode(data: seq<Byte>, cs: nat, rule: Rule): Raster
  {
    if cs > 12 then BadCodeSize else Run(data, cs, rule, 0, cs + 1, Initial(cs), -1, true, [])
  }

  // ----- both rules are one

  ghost predicate Sized(dict: seq<seq<Byte>>, prev: int, size: nat)
  {
    && size > 0 && Pow2(size - 1) <= |dict| && (size > 12 ==> |dict| > 0xfff)
    && (size < 12 ==> |dict| <= Pow2(size) && (prev >= 0 ==> |dict| < Pow2(size)))
  }

  lemma RulesMeet(n: nat, size: nat)
    requires size > 0 && Pow2(size - 1) <= n && (size > 12 ==> n > 0xfff) && (size < 12 ==> n <= Pow2(size))
    ensures MaskRule(n, size) <==> FullRule(n, size)
  {
    Pow2Values();
    if size < 12 {
      Pow2Mono(size, 11);
      if n < Pow2(size) {
        DivModIs(n, Pow2(size), 0, n);
      } else {
        DivModIs(n, Pow2(size), 1, 0);
      }
    } else if size == 12 && n < 4096 {
      DivModIs(n, 4096, 0, n);
    }
  }

  lemma StaySized(dict: seq<seq<Byte>>, prev: int, size: nat, grown: seq<seq<Byte>>, code: nat)
    requires Sized(dict, prev, size) && |grown| == |dict| + if prev >= 0 then 1 else 0
    ensures MaskRule(|grown|, size) <==> FullRule(|grown|, size)
    ensures Sized(grown, code, if MaskRule(|grown|, size) then size + 1 else size)
  {
    hide Pow2;
    RulesMeet(|grown|, size);
    Pow2Step(size + 1);
    Pow2Step(size);
    Pow2Values();
  }

  lemma InitialSized(cs: nat)
    requires 1 <= cs <= 12
    ensures Sized(Initial(cs), -1, cs + 1)
  {
    Pow2Values();
    Pow2Mono(1, cs);
  }

  /** With at least two colours, the mask test lengthens the codes exactly when they are used up. */
  lemma {:induction false} RunRules(data: seq<Byte>, cs: nat, at: nat, size: nat, dict: seq<seq<Byte>>, prev: int,
                                    first: bool, out: seq<Byte>)
    requires 1 <= cs <= 12 && -1 <= prev < |dict| && size > 0 && Sized(dict, prev, size)
    ensures Run(data, cs, MaskRule, at, size, dict, prev, first, out)
            == Run(data, cs, FullRule, at, size, dict, prev, first, out)
    decreases 8 * |data| - at
  {
    hide Lsb, OnCode, Sized;
    if at + size <= 8 * |data| {
      var code := Lsb(data, at, size);
      SameTurn(cs, code, size, dict, prev, first, out);
      var t := OnCode(cs, MaskRule, code, size, dict, prev, first, out);
      if t.Go? {
        RunRules(data, cs, at + size, t.size, t.dict, t.prev, false, t.out);
      }
    }
  }

  lemma SameTurn(cs: nat, code: nat, size: nat, dict: seq<seq<Byte>>, prev: int, first: bool, out: seq<Byte>)
    requires 1 <= cs <= 12 && -1 <= prev < |dict| && size > 0 && Sized(dict, prev, size)
    ensures var t := OnCode(cs, MaskRule, code, size, dict, prev, first, out);
            t == OnCode(cs, FullRule, code, size, dict, prev, first, out) && (t.Go? ==> Sized(t.dict, t.prev, t.size))
  {
    hide Pow2, Initial, Sized, MaskRule, FullRule;
    InitialSized(cs);
    if code <= |dict| {
      StaySized(dict, prev, size, Extended(dict, prev, code), code);
    }
  }

  lemma DecodeRules(data: seq<Byte>, cs: nat)
    requires cs >= 1
    ensures Decode(data, cs, MaskRule) == Decode(data, cs, FullRule)
  {
    hide Initial, Run;
    if cs <= 12 {
      InitialSized(cs);
      RunRules(data, cs, 0, cs + 1, Initial(cs), -1, true, []);
    }
  }

  /** With a single colour the two rules differ: after three one-bit codes the mask test asks for
      two bits, and finds the end code. */
  lemma OneColour(data: seq<Byte>)
    requires data == [0x11]
    ensures Decode(data, 0, MaskRule) == Drawn([0, 0]) && Decode(data, 0, FullRule) != Drawn([0, 0])
  {
    hide Run, Lsb;
    OneColourBits(data);
    var d0: seq<seq<Byte>> := Initial(0);
    var d1 := d0 + [[0, 0]];
    Pow2Values();
    var one, two: seq<Byte> := [0], [0, 0];
    assert d0[0] == one && |d0| == 3 && one + one == two && [] + one == one;
    assert d0[0] + [First(d0[0])] == two;
    RunStep(data, 0, MaskRule, 0, 1, d0, -1, true, []);
    RunStep(data, 0, MaskRule, 1, 1, d0, -1, false, []);
    RunStep(data, 0, MaskRule, 2, 1, d0, 0, false, [0]);
    assert Extended(d0, 0, 0) == d1 && d1[0] == one;
    RunStep(data, 0, MaskRule, 3, 2, d1, 0, false, [0, 0]);
    RunStep(data, 0, FullRule, 0, 1, d0, -1, true, []);
    RunStep(data, 0, FullRule, 1, 1, d0, -1, false, []);
    RunStep(data, 0, FullRule, 2, 1, d0, 0, false, [0]);
    RunStep(data, 0, FullRule, 3, 1, d1, 0, false, [0, 0]);
    RunGrows(data, 0, FullRule, 4, 1, Extended(d1, 0, 0), 0, false, [0, 0] + [0]);
  }

  /** The two rules decode every raster alike exactly when there are two colours or more. */
  lemma RulesAgreeIff(cs: nat)
    ensures (forall data :: Decode(data, cs, MaskRule) == Decode(data, cs, FullRule)) <==> cs >= 1
  {
    hide Decode;
    if cs >= 1 {
      forall data ensures Decode(data, cs, MaskRule) == Decode(data, cs, FullRule) {
        DecodeRules(data, cs);
      }
    } else {
      OneColour([0x11]);
    }
  }

  lemma OneColourBits(data: seq<Byte>)
    requires data == [0x11]
    ensures Lsb(data, 0, 1) == 1 && Lsb(data, 1, 1) == 0 && Lsb(data, 2, 1) == 0 && Lsb(data, 3, 1) == 0
    ensures Lsb(data, 3, 2) == 2
  {
    Pow2Values();
    assert BitAt(data, 0) == 1 && BitAt(data, 1) == 0 && BitAt(data, 2) == 0 && BitAt(data, 3) == 0;
    assert BitAt(data, 4) == 1;
  }

  lemma RunStep(data: seq<Byte>, cs: nat, rule: Rule, at: nat, size: nat, dict: seq<seq<Byte>>, prev: int, first: bool,
                out: seq<Byte>)
    requires -1 <= prev < |dict| && size > 0 && at + size <= 8 * |data|
    ensures var t := OnCode(cs, rule, Lsb(data, at, size), size, dict, prev, first, out);
            Run(data, cs, rule, at, size, dict, prev, first, out)
            == if t.Stop? then t.r else Run(data, cs, rule, at + size, t.size, t.dict, t.prev, false, t.out)
  {
    hide Lsb, OnCode;
  }

  /** What is drawn stays drawn. */
  lemma {:induction false} RunGrows(data: seq<Byte>, cs: nat, rule: Rule, at: nat, size: nat, dict: seq<seq<Byte>>,
                                    prev: int, first: bool, out: seq<Byte>)
    requires -1 <= prev < |dict| && size > 0
    ensures var r := Run(data, cs, rule, at, size, dict, prev, first, out); r.Drawn? ==> out <= r.indices
    decreases 8 * |data| - at
  {
    hide Lsb, Pow2, Initial, Extended;
    if at + size <= 8 * |data| {
      var t := OnCode(cs, rule, Lsb(data, at, size), size, dict, prev, first, out);
      if t.Go? {
        assert out <= t.out;
        RunGrows(data, cs, rule, at + size, t.size, t.dict, t.prev, false, t.out);
      }
    }
  }
}
