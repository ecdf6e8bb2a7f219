/** `stbi__process_gif_raster` and `stbi__out_gif_code`. */
module GifDecoder {
  import opened Words
  import opened BitStream
  import opened Slices
  import opened GifLzw
  import GifRows
  import opened GifCursor

  /** The bits of the sub-blocks, first bit lowest. */
  class Feed {
    const s: seq<Byte>
    var pos: nat
    var len: nat
    var bits: nat
    var valid_bits: nat
    ghost const start: nat
    ghost var taken: nat
    ghost var at: nat

    ghost function Data(): seq<Byte>
    {
      SubBlocks(s, start)
    }

    ghost predicate InStep()
      reads this
    {
      && taken <= |Data()| && at + valid_bits == 8 * taken && bits == Lsb(Data(), at, valid_bits)
      && Data()[taken..] == Bytes(s, pos, len) + SubBlocks(s, pos + len)
      && BlocksEnd(s, pos + len) == BlocksEnd(s, start)
    }

    constructor (file: seq<Byte>, p: nat)
      ensures InStep() && s == file && start == p && at == 0 && valid_bits == 0
    {
      s, start, pos, len, bits, valid_bits := file, p, p, 0, 0, 0;
      taken, at := 0, 0;
      new;
      assert Bytes(s, pos, 0) + SubBlocks(s, pos) == SubBlocks(s, pos);
    }

    method Get8() returns (b: Byte)
      modifies this`pos
      ensures b == ByteAt(s, old(pos)) && pos == old(pos) + 1
    {
      b := ByteAt(s, pos);
      pos := pos + 1;
    }

    /** Eight more bits, from the next sub-block if need be; false at the empty one. */
    method More() returns (ok: bool)
      requires InStep()
      modifies this`pos, this`len, this`bits, this`valid_bits, this`taken
      ensures ok ==> InStep() && taken == old(taken) + 1 && valid_bits == old(valid_bits) + 8
      ensures !ok ==> taken == old(taken) == |Data()| && valid_bits == old(valid_bits) && pos == BlocksEnd(s, start)
    {
      hide Lsb, Or, Pow2, SubBlocks, Bytes, BlocksEnd;
      if len == 0 {
        NextBlock();
        len := Get8();
        if len == 0 {
          return false;
        }
      }
      OneByte(Data(), taken, s, pos, len);
      ByteIn(Data(), at, valid_bits, taken);
      len := len - 1;
      var b := Get8();
      bits := Or(bits, Shl(b, valid_bits));
      valid_bits := valid_bits + 8;
      taken := taken + 1;
      ok := true;
    }

    lemma NextBlock()
      requires InStep() && len == 0
      ensures var n := ByteAt(s, pos);
              if n == 0 then taken == |Data()| && pos + 1 == BlocksEnd(s, start)
              else
                && Data()[taken..] == Bytes(s, pos + 1, n) + SubBlocks(s, pos + 1 + n)
                && BlocksEnd(s, pos + 1 + n) == BlocksEnd(s, start)
    {
      hide Lsb;
      assert Bytes(s, pos, 0) + SubBlocks(s, pos) == SubBlocks(s, pos);
    }

    /** The next `n` bits. */
    method Take(n: nat) returns (code: nat)
      requires InStep() && n <= valid_bits
      modifies this`bits, this`valid_bits, this`at
      ensures InStep() && code == Lsb(Data(), old(at), n) && at == old(at) + n && valid_bits == old(valid_bits) - n
    {
      hide Lsb, Pow2, And, SubBlocks, Bytes, BlocksEnd;
      LsbSplit(Data(), at, n, valid_bits - n);
      LsbBound(Data(), at, n);
      DivModIs(bits, Pow2(n), Lsb(Data(), at + n, valid_bits - n), Lsb(Data(), at, n));
      AndMask(bits, n);
      code := And(bits, Pow2(n) - 1);
      bits := Shr(bits, n);
      valid_bits := valid_bits - n;
      at := at + n;
    }

    /** Skip to the end of the sub-blocks. */
    method SkipRest()
      requires InStep()
      modifies this`pos, this`len
      ensures pos == BlocksEnd(s, start)
    {
      hide Lsb, SubBlocks, Bytes;
      pos := pos + len;
      len := Get8();
      while len > 0
        invariant pos >= 1 && len == ByteAt(s, pos - 1) && BlocksEnd(s, pos - 1) == BlocksEnd(s, start)
        decreases |s| - pos
      {
        pos := pos + len;
        len := Get8();
      }
    }
  }

  lemma OneByte(d: seq<Byte>, q: nat, s: seq<Byte>, p: nat, len: nat)
    requires q <= |d| && len > 0 && d[q..] == Bytes(s, p, len) + SubBlocks(s, p + len)
    ensures q < |d| && d[q] == ByteAt(s, p) && d[q + 1..] == Bytes(s, p + 1, len - 1) + SubBlocks(s, p + len)
  {
    hide SubBlocks;
    var t := d[q..];
    assert t[0] == d[q] && t[1..] == d[q + 1..];
  }

  lemma ByteIn(d: seq<Byte>, at: nat, n: nat, q: nat)
    requires at + n == 8 * q
    ensures Or(Lsb(d, at, n), Shl(ByteAt(d, q), n)) == Lsb(d, at, n + 8)
  {
    hide Lsb, Or, Pow2, ByteAt;
    LsbBound(d, at, n);
    OrShifted(Lsb(d, at, n), ByteAt(d, q), n);
    LsbByte(d, q);
    LsbSplit(d, at, n, 8);
  }

  // ----- the code table

  predicate Usable(cs: nat, c: int)
  {
    c >= 0 && c != Pow2(cs) && c != Pow2(cs) + 1
  }

  class Gif {
    const prefix: array<int>
    const first: array<Byte>
    const suffix: array<Byte>
    const cursor: Cursor

    constructor (c: Cursor)
      ensures cursor == c && Shape() && fresh(prefix) && fresh(first) && fresh(suffix)
    {
      cursor := c;
      prefix := new int[MAX_CODES];
      first := new Byte[MAX_CODES];
      suffix := new Byte[MAX_CODES];
    }

    ghost predicate Shape()
    {
      && prefix.Length == first.Length == suffix.Length == MAX_CODES && first != suffix
    }

    /** The arrays spell the strings of the dictionary backwards, each entry through an earlier one. */
    ghost predicate Spells(dict: seq<seq<Byte>>, cs: nat)
      reads prefix, first, suffix
    {
      && Shape() && Pow2(cs) + 2 <= |dict| <= MAX_CODES
      && forall c: nat :: c < |dict| && Usable(cs, c) ==> SpellsOne(dict, cs, c)
    }

    ghost predicate SpellsOne(dict: seq<seq<Byte>>, cs: nat, c: nat)
      requires Shape() && c < |dict| <= MAX_CODES
      reads prefix, first, suffix
    {
      && dict[c] != [] && first[c] == dict[c][0]
      && if c < Pow2(cs) then prefix[c] == -1 && dict[c] == [suffix[c]]
         else 0 <= prefix[c] < c && Usable(cs, prefix[c]) && dict[c] == dict[prefix[c]] + [suffix[c]]
    }

    /** The string of a code, drawn: the prefix first, since the table runs backwards. */
    method OutCode(code: nat, colors: seq<Byte>, ghost dict: seq<seq<Byte>>, ghost cs: nat)
      requires Spells(dict, cs) && code < |dict| && Usable(cs, code) && Apart()
      requires cursor.Valid() && |colors| == 1024
      modifies cursor`cur_x, cursor`cur_y, cursor`step, cursor`parse, cursor`row, cursor`col, cursor`stride, cursor`k,
               cursor`n, cursor.out, cursor.history
      ensures cursor.Valid() && cursor.n == old(cursor.n) + |dict[code]|
      ensures cursor.View() == DrawAll(cursor.f, colors, old(cursor.View()), old(cursor.n), dict[code])
      ensures Spells(dict, cs)
      decreases code
    {
      hide Draw, DrawAll, Pow2, Cursor.Scaled, Cursor.Underway, GifRows.Total, Fits;
      assert SpellsOne(dict, cs, code);
      DrawSteps(cursor.f, colors, cursor.View(), cursor.n, dict[code]);
      if prefix[code] >= 0 {
        OutCode(prefix[code], colors, dict, cs);
      }
      assert SpellsOne(dict, cs, code);
      ghost var t := dict[code];
      assert t[..|t| - 1] == if prefix[code] >= 0 then dict[prefix[code]] else [];
      cursor.Put(colors, suffix[code]);
    }

    ghost predicate Apart()
      reads cursor
    {
      && cursor.out != first && cursor.out != suffix && cursor.history != first && cursor.history != suffix
    }

    /** The string a code adds to the table. */
    method AddCode(avail: nat, oldcode: nat, code: nat, ghost dict: seq<seq<Byte>>, ghost cs: nat)
      requires Spells(dict, cs) && avail == |dict| < MAX_CODES && oldcode < avail && Usable(cs, oldcode)
      requires code <= avail && Usable(cs, code)
      modifies prefix, first, suffix
      ensures Spells(Extended(dict, oldcode, code), cs)
    {
      hide Pow2;
      assert SpellsOne(dict, cs, oldcode);
      assert code < avail ==> SpellsOne(dict, cs, code);
      ghost var grown := Extended(dict, oldcode, code);
      var f := first[oldcode];
      prefix[avail] := oldcode;
      first[avail] := f;
      suffix[avail] := if code == avail + 1 then f else first[code];
      forall c: nat | c < |grown| && Usable(cs, c) ensures SpellsOne(grown, cs, c) {
        if c < avail {
          assert old(SpellsOne(dict, cs, c)) && grown[c] == dict[c];
          assert c >= Pow2(cs) ==> grown[prefix[c]] == dict[prefix[c]];
        } else {
          assert c == avail && grown[oldcode] == dict[oldcode];
        }
      }
    }

    method ResetTable(clear: nat, ghost cs: nat)
      requires Shape() && cs <= 12 && clear == Pow2(cs)
      modifies prefix, first, suffix
      ensures Spells(Initial(cs), cs)
    {
      Pow2Mono(cs, 12);
      Pow2Values();
      hide Pow2;
      for i := 0 to clear
        invariant forall c :: 0 <= c < i ==> prefix[c] == -1 && first[c] == suffix[c] == c % 256
      {
        prefix[i] := -1;
        first[i] := i % 256;
        suffix[i] := i % 256;
      }
    }

    /** A clear code forgets all strings but the roots. */
    lemma Cleared(dict: seq<seq<Byte>>, cs: nat)
      requires Spells(dict, cs) && Initial(cs) <= dict
      ensures Spells(Initial(cs), cs)
    {
      hide Pow2, Initial;
      forall c: nat | c < |Initial(cs)| && Usable(cs, c) ensures SpellsOne(Initial(cs), cs, c) {
        assert SpellsOne(dict, cs, c) && Initial(cs)[c] == dict[c];
      }
    }

    /** `stbi__process_gif_raster`: draws exactly the indices that decoding with a dictionary of
        strings yields, and leaves the file position behind the last sub-block. */
    method ProcessRaster(s: seq<Byte>, start: nat, colors: seq<Byte>) returns (ok: bool, pos: nat)
      requires Shape() && Apart() && cursor.Valid() && |colors| == 1024
      modifies prefix, first, suffix, cursor, cursor.out, cursor.history
      ensures cursor.f == old(cursor.f) && cursor.out == old(cursor.out) && cursor.history == old(cursor.history)
      ensures var r := Decode(SubBlocks(s, start + 1), ByteAt(s, start), MaskRule);
              && ok == r.Drawn?
              && (ok ==> pos == BlocksEnd(s, start + 1) && cursor.Valid())
              && (ok ==> cursor.View() == DrawAll(cursor.f, colors, old(cursor.View()), old(cursor.n), r.indices))
    {
      hide Lsb, Pow2, Initial, SubBlocks, BlocksEnd, Run, DrawAll, Cursor.Scaled, Cursor.Underway, GifRows.Total, Fits,
        Spells, Feed.InStep;
      pos := start;
      var lzw_cs := ByteAt(s, start);
      if lzw_cs > 12 {
        return false, pos;
      }
      var feed := new Feed(s, start + 1);
      ResetTable(Pow2(lzw_cs), lzw_cs);
      ok := Codes(feed, lzw_cs, colors);
      pos := feed.pos;
    }

    method Codes(feed: Feed, cs: nat, colors: seq<Byte>) returns (ok: bool)
      requires cs <= 12 && Spells(Initial(cs), cs) && Apart() && cursor.Valid() && |colors| == 1024
      requires feed.InStep() && feed.at == 0 && feed.valid_bits == 0
      modifies prefix, first, suffix, feed, cursor, cursor.out, cursor.history
      ensures cursor.f == old(cursor.f) && cursor.out == old(cursor.out) && cursor.history == old(cursor.history)
      ensures var r := Decode(feed.Data(), cs, MaskRule);
              && ok == r.Drawn?
              && (ok ==> feed.pos == BlocksEnd(feed.s, feed.start) && cursor.Valid())
              && (ok ==> cursor.View() == DrawAll(cursor.f, colors, old(cursor.View()), old(cursor.n), r.indices))
    {
      hide Lsb, Pow2, Initial, OnCode, SubBlocks, BlocksEnd, DrawAll, Cursor.Scaled, Cursor.Underway, GifRows.Total,
        Fits, Spells, Draw;
      ghost var cv, n := cursor.View(), cursor.n;
      ghost var d := feed.Data();
      ghost var r := Decode(d, cs, MaskRule);
      var clear := Pow2(cs);
      var first_time := true;
      var codesize: nat := cs + 1;
      var avail: nat := clear + 2;
      var oldcode := -1;
      ghost var dict, out := Initial(cs), [];
      DrawNone(cursor.f, colors, cv, n);
      while true
        invariant feed.InStep() && cursor.f == old(cursor.f) && cursor.out == old(cursor.out)
        invariant cursor.history == old(cursor.history)
        invariant Sound(cs, codesize, avail, oldcode, dict) && Drew(cv, n, colors, out)
        invariant r == Run(d, cs, MaskRule, feed.at, codesize, dict, oldcode, first_time, out)
        decreases 8 * |d| - feed.at, |d| - feed.taken
      {
        if feed.valid_bits < codesize {
          var more := feed.More();
          if !more {
            return true;
          }
        } else {
          var code := feed.Take(codesize);
          var status;
          status, codesize, avail, oldcode, dict, out :=
            OneCode(code, codesize, avail, oldcode, first_time, cs, colors, dict, out, cv, n);
          if status < 0 {
            return false;
          } else if status == 0 {
            feed.SkipRest();
            return true;
          }
          first_time := false;
        }
      }
    }

    /** The table and the loop variables agree with the dictionary. */
    ghost predicate Sound(cs: nat, codesize: nat, avail: nat, oldcode: int, dict: seq<seq<Byte>>)
      reads prefix, first, suffix
    {
      && Spells(dict, cs) && codesize > 0
      && avail == |dict| && Initial(cs) <= dict && -1 <= oldcode < |dict| && (oldcode >= 0 ==> Usable(cs, oldcode))
    }

    /** The canvas shows the indices so far. */
    ghost predicate Drew(cv: Canvas, n: nat, colors: seq<Byte>, out: seq<Byte>)
      reads cursor, cursor.out, cursor.history
    {
      && Apart() && cursor.Valid() && |colors| == 1024 && Fits(cv, cursor.f)
      && cursor.View() == DrawAll(cursor.f, colors, cv, n, out) && cursor.n == n + |out|
    }

    /** One code: 1 to go on, 0 at the end code, -1 for an error. */
    method OneCode(code: nat, size: nat, count: nat, previous: int, first_time: bool, cs: nat, colors: seq<Byte>,
                   ghost strings: seq<seq<Byte>>, ghost before: seq<Byte>, ghost cv: Canvas, ghost n: nat)
      returns (status: int, codesize: nat, avail: nat, oldcode: int, ghost dict: seq<seq<Byte>>, ghost out: seq<Byte>)
      requires Sound(cs, size, count, previous, strings) && Drew(cv, n, colors, before)
      modifies prefix, first, suffix, cursor`cur_x, cursor`cur_y, cursor`step, cursor`parse, cursor`row, cursor`col,
               cursor`stride, cursor`k, cursor`n, cursor.out, cursor.history
      ensures match OnCode(cs, MaskRule, code, size, strings, previous, first_time, before)
              case Stop(r) =>
                if r.Drawn? then status == 0 && r.indices == before && Drew(cv, n, colors, before) else status == -1
              case Go(s, d, p, o) =>
                status == 1 && codesize == s && dict == d && oldcode == p && out == o
                && Sound(cs, codesize, avail, oldcode, dict) && Drew(cv, n, colors, out)
    {
      hide Pow2, Initial, DrawAll, Cursor.Scaled, Cursor.Underway, GifRows.Total, Fits, Spells, Draw, And;
      var clear := Pow2(cs);
      codesize, avail, oldcode, dict, out := size, count, previous, strings, before;
      if code == clear {
        Cleared(dict, cs);
        codesize, avail, oldcode, dict := cs + 1, clear + 2, -1, Initial(cs);
        return 1, codesize, avail, oldcode, dict, out;
      } else if code == clear + 1 {
        return 0, codesize, avail, oldcode, dict, out;
      } else if code > avail {
        return -1, codesize, avail, oldcode, dict, out;
      }
      if first_time {
        return -1, codesize, avail, oldcode, dict, out;
      }
      if oldcode >= 0 {
        avail := avail + 1;
        if avail > MAX_CODES {
          return -1, codesize, avail, oldcode, dict, out;
        }
        AddCode(avail - 1, oldcode, code, dict, cs);
      } else if code == avail {
        return -1, codesize, avail, oldcode, dict, out;
      }
      dict := Extended(dict, oldcode, code);
      OutCode(code, colors, dict, cs);
      DrawConcat(cursor.f, colors, cv, n, out, dict[code]);
      out := out + dict[code];
      AndMask(avail, codesize);
      if And(avail, Pow2(codesize) - 1) == 0 && avail <= 0xfff {
        codesize := codesize + 1;
      }
      oldcode := code;
      status := 1;
    }
  }

  lemma DrawNone(f: Frame, colors: seq<Byte>, cv: Canvas, n: nat)
    requires Inside(f) && Fits(cv, f) && |colors| == 1024
    ensures DrawAll(f, colors, cv, n, []) == cv
  {
  }
}
