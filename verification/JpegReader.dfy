/** `stbi__grow_buffer_unsafe`, `stbi__jpeg_huff_decode` and `stbi__extend_receive`. */
module JpegReader {
  import opened Words
  import opened BitStream
  import opened Huffman
  import opened JpegHuffman
  import opened JpegTable
  import opened JpegBits

  const BUFFER := 0x1_0000_0000

  class Reader {
    const file: seq<Byte>
    var pos: nat
    var code_buffer: nat
    var code_bits: int
    var marker: Byte
    var nomore: bool
    // the data bytes of the scan, how many have been taken, how many zeros were made up,
    // and the position reached in the bits of the data
    ghost const data: seq<Byte>
    ghost var taken: nat
    ghost var padding: nat
    ghost var at: nat

    ghost predicate InStep()
      reads this
    {
      && taken <= |data| && (nomore ==> taken == |data|) && (padding > 0 ==> nomore)
      && (!nomore ==> Carries(file, pos, data[taken..]))
      && 0 <= code_bits <= 32 && at + code_bits == 8 * (taken + padding)
      && code_buffer == Shl(Msb(Flip(data), at, code_bits), 32 - code_bits)
    }

    constructor (bytes: seq<Byte>, start: nat, ghost scan: seq<Byte>)
      requires Carries(bytes, start, scan)
      ensures InStep() && file == bytes && data == scan && at == 0
    {
      file, data, pos := bytes, scan, start;
      code_buffer, code_bits, marker, nomore := 0, 0, 0, false;
      taken, padding, at := 0, 0, 0;
    }

    method Get8() returns (b: Byte)
      modifies this`pos
      ensures b == ByteAt(file, old(pos)) && pos == if old(pos) < |file| then old(pos) + 1 else old(pos)
    {
      if pos < |file| {
        b := file[pos];
        pos := pos + 1;
      } else {
        b := 0;
      }
    }

    /** The next data byte, or the marker behind the data. */
    method TakeByte() returns (b: Byte, stopped: bool)
      requires InStep()
      modifies this`pos, this`marker, this`nomore, this`taken, this`padding
      ensures taken <= |data| && (nomore ==> taken == |data|) && (padding > 0 ==> nomore)
      ensures !nomore ==> Carries(file, pos, data[taken..])
      ensures stopped ==> nomore && !old(nomore) && taken == old(taken) && padding == old(padding)
      ensures !stopped ==> b == ByteAt(data, old(taken + padding)) && taken + padding == old(taken + padding) + 1
    {
      hide Flip, Msb;
      stopped := false;
      if nomore {
        padding := padding + 1;
        return 0, false;
      }
      ghost var rest := data[taken..];
      b := Get8();
      if b == 0xff {
        var c := Get8();
        c := SkipFillBytes(c);
        if c != 0 {
          marker := c;
          nomore := true;
          return b, true;
        }
      }
      assert rest[1..] == data[taken + 1..];
      taken := taken + 1;
    }

    /** `while (c == 0xff) c = stbi__get8(j->s)`, the first byte already read. */
    method SkipFillBytes(first: Byte) returns (c: Byte)
      requires 0 < pos <= |file| && first == file[pos - 1] && SkipFill(file, pos - 1) < |file|
      modifies this`pos
      ensures c == file[SkipFill(file, old(pos) - 1)] && pos == SkipFill(file, old(pos) - 1) + 1
    {
      c := first;
      while c == 0xff
        invariant 0 < pos <= |file| && c == file[pos - 1]
        invariant SkipFill(file, pos - 1) == SkipFill(file, old(pos) - 1)
        decreases |file| - pos
      {
        c := Get8();
      }
    }

    /** `stbi__grow_buffer_unsafe`: more than 24 bits, unless the marker was met. */
    method Grow()
      requires InStep() && code_bits <= 24
      modifies this`pos, this`marker, this`nomore, this`taken, this`padding, this`code_buffer, this`code_bits
      ensures InStep() && code_bits >= old(code_bits)
      ensures code_bits > 24 || nomore
    {
      hide Flip, Msb, Or, Carries;
      var more := true;
      while more
        invariant InStep() && code_bits >= old(code_bits)
        invariant if more then code_bits <= 24 else code_bits > 24 || nomore
        decreases more, 32 - code_bits
      {
        ghost var q := taken + padding;
        var b, stopped := TakeByte();
        if stopped {
          return;
        }
        AddByte(data, at, code_bits, q);
        code_buffer := Or(Shl(b, 24 - code_bits), code_buffer);
        code_bits := code_bits + 8;
        more := code_bits <= 24;
      }
    }

    /** The top `n` bits of the buffer are the next `n` bits of the data. */
    lemma TopBits(n: nat)
      requires InStep() && n <= 32 && (code_bits >= n || nomore)
      ensures code_buffer / Pow2(32 - n) == Msb(Flip(data), at, n)
    {
      hide Flip, Msb, Pow2;
      var f, cb := Flip(data), code_bits;
      var m := Msb(f, at, cb);
      if cb >= n {
        MsbSplit(f, at, n, cb - n);
        MsbBound(f, at + n, cb - n);
        TopPart(Msb(f, at, n), Msb(f, at + n, cb - n), Pow2(cb - n), Pow2(32 - cb));
        Pow2Add(cb - n, 32 - cb);
      } else {
        MsbPast(data, at + cb, n - cb);
        MsbSplit(f, at, cb, n - cb);
        Pow2Add(n - cb, 32 - n);
        Regroup(m, Pow2(n - cb), Pow2(32 - n));
        DivModIs(code_buffer, Pow2(32 - n), m * Pow2(n - cb), 0);
      }
    }

    /** Drop the top `n` bits. */
    method Consume(n: nat)
      requires InStep() && n <= code_bits
      modifies this`code_buffer, this`code_bits, this`at
      ensures InStep() && at == old(at) + n && code_bits == old(code_bits) - n
    {
      hide Flip, Msb, Pow2, Carries;
      Dropped(data, at, code_bits, n);
      code_buffer := code_buffer * Pow2(n) % BUFFER;
      code_bits := code_bits - n;
      at := at + n;
    }

    /** The next sixteen bits of the data. */
    ghost function Window(): nat
      reads this
    {
      Msb(Flip(data), at, 16)
    }

    /** `stbi__jpeg_huff_decode`: what the tables answer, which is the value of the symbol whose code
        comes next, or -1, where 255 stays free as a flag. A code that runs past the data is not
        promised anything. */
    method HuffDecode(h: Table, ghost lens: seq<nat>) returns (sym: int)
      requires InStep() && h.Built(lens)
      modifies this`pos, this`marker, this`nomore, this`taken, this`padding, this`code_buffer, this`code_bits, this`at
      ensures var hit := TableDecode(lens, old(Window()));
              if hit.Miss? then sym == -1
              else old(at) + hit.bits <= 8 * |data| ==>
                0 <= hit.id < 256 && sym == h.values[hit.id] && InStep() && at == old(at) + hit.bits
      ensures FlagFree(lens) ==>
              var i := Symbol(lens, old(Window()));
              if i < 0 then sym == -1
              else old(at) + lens[i] <= 8 * |data| ==> sym == h.values[i] && InStep() && at == old(at) + lens[i]
    {
      hide Flip, Msb, Carries, Symbol, Matches, FastId, SlowSize, Limit, FirstSymbol, FirstCode, Kraft, Pow2, And,
        Listed;
      if code_bits < 16 {
        Grow();
      }
      ghost var k := Window();
      assert code_bits >= 16 || nomore;
      Pow2Values();
      var c := TopMasked(9);
      MsbBound(Flip(data), at, 9);
      if FlagFree(lens) {
        DecodeExact(lens, k);
      }
      assert h.fast[c] == FastId(lens, c);
      var f := h.fast[c];
      if f < NOT_FAST {
        assert TableDecode(lens, k) == Hit(f, lens[f]);
        var s := h.size[f];
        if s > code_bits {
          return -1;
        }
        Consume(s);
        return h.values[f];
      }
      sym := SlowDecode(h, lens, k);
    }

    /** The top `n` bits of the buffer, masked as the source does. */
    method TopMasked(n: nat) returns (v: nat)
      requires InStep() && n <= 16 && (code_bits >= n || nomore)
      ensures v == Msb(Flip(data), at, n) == Msb(Flip(data), at, 16) / Pow2(16 - n)
    {
      hide Flip, Msb, Carries, And, Pow2;
      v := And(Shr(code_buffer, 32 - n), Pow2(n) - 1);
      TopBits(n);
      MsbBound(Flip(data), at, n);
      AndMask(Shr(code_buffer, 32 - n), n);
      LowSame(Shr(code_buffer, 32 - n), Pow2(n));
      MsbPrefix(Flip(data), at, n, 16);
    }

    /** Longer codes: compare the window with the limits. */
    method SlowDecode(h: Table, ghost lens: seq<nat>, ghost k: nat) returns (sym: int)
      requires InStep() && (code_bits >= 16 || nomore) && h.Built(lens) && k == Window()
      requires FastId(lens, k / 128) == NOT_FAST
      modifies this`code_buffer, this`code_bits, this`at
      ensures var hit := TableDecode(lens, k);
              if hit.Miss? then sym == -1
              else old(at) + hit.bits <= 8 * |data| ==>
                0 <= hit.id < 256 && sym == h.values[hit.id] && InStep() && at == old(at) + hit.bits
    {
      hide Flip, Msb, Carries, Symbol, Matches, FastId, SlowSize, Limit, FirstSymbol, FirstCode, Kraft, Pow2, And,
        Listed, Decodable;
      Pow2Values();
      TopBits(16);
      MsbBound(Flip(data), at, 16);
      assert Shr(code_buffer, 16) == k;
      var n := SlowSearch(h, lens, Shr(code_buffer, 16));
      if n == 17 {
        code_bits := code_bits - 16;
        return -1;
      }
      ghost var i := k / Pow2(MAX_LENGTH - n) + FirstSymbol(lens, n) - FirstCode(lens, n);
      assert TableDecode(lens, k) == Hit(i, n);
      HitInRange(lens, k);
      if n > code_bits {
        return -1;
      }
      var v := TopMasked(n);
      var c := v + h.delta[n];
      assert c == i;
      Consume(n);
      sym := h.values[c];
    }

    /** `stbi__extend_receive`. Reading past the data is not promised anything. */
    method ExtendReceive(n: nat) returns (v: int)
      requires InStep() && n <= 15
      modifies this`pos, this`marker, this`nomore, this`taken, this`padding, this`code_buffer, this`code_bits, this`at
      ensures old(at) + n <= 8 * |data| ==>
                InStep() && at == old(at) + n && v == Extend(Msb(Flip(data), old(at), n), n)
    {
      hide Flip, Msb, Carries, Pow2;
      if code_bits < n {
        Grow();
      }
      SignBit(n);
      MsbBound(Flip(data), at, n);
      Pow2Values();
      var negative := code_buffer < 0x8000_0000;
      var k := TakeBits(n);
      v := if negative then k + JBias(n) else k;
    }

    /** The rotation of the buffer that `stbi__extend_receive` takes the bits with. */
    method TakeBits(n: nat) returns (k: nat)
      requires InStep() && n <= 15 && (code_bits >= n || nomore)
      modifies this`code_buffer, this`code_bits, this`at
      ensures old(at) + n <= 8 * |data| ==> InStep() && at == old(at) + n && k == Msb(Flip(data), old(at), n)
    {
      hide Flip, Msb, Carries, And, Pow2, Lrot, NotBMask, BMask;
      TopBits(n);
      BufferBound();
      Rotated(code_buffer, n);
      if code_bits >= n {
        Dropped(data, at, code_bits, n);
      }
      k := Lrot(code_buffer, n);
      code_buffer := And(k, NotBMask(n));
      k := And(k, BMask(n));
      code_bits := code_bits - n;
      at := at + n;
    }

    lemma BufferBound()
      requires InStep()
      ensures code_buffer < BUFFER
    {
      hide Flip, Msb, Pow2;
      MsbBound(Flip(data), at, code_bits);
      MulLe(Msb(Flip(data), at, code_bits), Pow2(code_bits) - 1, Pow2(32 - code_bits));
      MulSub(Pow2(code_bits), 1, Pow2(32 - code_bits));
      Pow2Add(code_bits, 32 - code_bits);
      Pow2Values();
    }

    /** The top bit of the buffer is the top bit of the next `n`. */
    lemma SignBit(n: nat)
      requires InStep() && n <= 15 && (code_bits >= n || nomore)
      ensures n > 0 ==> (code_buffer < 0x8000_0000 <==> Msb(Flip(data), at, n) < Pow2(n - 1))
    {
      hide Flip, Msb, Pow2;
      if n > 0 {
        TopBits(n);
        DivLt(code_buffer, Pow2(32 - n), Pow2(n - 1));
        Pow2Add(n - 1, 32 - n);
        assert n - 1 + (32 - n) == 31;
        Pow2Values();
        Pow2Step(32);
      }
    }

    method SlowSearch(h: Table, ghost lens: seq<nat>, temp: nat) returns (n: nat)
      requires h.Built(lens) && temp < WINDOW
      ensures n == SlowSize(lens, temp, FAST_BITS + 1)
    {
      hide FastId, Limit, FirstSymbol, FirstCode, Kraft, Listed, Decodable;
      n := FAST_BITS + 1;
      while !(temp < h.maxcode[n])
        invariant FAST_BITS + 1 <= n <= 17 && SlowSize(lens, temp, n) == SlowSize(lens, temp, FAST_BITS + 1)
        decreases 17 - n
      {
        n := n + 1;
      }
    }
  }

  ghost predicate FlagFree(lens: seq<nat>)
  {
    |lens| <= 255 || lens[255] > FAST_BITS
  }

  /** Shifting the top `n` bits out leaves the bits after them on top. */
  lemma Dropped(d: seq<Byte>, at: nat, cb: nat, n: nat)
    requires n <= cb <= 32
    ensures Shl(Msb(Flip(d), at, cb), 32 - cb) * Pow2(n) % BUFFER == Shl(Msb(Flip(d), at + n, cb - n), 32 - (cb - n))
  {
    hide Flip, Msb, Pow2;
    var f := Flip(d);
    MsbSplit(f, at, n, cb - n);
    MsbBound(f, at + n, cb - n);
    DropTop(Msb(f, at, n), Msb(f, at + n, cb - n), Pow2(cb - n), Pow2(32 - cb), Pow2(n));
    Pow2Add(cb - n, 32 - cb);
    Pow2Add(32 - n, n);
    Pow2Add(32 - cb, n);
    Pow2Values();
    Regroup(Msb(f, at + n, cb - n), Pow2(32 - cb), Pow2(n));
  }

  /** `stbi_lrot`. */
  function Lrot(x: nat, n: nat): nat
    requires n <= 32
  {
    MulNonneg(x, Pow2(n));
    Or(Shr(x, 32 - n), Shl(x, n) % BUFFER)
  }

  /** `stbi__bmask[n]`, and its complement in 32 bits. */
  function BMask(n: nat): nat
  {
    Pow2(n) - 1
  }

  function NotBMask(n: nat): (m: nat)
    requires n <= 32
    ensures m == (Pow2(32 - n) - 1) * Pow2(n)
  {
    Pow2Add(32 - n, n);
    Pow2Values();
    MulSub(Pow2(32 - n), 1, Pow2(n));
    MulGe(Pow2(32 - n), Pow2(n));
    BUFFER - Pow2(n)
  }

  /** Rotation swaps the top `n` bits with the rest. */
  lemma LrotIs(x: nat, n: nat, hi: nat, lo: nat)
    requires n <= 32 && hi < Pow2(n) && lo < Pow2(32 - n) && x == hi * Pow2(32 - n) + lo
    ensures Lrot(x, n) == lo * Pow2(n) + hi
    ensures x * Pow2(n) % BUFFER == lo * Pow2(n)
  {
    hide Or, Pow2;
    Pow2Add(n, 32 - n);
    Pow2Values();
    ShiftedOut(hi, lo, Pow2(n), Pow2(32 - n));
    DivModIs(x, Pow2(32 - n), hi, lo);
    OrShifted(hi, lo, n);
  }

  lemma Rotated(x: nat, n: nat)
    requires x < BUFFER && n <= 32
    ensures And(Lrot(x, n), NotBMask(n)) == x * Pow2(n) % BUFFER
    ensures And(Lrot(x, n), BMask(n)) == x / Pow2(32 - n)
  {
    hide And, Pow2, Lrot, NotBMask;
    var p, q := Pow2(n), Pow2(32 - n);
    Pow2Add(n, 32 - n);
    Pow2Values();
    HighAndLow(x, p, q);
    RotatedParts(x, n, x / q, x % q);
  }

  lemma HighAndLow(x: nat, p: nat, q: nat)
    requires q > 0 && x < p * q
    ensures 0 <= x / q < p && 0 <= x % q < q && x == x / q * q + x % q
  {
    DivNonneg(x, q);
    DivLt(x, q, p);
  }

  lemma RotatedParts(x: nat, n: nat, hi: nat, lo: nat)
    requires n <= 32 && hi < Pow2(n) && lo < Pow2(32 - n) && x == hi * Pow2(32 - n) + lo
    ensures And(Lrot(x, n), NotBMask(n)) == x * Pow2(n) % BUFFER
    ensures And(Lrot(x, n), BMask(n)) == hi
  {
    hide And, Pow2, Lrot, NotBMask;
    var p, q := Pow2(n), Pow2(32 - n);
    LrotIs(x, n, hi, lo);
    AndHigh(lo, hi, q - 1, n);
    AndMask(lo, 32 - n);
    LowSame(lo, q);
    AndMask(lo * p + hi, n);
    DivModIs(lo * p + hi, p, lo, hi);
  }

  lemma ShiftedOut(hi: nat, lo: nat, p: nat, q: nat)
    requires p > 0 && q > 0 && lo < q
    ensures p * q > 0 && (hi * q + lo) * p % (p * q) == lo * p
  {
    MulGe(p, q);
    assert (hi * q + lo) * p == hi * (p * q) + lo * p;
    MulLe(lo, q - 1, p);
    MulSub(q, 1, p);
    MulLe(0, lo, p);
    DivModIs((hi * q + lo) * p, p * q, hi, lo * p);
  }

  /** `stbi__jbias`. */
  function JBias(n: nat): int
  {
    1 - Pow2(n)
  }

  /** EXTEND of figure F.12 of T.81: `n` magnitude bits as a signed value. */
  function Extend(v: nat, n: nat): int
  {
    if n == 0 then 0
    else if v < Pow2(n - 1) then v - Pow2(n) + 1 else v
  }

  lemma LowSame(v: nat, d: nat)
    requires v < d
    ensures v % d == v
  {
    DivModIs(v, d, 0, v);
  }

  lemma Regroup(m: int, a: int, b: int)
    ensures m * (a * b) == m * a * b
  {
  }

  /** Or-ing a byte in below `n` bits at the top extends them by its eight bits. */
  lemma AddByte(d: seq<Byte>, at: nat, n: nat, q: nat)
    requires at + n == 8 * q && n <= 24
    ensures Or(Shl(ByteAt(d, q), 24 - n), Shl(Msb(Flip(d), at, n), 32 - n))
         == Shl(Msb(Flip(d), at, n + 8), 32 - (n + 8))
  {
    hide Flip, Msb, Or, Pow2, ByteAt;
    var m, b, p := Msb(Flip(d), at, n), ByteAt(d, q), Pow2(24 - n);
    Pow2Add(8, 24 - n);
    Pow2Values();
    OrByte(m, b, n);
    MsbByte(d, q, 8);
    MsbSplit(Flip(d), at, n, 8);
    Regroup(m, 256, p);
    Join(m * 256, b, p);
  }

  lemma OrByte(m: nat, b: Byte, n: nat)
    requires n <= 24
    ensures Or(Shl(b, 24 - n), Shl(m, 32 - n)) == Shl(b, 24 - n) + Shl(m, 32 - n)
  {
    hide Or, Pow2;
    Pow2Add(8, 24 - n);
    Pow2Values();
    MulLe(b, 255, Pow2(24 - n));
    OrShifted(Shl(b, 24 - n), m, 32 - n);
  }

  lemma Join(a: int, b: int, p: int)
    ensures (a + b) * p == a * p + b * p
  {
  }
}
