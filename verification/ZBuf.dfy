/** The bit reader of the inflater: `stbi__zbuf` with its 32-bit buffer, and the two-level
    Huffman decoder that reads through it. */
module ZBuf {
  import opened Words
  import opened BitStream
  import opened BitReverse
  import opened Huffman
  import opened ZHuffman

  /** The next sixteen bits at position `p`, in the order codes are compared. */
  function Window(s: seq<Byte>, p: nat): nat
  {
    Msb(s, p, 16)
  }

  class ZBuf {
    const input: seq<Byte>
    var zbuffer: nat
    var num_bits: nat
    var code_buffer: nat
    var zout: seq<Byte>
    const z_length: Table
    const z_distance: Table
    // where the reader stands in the zero-padded bit stream, and how many of the bytes it
    // has taken were padding
    ghost var at: nat
    ghost var padding: nat

    /** The three fields denote one position of the zero-padded stream. */
    ghost predicate InStep()
      reads this
    {
      && zbuffer <= |input| && (padding > 0 ==> zbuffer == |input|)
      && num_bits <= 32 && at + num_bits == 8 * (zbuffer + padding)
      && code_buffer == Lsb(input, at, num_bits)
    }

    ghost predicate TablesApart()
    {
      z_length.Valid() && z_distance.Valid() && z_length.Arrays() !! z_distance.Arrays()
    }

    constructor (bytes: seq<Byte>)
      ensures InStep() && TablesApart()
      ensures input == bytes && zbuffer == 0 && padding == 0 && zout == [] && num_bits == 0
      ensures fresh(z_length.Arrays()) && fresh(z_distance.Arrays())
    {
      input := bytes;
      zbuffer, num_bits, code_buffer, at, padding := 0, 0, 0, 0, 0;
      zout := [];
      z_length := new Table();
      z_distance := new Table();
    }

    lemma BufferBound()
      requires InStep()
      ensures code_buffer < Pow2(num_bits)
    {
      LsbBound(input, at, num_bits);
    }

    /** `stbi__zget8`: past the end it keeps answering 0. */
    method GetByte() returns (b: Byte)
      requires zbuffer <= |input| && (padding > 0 ==> zbuffer == |input|)
      modifies this`zbuffer, this`padding
      ensures zbuffer <= |input| && (padding > 0 ==> zbuffer == |input|)
      ensures zbuffer + padding == old(zbuffer + padding) + 1
      ensures b == ByteAt(input, old(zbuffer + padding))
      ensures old(zbuffer) < |input| ==> zbuffer == old(zbuffer) + 1 && padding == old(padding)
    {
      if zbuffer >= |input| {
        padding := padding + 1;
        return 0;
      }
      b := input[zbuffer];
      zbuffer := zbuffer + 1;
    }

    method FillBits()
      requires InStep() && num_bits <= 24
      modifies this`zbuffer, this`padding, this`num_bits, this`code_buffer
      ensures InStep() && num_bits > 24
    {
      hide Lsb, Or, Pow2;
      var more := true;
      while more
        invariant InStep()
        invariant more ==> num_bits <= 24
        invariant !more ==> num_bits > 24
        decreases more, 32 - num_bits
      {
        BufferBound();
        assert code_buffer < Pow2(num_bits);
        ghost var q := zbuffer + padding;
        var b := GetByte();
        FillStep(input, at, num_bits, q);
        code_buffer := Or(code_buffer, b * Pow2(num_bits));
        num_bits := num_bits + 8;
        more := num_bits <= 24;
      }
    }

    /** Drop `n` buffered bits. */
    method Consume(n: nat)
      requires InStep() && n <= num_bits
      modifies this`num_bits, this`code_buffer, this`at
      ensures InStep() && at == old(at) + n && num_bits == old(num_bits) - n
    {
      LsbSplit(input, at, n, num_bits - n);
      LsbBound(input, at, n);
      DivModIs(code_buffer, Pow2(n), Lsb(input, at + n, num_bits - n), Lsb(input, at, n));
      code_buffer := code_buffer / Pow2(n);
      num_bits := num_bits - n;
      at := at + n;
    }

    /** The low `n` buffered bits. */
    lemma Peek(n: nat)
      requires InStep() && n <= num_bits
      ensures And(code_buffer, Pow2(n) - 1) == code_buffer % Pow2(n) == Lsb(input, at, n)
    {
      hide And, Lsb;
      AndMask(code_buffer, n);
      LsbSplit(input, at, n, num_bits - n);
      LsbBound(input, at, n);
      DivModIs(code_buffer, Pow2(n), Lsb(input, at + n, num_bits - n), Lsb(input, at, n));
    }

    /** `stbi__zreceive`. */
    method Receive(n: nat) returns (k: nat)
      requires InStep() && n <= 25
      modifies this`zbuffer, this`padding, this`num_bits, this`code_buffer, this`at
      ensures InStep() && at == old(at) + n
      ensures k == Lsb(input, old(at), n)
      ensures num_bits <= 32 - n && (n <= old(num_bits) ==> num_bits == old(num_bits) - n)
    {
      if num_bits < n {
        FillBits();
      }
      Peek(n);
      k := And(code_buffer, Pow2(n) - 1);
      Consume(n);
    }

    /** `stbi__zhuffman_decode`: the symbol whose code comes next, or -1. */
    method Decode(z: Table, ghost lens: seq<nat>) returns (sym: int)
      requires InStep() && z.Built(lens)
      modifies this`zbuffer, this`padding, this`num_bits, this`code_buffer, this`at
      ensures InStep()
      ensures sym == Symbol(lens, Window(input, old(at)))
      ensures at == old(at) + (if sym >= 0 then lens[sym] else 0)
    {
      hide And, Lsb, Msb, FirstCode, Count, Reverse, Limit, FirstSymbol, Kraft, Pow2;
      if num_bits < 16 {
        FillBits();
      }
      var b := LookUp(z, lens);
      if b != 0 {
        ghost var i := FastHit(z, lens, b);
        var s := b / 512;
        Consume(s);
        sym := b % 512;
      } else {
        sym := DecodeSlowly(z, lens);
      }
    }

    method LookUp(z: Table, ghost lens: seq<nat>) returns (b: nat)
      requires InStep() && num_bits >= 16 && z.Built(lens)
      ensures Lsb(input, at, 9) < FAST_SIZE && b == z.fast[Lsb(input, at, 9)]
    {
      hide And, Lsb, Msb, FirstCode, Count, Reverse, Limit, FirstSymbol, Kraft;
      Pow2Values();
      Peek(9);
      LsbBound(input, at, 9);
      b := z.fast[And(code_buffer, 511)];
    }

    /** A non-zero fast entry belongs to the one symbol that matches. */
    lemma FastHit(z: Table, lens: seq<nat>, b: nat) returns (i: nat)
      requires InStep() && num_bits >= 16 && z.Built(lens)
      requires Lsb(input, at, 9) < FAST_SIZE && b == z.fast[Lsb(input, at, 9)] != 0
      ensures Matches(lens, Window(input, at), i) && Symbol(lens, Window(input, at)) == i
      ensures lens[i] <= 9 && b / 512 == lens[i] && b % 512 == i
    {
      hide And, Lsb, Msb, FirstCode, Count, Reverse, Limit, FirstSymbol, Kraft;
      var j := Lsb(input, at, 9);
      i :| i < |lens| && FastMatch(lens, j, i);
      assert b == FastEntry(lens, i);
      FastWindowIs(input, at, 9);
      ShortMatch(lens, FastWindow(j), Window(input, at), i);
      SymbolIs(lens, Window(input, at), i);
    }

    /** `stbi__zhuffman_decode_slowpath`. */
    method DecodeSlowly(z: Table, ghost lens: seq<nat>) returns (sym: int)
      requires InStep() && num_bits >= 16 && z.Built(lens)
      requires Lsb(input, at, 9) < FAST_SIZE && z.fast[Lsb(input, at, 9)] == 0
      modifies this`num_bits, this`code_buffer, this`at
      ensures InStep()
      ensures sym == Symbol(lens, Window(input, old(at)))
      ensures at == old(at) + (if sym >= 0 then lens[sym] else 0)
    {
      hide And, Lsb, Msb, FirstCode, Count, Reverse, Limit, FirstSymbol, Kraft, BitReverseN, Pow2, Slot,
        Symbol, Matches;
      var k := BitReverseN(code_buffer, 16);
      BufferWindow(k);
      NoShortCode(z, lens, k);
      var s: nat := FAST_BITS + 1;
      while !(k < z.maxcode[s])
        invariant FAST_BITS + 1 <= s <= 16
        invariant Limit(lens, s - 1) <= k
        decreases 16 - s
      {
        s := s + 1;
      }
      if s == 16 {
        NothingMatches(lens, k);
        return -1;
      }
      ghost var i := IntervalMatch(lens, k, s);
      SlowSlot(lens, k, s, i);
      var b := k / Pow2(16 - s) - z.firstcode[s] + z.firstsymbol[s];
      assert z.size[b] == s;
      Consume(s);
      SymbolIs(lens, k, i);
      sym := z.value[b];
    }

    lemma BufferWindow(k: nat)
      requires InStep() && num_bits >= 16
      requires k == BitReverseN(code_buffer, 16)
      ensures k == Window(input, at) < WINDOW
    {
      hide And, Lsb, Msb, Reverse, BitReverseN;
      var n := 16;
      Pow2Values();
      BitReverseNCorrect(code_buffer, n);
      Peek(n);
      LowLow(code_buffer, Pow2(n));
      ReverseLow(code_buffer, Lsb(input, at, n), n);
      ReverseLsb(input, at, n);
      MsbBound(input, at, n);
    }

    /** A zero fast entry means no code of nine bits or fewer matches. */
    lemma NoShortCode(z: Table, lens: seq<nat>, k: nat)
      requires z.Built(lens) && k == Window(input, at)
      requires Lsb(input, at, 9) < FAST_SIZE && z.fast[Lsb(input, at, 9)] == 0
      ensures Limit(lens, FAST_BITS) <= k
    {
      hide Lsb, Msb, FirstCode, Count, Reverse, Limit, FirstSymbol, Kraft;
      var j := Lsb(input, at, 9);
      ShortCodesFill(lens, k, FAST_BITS);
      if k < Limit(lens, FAST_BITS) {
        var i: nat :| Matches(lens, k, i) && lens[i] <= FAST_BITS;
        FastWindowIs(input, at, 9);
        ShortMatch(lens, k, FastWindow(j), i);
        FastAnswer(z, lens, j, i);
      }
    }

    static lemma FastAnswer(z: Table, lens: seq<nat>, j: nat, i: nat)
      requires z.Built(lens) && j < FAST_SIZE
      requires Matches(lens, FastWindow(j), i) && lens[i] <= FAST_BITS
      ensures z.fast[j] == FastEntry(lens, i) > 0
    {
      hide FirstCode, Count, Reverse, Limit, FirstSymbol, Kraft;
      assert FastMatch(lens, j, i);
    }
  }

  /** Or-ing the next byte above `n` buffered bits extends the buffer by its eight bits. */
  lemma FillStep(s: seq<Byte>, at: nat, n: nat, q: nat)
    requires at + n == 8 * q
    ensures Or(Lsb(s, at, n), ByteAt(s, q) * Pow2(n)) == Lsb(s, at, n + 8)
  {
    hide Lsb, Or, Pow2, ByteAt;
    LsbBound(s, at, n);
    OrShifted(Lsb(s, at, n), ByteAt(s, q), n);
    LsbByte(s, q);
    LsbSplit(s, at, n, 8);
  }

  /** The fast index is the first nine bits of the window. */
  lemma FastWindowIs(input: seq<Byte>, at: nat, nine: nat)
    requires nine == FAST_BITS
    ensures FastWindow(Lsb(input, at, nine)) / 128 == Window(input, at) / 128
  {
    hide Lsb, Msb, Reverse;
    ReverseLsb(input, at, nine);
    MsbPrefix(input, at, nine, 16);
    assert Pow2(7) == 128;
    DivModIs(FastWindow(Lsb(input, at, nine)), 128, Msb(input, at, nine), 0);
  }

  lemma NothingMatches(lens: seq<nat>, k: nat)
    requires SizeList(lens) && Limit(lens, 15) <= k
    ensures Symbol(lens, k) == -1
  {
    hide FirstCode, Count, Kraft, Code;
    ShortCodesFill(lens, k, 15);
  }

  /** The slot the slow path computes is the slot of the matching symbol. */
  lemma SlowSlot(lens: seq<nat>, k: nat, s: nat, i: nat)
    requires 0 < s <= 15 && Matches(lens, k, i) && lens[i] == s
    requires k / Pow2(MAX_LENGTH - s) == FirstCode(lens, s) + Rank(lens, i)
    ensures k / Pow2(16 - s) - FirstCode(lens, s) + FirstSymbol(lens, s) == Slot(lens, i)
  {
  }
}
