/** The mask-and-shift bit reversal of the inflater, proved to reverse bits. A 16-bit word
    is taken apart into nibbles: the first two steps work inside each nibble, the last two
    move whole nibbles. */
module BitReverse {
  import opened Words
  import opened BitStream

  /** Swap neighbouring bits, then pairs, nibbles and bytes. */
  function BitReverse16(v: nat): nat
  {
    var n1 := Or(And(v, 0xAAAA) / 2, And(v, 0x5555) * 2);
    var n2 := Or(And(n1, 0xCCCC) / 4, And(n1, 0x3333) * 4);
    var n3 := Or(And(n2, 0xF0F0) / 16, And(n2, 0x0F0F) * 16);
    Or(And(n3, 0xFF00) / 256, And(n3, 0x00FF) * 256)
  }

  function BitReverseN(v: nat, bits: nat): nat
    requires bits <= 16
  {
    Shr(BitReverse16(v), 16 - bits)
  }

  /** Four nibbles as one word. */
  function Word(x0: nat, x1: nat, x2: nat, x3: nat): nat
  {
    x0 + 16 * (x1 + 16 * (x2 + 16 * x3))
  }

  lemma Half(a: nat, b: nat, k: nat)
    requires k > 0
    ensures (a + Pow2(k) * b) / 2 == a / 2 + Pow2(k - 1) * b
    ensures (a + Pow2(k) * b) % 2 == a % 2
  {
    MulTwiceLeft(Pow2(k - 1), b);
  }

  lemma {:induction false} AndSplit(a: nat, b: nat, c: nat, d: nat, k: nat)
    requires a < Pow2(k) && c < Pow2(k)
    ensures And(a + Pow2(k) * b, c + Pow2(k) * d) == And(a, c) + Pow2(k) * And(b, d)
    decreases k
  {
    hide And;
    if k > 0 {
      Half(a, b, k);
      Half(c, d, k);
      AndStep(a + Pow2(k) * b, c + Pow2(k) * d);
      AndStep(a, c);
      AndSplit(a / 2, b, c / 2, d, k - 1);
      MulTwiceLeft(Pow2(k - 1), And(b, d));
    } else {
      AndStep(0, 0);
    }
  }

  lemma {:induction false} OrSplit(a: nat, b: nat, c: nat, d: nat, k: nat)
    requires a < Pow2(k) && c < Pow2(k)
    ensures Or(a + Pow2(k) * b, c + Pow2(k) * d) == Or(a, c) + Pow2(k) * Or(b, d)
    decreases k
  {
    hide Or;
    if k > 0 {
      Half(a, b, k);
      Half(c, d, k);
      OrStep(a + Pow2(k) * b, c + Pow2(k) * d);
      OrStep(a, c);
      OrSplit(a / 2, b, c / 2, d, k - 1);
      MulTwiceLeft(Pow2(k - 1), Or(b, d));
    } else {
      OrStep(0, 0);
    }
  }

  lemma AndWord(x0: nat, x1: nat, x2: nat, x3: nat, m0: nat, m1: nat, m2: nat, m3: nat)
    requires x0 < 16 && x1 < 16 && x2 < 16 && m0 < 16 && m1 < 16 && m2 < 16
    ensures And(Word(x0, x1, x2, x3), Word(m0, m1, m2, m3))
         == Word(And(x0, m0), And(x1, m1), And(x2, m2), And(x3, m3))
  {
    hide And;
    AndDigit(x2, x3, m2, m3);
    AndDigit(x1, x2 + 16 * x3, m1, m2 + 16 * m3);
    AndDigit(x0, x1 + 16 * (x2 + 16 * x3), m0, m1 + 16 * (m2 + 16 * m3));
  }

  lemma AndDigit(x: nat, xs: nat, m: nat, ms: nat)
    requires x < 16 && m < 16
    ensures And(x + 16 * xs, m + 16 * ms) == And(x, m) + 16 * And(xs, ms)
  {
    hide And, Pow2;
    Pow2Values();
    AndSplit(x, xs, m, ms, 4);
  }

  lemma OrWord(x0: nat, x1: nat, x2: nat, x3: nat, m0: nat, m1: nat, m2: nat, m3: nat)
    requires x0 < 16 && x1 < 16 && x2 < 16 && m0 < 16 && m1 < 16 && m2 < 16
    ensures Or(Word(x0, x1, x2, x3), Word(m0, m1, m2, m3))
         == Word(Or(x0, m0), Or(x1, m1), Or(x2, m2), Or(x3, m3))
  {
    hide Or;
    OrDigit(x2, x3, m2, m3);
    OrDigit(x1, x2 + 16 * x3, m1, m2 + 16 * m3);
    OrDigit(x0, x1 + 16 * (x2 + 16 * x3), m0, m1 + 16 * (m2 + 16 * m3));
  }

  lemma OrDigit(x: nat, xs: nat, m: nat, ms: nat)
    requires x < 16 && m < 16
    ensures Or(x + 16 * xs, m + 16 * ms) == Or(x, m) + 16 * Or(xs, ms)
  {
    hide Or, Pow2;
    Pow2Values();
    OrSplit(x, xs, m, ms, 4);
  }

  function Swap1(x: nat): nat { Or(And(x, 10) / 2, And(x, 5) * 2) }
  function Swap2(x: nat): nat { Or(And(x, 12) / 4, And(x, 3) * 4) }

  /** A nibble from its bits. */
  function Nibble(b0: Bit, b1: Bit, b2: Bit, b3: Bit): nat
  {
    b0 + 2 * (b1 + 2 * (b2 + 2 * b3))
  }

  lemma NibbleBits(x: nat) returns (b0: Bit, b1: Bit, b2: Bit, b3: Bit)
    requires x < 16
    ensures x == Nibble(b0, b1, b2, b3)
  {
    b0, b1, b2, b3 := x % 2, x / 2 % 2, x / 4 % 2, x / 8;
  }

  lemma AndBit(a: Bit, b: nat, c: Bit, d: nat)
    ensures And(a + 2 * b, c + 2 * d) == a * c + 2 * And(b, d)
  {
    hide And;
    AndStep(a + 2 * b, c + 2 * d);
    assert (a + 2 * b) / 2 == b && (c + 2 * d) / 2 == d;
  }

  lemma OrBit(a: Bit, b: nat, c: Bit, d: nat)
    requires a * c == 0
    ensures Or(a + 2 * b, c + 2 * d) == a + c + 2 * Or(b, d)
  {
    hide Or;
    OrStep(a + 2 * b, c + 2 * d);
    assert (a + 2 * b) / 2 == b && (c + 2 * d) / 2 == d;
  }

  lemma AndNibble(a0: Bit, a1: Bit, a2: Bit, a3: Bit, m0: Bit, m1: Bit, m2: Bit, m3: Bit)
    ensures And(Nibble(a0, a1, a2, a3), Nibble(m0, m1, m2, m3))
         == Nibble(a0 * m0, a1 * m1, a2 * m2, a3 * m3)
  {
    hide And;
    AndBit(a0, a1 + 2 * (a2 + 2 * a3), m0, m1 + 2 * (m2 + 2 * m3));
    AndBit(a1, a2 + 2 * a3, m1, m2 + 2 * m3);
    AndBit(a2, a3, m2, m3);
    AndBit(a3, 0, m3, 0);
    AndZero(0);
  }

  lemma OrNibble(a0: Bit, a1: Bit, a2: Bit, a3: Bit, m0: Bit, m1: Bit, m2: Bit, m3: Bit)
    requires a0 * m0 == 0 && a1 * m1 == 0 && a2 * m2 == 0 && a3 * m3 == 0
    ensures Or(Nibble(a0, a1, a2, a3), Nibble(m0, m1, m2, m3))
         == Nibble(a0 + m0, a1 + m1, a2 + m2, a3 + m3)
  {
    hide Or;
    OrBit(a0, a1 + 2 * (a2 + 2 * a3), m0, m1 + 2 * (m2 + 2 * m3));
    OrBit(a1, a2 + 2 * a3, m1, m2 + 2 * m3);
    OrBit(a2, a3, m2, m3);
    OrBit(a3, 0, m3, 0);
    OrZero(0);
  }

  lemma NibbleMasked(b0: Bit, b1: Bit, b2: Bit, b3: Bit)
    ensures var x := Nibble(b0, b1, b2, b3);
            && And(x, 10) == Nibble(0, b1, 0, b3) && And(x, 5) == Nibble(b0, 0, b2, 0)
            && And(x, 12) == Nibble(0, 0, b2, b3) && And(x, 3) == Nibble(b0, b1, 0, 0)
            && And(x, 15) == x && And(x, 0) == 0
  {
    hide And;
    AndNibble(b0, b1, b2, b3, 0, 1, 0, 1);
    AndNibble(b0, b1, b2, b3, 1, 0, 1, 0);
    AndNibble(b0, b1, b2, b3, 0, 0, 1, 1);
    AndNibble(b0, b1, b2, b3, 1, 1, 0, 0);
    AndNibble(b0, b1, b2, b3, 1, 1, 1, 1);
    AndZero(Nibble(b0, b1, b2, b3));
  }

  lemma NibbleParts(x: nat)
    requires x < 16
    ensures And(x, 10) % 2 == 0 && And(x, 10) < 16 && And(x, 5) < 8
    ensures And(x, 12) % 4 == 0 && And(x, 12) < 16 && And(x, 3) < 4
    ensures And(x, 15) == x && And(x, 0) == 0
  {
    hide And;
    var b0, b1, b2, b3 := NibbleBits(x);
    NibbleMasked(b0, b1, b2, b3);
  }

  lemma NibbleSwapped(b0: Bit, b1: Bit, b2: Bit, b3: Bit)
    ensures Swap1(Nibble(b0, b1, b2, b3)) == Nibble(b1, b0, b3, b2)
    ensures Swap2(Nibble(b0, b1, b2, b3)) == Nibble(b2, b3, b0, b1)
  {
    hide And, Or;
    NibbleMasked(b0, b1, b2, b3);
    OrNibble(b1, 0, b3, 0, 0, b0, 0, b2);
    OrNibble(b2, b3, 0, 0, 0, 0, b0, b1);
  }

  lemma NibbleReversed(x: nat)
    requires x < 16
    ensures Swap1(x) < 16 && Swap2(Swap1(x)) == Reverse(x, 4) < 16
  {
    hide Swap1, Swap2, Reverse;
    var b0, b1, b2, b3 := NibbleBits(x);
    NibbleSwapped(b0, b1, b2, b3);
    NibbleSwapped(b1, b0, b3, b2);
    ReverseNibble(b0, b1, b2, b3);
  }

  lemma ReverseNibble(b0: Bit, b1: Bit, b2: Bit, b3: Bit)
    ensures Reverse(Nibble(b0, b1, b2, b3), 4) == Nibble(b3, b2, b1, b0)
  {
    hide Reverse;
    Pow2Values();
    ReverseBit(b0, b1 + 2 * (b2 + 2 * b3), 4);
    ReverseBit(b1, b2 + 2 * b3, 3);
    ReverseBit(b2, b3, 2);
    ReverseBit(b3, 0, 1);
    ReverseStep(0, 1);
  }

  lemma ReverseBit(b: Bit, v: nat, n: nat)
    requires n > 0
    ensures Reverse(b + 2 * v, n) == b * Pow2(n - 1) + Reverse(v, n - 1)
  {
    hide Reverse;
    ReverseStep(b + 2 * v, n);
    assert (b + 2 * v) / 2 == v;
  }

  /** The masks 0xAAAA, 0x5555, 0xCCCC and 0x3333 swap inside each nibble. */
  lemma SwapInNibbles1(x0: nat, x1: nat, x2: nat, x3: nat, h: nat)
    requires x0 < 16 && x1 < 16 && x2 < 16 && x3 < 16
    ensures var v := Word(x0, x1, x2, x3 + 16 * h);
            Or(And(v, 0xAAAA) / 2, And(v, 0x5555) * 2) == Word(Swap1(x0), Swap1(x1), Swap1(x2), Swap1(x3))
  {
    hide And, Or;
    NibbleParts(x0); NibbleParts(x1); NibbleParts(x2); NibbleParts(x3);
    TopNibble(x3, h, 10);
    TopNibble(x3, h, 5);
    AndWord(x0, x1, x2, x3 + 16 * h, 10, 10, 10, 10);
    AndWord(x0, x1, x2, x3 + 16 * h, 5, 5, 5, 5);
    WordHalf(And(x0, 10), And(x1, 10), And(x2, 10), And(x3, 10));
    OrWord(And(x0, 10) / 2, And(x1, 10) / 2, And(x2, 10) / 2, And(x3, 10) / 2,
           And(x0, 5) * 2, And(x1, 5) * 2, And(x2, 5) * 2, And(x3, 5) * 2);
  }

  lemma SwapInNibbles2(x0: nat, x1: nat, x2: nat, x3: nat)
    requires x0 < 16 && x1 < 16 && x2 < 16 && x3 < 16
    ensures var v := Word(x0, x1, x2, x3);
            Or(And(v, 0xCCCC) / 4, And(v, 0x3333) * 4) == Word(Swap2(x0), Swap2(x1), Swap2(x2), Swap2(x3))
  {
    hide And, Or;
    NibbleParts(x0); NibbleParts(x1); NibbleParts(x2); NibbleParts(x3);
    AndWord(x0, x1, x2, x3, 12, 12, 12, 12);
    AndWord(x0, x1, x2, x3, 3, 3, 3, 3);
    WordQuarter(And(x0, 12), And(x1, 12), And(x2, 12), And(x3, 12));
    OrWord(And(x0, 12) / 4, And(x1, 12) / 4, And(x2, 12) / 4, And(x3, 12) / 4,
           And(x0, 3) * 4, And(x1, 3) * 4, And(x2, 3) * 4, And(x3, 3) * 4);
  }

  lemma WordHalf(x0: nat, x1: nat, x2: nat, x3: nat)
    requires x0 % 2 == 0 && x1 % 2 == 0 && x2 % 2 == 0 && x3 % 2 == 0
    ensures Word(x0, x1, x2, x3) / 2 == Word(x0 / 2, x1 / 2, x2 / 2, x3 / 2)
  {
  }

  lemma WordQuarter(x0: nat, x1: nat, x2: nat, x3: nat)
    requires x0 % 4 == 0 && x1 % 4 == 0 && x2 % 4 == 0 && x3 % 4 == 0
    ensures Word(x0, x1, x2, x3) / 4 == Word(x0 / 4, x1 / 4, x2 / 4, x3 / 4)
  {
  }

  lemma TopNibble(x: nat, h: nat, m: nat)
    requires x < 16 && m < 16
    ensures And(x + 16 * h, m) == And(x, m)
  {
    hide And;
    Pow2Values();
    AndSplit(x, h, m, 0, 4);
    AndZero(h);
  }

  /** The masks 0xF0F0, 0x0F0F, 0xFF00 and 0x00FF move whole nibbles. */
  lemma SwapNibbles(y0: nat, y1: nat, y2: nat, y3: nat)
    requires y0 < 16 && y1 < 16 && y2 < 16 && y3 < 16
    ensures var v := Word(y0, y1, y2, y3);
            Or(And(v, 0xF0F0) / 16, And(v, 0x0F0F) * 16) == Word(y1, y0, y3, y2)
  {
    hide And, Or;
    NibbleParts(y0); NibbleParts(y1); NibbleParts(y2); NibbleParts(y3);
    AndWord(y0, y1, y2, y3, 0, 15, 0, 15);
    AndWord(y0, y1, y2, y3, 15, 0, 15, 0);
    OrWord(y1, 0, y3, 0, 0, y0, 0, y2);
    OrZero(y0); OrZero(y1); OrZero(y2); OrZero(y3);
  }

  lemma SwapBytes(y0: nat, y1: nat, y2: nat, y3: nat)
    requires y0 < 16 && y1 < 16 && y2 < 16 && y3 < 16
    ensures var v := Word(y0, y1, y2, y3);
            Or(And(v, 0xFF00) / 256, And(v, 0x00FF) * 256) == Word(y2, y3, y0, y1)
  {
    hide And, Or;
    NibbleParts(y0); NibbleParts(y1); NibbleParts(y2); NibbleParts(y3);
    AndWord(y0, y1, y2, y3, 0, 0, 15, 15);
    AndWord(y0, y1, y2, y3, 15, 15, 0, 0);
    OrWord(y2, y3, 0, 0, 0, 0, y0, y1);
    OrZero(y0); OrZero(y1); OrZero(y2); OrZero(y3);
  }

  lemma {:induction false} ReverseConcat(lo: nat, hi: nat, a: nat, b: nat)
    requires lo < Pow2(a)
    ensures Reverse(lo + Pow2(a) * hi, a + b) == Reverse(lo, a) * Pow2(b) + Reverse(hi, b)
    decreases a
  {
    if a > 0 {
      Half(lo, hi, a);
      ReverseConcat(lo / 2, hi, a - 1, b);
      Pow2Add(a - 1, b);
      Distribute(lo % 2, Pow2(a - 1), Reverse(lo / 2, a - 1), Pow2(b));
    }
  }

  lemma Distribute(b: int, p: int, r: int, q: int)
    ensures (b * p + r) * q == b * (p * q) + r * q
  {
  }

  lemma ReverseWord(x0: nat, x1: nat, x2: nat, x3: nat, q: nat)
    requires x0 < 16 && x1 < 16 && x2 < 16 && x3 < 16 && q == 4
    ensures Reverse(Word(x0, x1, x2, x3), 4 * q)
         == Word(Reverse(x3, q), Reverse(x2, q), Reverse(x1, q), Reverse(x0, q))
  {
    hide Reverse;
    Pow2Values();
    var w1 := x2 + 16 * x3;
    var w2 := x1 + 16 * w1;
    ReverseAfterNibble(x2, x3, q, 16);
    ReverseAfterNibble(x1, w1, 2 * q, 256);
    ReverseAfterNibble(x0, w2, 3 * q, 4096);
  }

  lemma ReverseAfterNibble(lo: nat, hi: nat, b: nat, p: nat)
    requires lo < 16 && p == Pow2(b)
    ensures Reverse(lo + 16 * hi, 4 + b) == p * Reverse(lo, 4) + Reverse(hi, b)
  {
    hide Reverse;
    Pow2Values();
    ReverseConcat(lo, hi, 4, b);
  }

  /** The mask-and-shift reversal reverses the low sixteen bits. */
  lemma BitReverse16Correct(v: nat)
    ensures BitReverse16(v) == Reverse(v, 16)
  {
    hide And, Or, Reverse, Swap1, Swap2, Word;
    var x0, x1, x2, x3, h := Nibbles(v);
    NibbleReversed(x0); NibbleReversed(x1); NibbleReversed(x2); NibbleReversed(x3);
    SwapInNibbles1(x0, x1, x2, x3, h);
    SwapInNibbles2(Swap1(x0), Swap1(x1), Swap1(x2), Swap1(x3));
    SwapNibbles(Reverse(x0, 4), Reverse(x1, 4), Reverse(x2, 4), Reverse(x3, 4));
    SwapBytes(Reverse(x1, 4), Reverse(x0, 4), Reverse(x3, 4), Reverse(x2, 4));
    ReverseWord(x0, x1, x2, x3, 4);
    LowWord(v, x0, x1, x2, x3, h);
  }

  lemma Nibbles(v: nat) returns (x0: nat, x1: nat, x2: nat, x3: nat, h: nat)
    ensures x0 < 16 && x1 < 16 && x2 < 16 && x3 < 16
    ensures v == Word(x0, x1, x2, x3 + 16 * h)
  {
    var v1 := v / 16;
    var v2 := v1 / 16;
    var v3 := v2 / 16;
    x0, x1, x2, x3, h := v % 16, v1 % 16, v2 % 16, v3 % 16, v3 / 16;
  }

  lemma LowWord(v: nat, x0: nat, x1: nat, x2: nat, x3: nat, h: nat)
    requires x0 < 16 && x1 < 16 && x2 < 16 && x3 < 16
    requires v == Word(x0, x1, x2, x3 + 16 * h)
    ensures Reverse(v, 16) == Reverse(Word(x0, x1, x2, x3), 16)
  {
    hide Reverse, Pow2;
    Pow2Values();
    var w := Word(x0, x1, x2, x3);
    DivModIs(v, 65536, h, w);
    DivModIs(w, 65536, 0, w);
    ReverseLow(v, w, 16);
  }

  /** Reversing `n` bits and keeping the top `l` reverses the low `l` bits. */
  lemma {:induction false} ReversePrefix(v: nat, n: nat, l: nat)
    requires l <= n
    ensures Reverse(v, n) / Pow2(n - l) == Reverse(v, l)
    decreases n
  {
    hide Reverse;
    Pow2Values();
    if l < n {
      ReverseLast(v, n);
      ReversePrefix(v, n - 1, l);
      DivDiv(Reverse(v, n), 1, n - 1 - l);
      assert Reverse(v, n) / 2 == Reverse(v, n - 1);
    }
  }

  lemma BitReverseNCorrect(v: nat, bits: nat)
    requires bits <= 16
    ensures BitReverseN(v, bits) == Reverse(v, bits)
  {
    hide BitReverse16, Reverse;
    BitReverse16Correct(v);
    ReversePrefix(v, 16, bits);
  }
}
