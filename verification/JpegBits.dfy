/** The entropy-coded bytes of a JPEG scan and the bit reader over them: byte stuffing,
    fill bytes, the marker that ends the data, and the 32-bit buffer filled from the top. */
module JpegBits {
  import opened Words
  import opened BitStream

  /** Bytes with their bits in the opposite order, so that the first bit of each byte is its
      most significant one. */
  function Flip(d: seq<Byte>): (r: seq<Byte>)
    ensures |r| == |d|
  {
    seq(|d|, i requires 0 <= i < |d| => FlipByte(d[i]))
  }

  function FlipByte(b: Byte): Byte
  {
    Pow2Values();
    ReverseBound(b, 8);
    Reverse(b, 8)
  }

  lemma MsbByte(d: seq<Byte>, q: nat, n: nat)
    requires n == 8
    ensures Msb(Flip(d), 8 * q, n) == ByteAt(d, q)
  {
    hide Msb, Lsb, Reverse, Pow2;
    Pow2Values();
    ReverseLsb(Flip(d), 8 * q, n);
    LsbByte(Flip(d), q);
    ReverseTwice(ByteAt(d, q), n);
    if q >= |d| {
      ReverseZero(n);
    }
  }

  lemma {:induction false} ReverseZero(n: nat)
    ensures Reverse(0, n) == 0
  {
    if n > 0 {
      ReverseZero(n - 1);
    }
  }

  /** Past the data there are only zeros. */
  lemma {:induction false} MsbPast(d: seq<Byte>, p: nat, n: nat)
    requires 8 * |d| <= p
    ensures Msb(Flip(d), p, n) == 0
    decreases n
  {
    if n > 0 {
      MsbPast(d, p, n - 1);
      BitPast(d, p + n - 1);
    }
  }

  lemma BitPast(d: seq<Byte>, i: nat)
    requires 8 * |d| <= i
    ensures BitAt(Flip(d), i) == 0
  {
    assert i / 8 >= |d|;
    assert ByteAt(Flip(d), i / 8) == 0;
    ZeroDiv(Pow2(i % 8));
  }

  lemma ZeroDiv(d: nat)
    requires d > 0
    ensures 0 / d == 0
  {
    DivModIs(0, d, 0, 0);
  }

  // ----- stuffing

  /** The first position from `p` on that does not hold 0xff. */
  function SkipFill(file: seq<Byte>, p: nat): (q: nat)
    ensures p <= q && (q < |file| ==> file[q] != 0xff)
    decreases |file| - p
  {
    if p < |file| && file[p] == 0xff then SkipFill(file, p + 1) else p
  }

  /** From `p` on the file carries the data bytes `d`, stuffed, and then a marker. */
  ghost predicate Carries(file: seq<Byte>, p: nat, d: seq<Byte>)
    decreases |d|
  {
    && p < |file|
    && if d == [] then
         var q := SkipFill(file, p + 1);
         file[p] == 0xff && q < |file| && file[q] != 0
       else if d[0] == 0xff then
         var q := SkipFill(file, p + 1);
         file[p] == 0xff && q < |file| && file[q] == 0 && Carries(file, q + 1, d[1..])
       else
         file[p] == d[0] && Carries(file, p + 1, d[1..])
  }

  // ----- arithmetic of a buffer filled from the top

  lemma TopPart(hi: nat, lo: nat, a: nat, b: nat)
    requires a > 0 && b > 0 && lo < a
    ensures (hi * a + lo) * b / (a * b) == hi
  {
    MulGe(a, b);
    var v := (hi * a + lo) * b;
    assert v == hi * (a * b) + lo * b;
    MulLe(lo, a - 1, b);
    MulSub(a, 1, b);
    MulLe(0, lo, b);
    DivModIs(v, a * b, hi, lo * b);
  }

  lemma DropTop(hi: nat, lo: nat, a: nat, b: nat, c: nat)
    requires a > 0 && b > 0 && c > 0 && lo < a
    ensures (hi * a + lo) * b * c % (a * b * c) == lo * b * c
  {
    MulGe(a, b);
    MulGe(a * b, c);
    var v := (hi * a + lo) * b * c;
    assert (hi * a + lo) * b == hi * (a * b) + lo * b;
    assert v == hi * (a * b * c) + lo * b * c;
    MulLe(lo, a - 1, b);
    MulSub(a, 1, b);
    MulLe(0, lo, b);
    MulLe(lo * b, a * b - b, c);
    MulSub(a * b, b, c);
    MulGe(b, c);
    MulLe(0, lo * b, c);
    DivModIs(v, a * b * c, hi, lo * b * c);
  }
}
