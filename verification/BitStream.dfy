/** The bits of a byte string, least significant bit of each byte first, followed by
    endless zeros: the order in which section 3.1.1 of RFC 1951 packs DEFLATE data, with
    the padding a reader sees when it asks for bytes past the end. */
module BitStream {
  import opened Words

  type Bit = x: int | 0 <= x < 2

  function ByteAt(s: seq<Byte>, q: nat): Byte
  {
    if q < |s| then s[q] else 0
  }

  function BitAt(s: seq<Byte>, i: nat): Bit
  {
    ByteAt(s, i / 8) / Pow2(i % 8) % 2
  }

  /** The `n` bits from position `p`, first bit least significant. */
  function Lsb(s: seq<Byte>, p: nat, n: nat): nat
    decreases n
  {
    if n == 0 then 0 else BitAt(s, p) + 2 * Lsb(s, p + 1, n - 1)
  }

  /** The `n` bits from position `p`, first bit most significant. */
  function Msb(s: seq<Byte>, p: nat, n: nat): nat
    decreases n
  {
    if n == 0 then 0 else 2 * Msb(s, p, n - 1) + BitAt(s, p + n - 1)
  }

  /** The low `n` bits of `v`, in the opposite order. */
  function Reverse(v: nat, n: nat): nat
    decreases n
  {
    if n == 0 then 0 else (v % 2) * Pow2(n - 1) + Reverse(v / 2, n - 1)
  }

  lemma LsbStep(s: seq<Byte>, p: nat, n: nat)
    ensures Lsb(s, p, n) == if n == 0 then 0 else BitAt(s, p) + 2 * Lsb(s, p + 1, n - 1)
    ensures Lsb(s, p, 0) == 0
  {
    hide BitAt;
  }

  lemma MsbStep(s: seq<Byte>, p: nat, n: nat)
    ensures Msb(s, p, n) == if n == 0 then 0 else 2 * Msb(s, p, n - 1) + BitAt(s, p + n - 1)
    ensures Msb(s, p, 0) == 0
  {
    hide BitAt;
  }

  lemma {:induction false} LsbBound(s: seq<Byte>, p: nat, n: nat)
    ensures Lsb(s, p, n) < Pow2(n)
    decreases n
  {
    hide BitAt;
    if n > 0 {
      LsbBound(s, p + 1, n - 1);
    }
  }

  lemma {:induction false} MsbBound(s: seq<Byte>, p: nat, n: nat)
    ensures Msb(s, p, n) < Pow2(n)
    decreases n
  {
    hide BitAt;
    if n > 0 {
      MsbBound(s, p, n - 1);
    }
  }

  /** Reading `a + b` bits is reading `a` and then `b`. */
  lemma {:induction false} LsbSplit(s: seq<Byte>, p: nat, a: nat, b: nat)
    ensures Lsb(s, p, a + b) == Lsb(s, p, a) + Lsb(s, p + a, b) * Pow2(a)
    decreases a
  {
    hide BitAt, Pow2, Lsb;
    if a == 0 {
      Pow2Values();
      LsbStep(s, p, 0);
    } else {
      LsbStep(s, p, a);
      LsbStep(s, p, a + b);
      LsbSplit(s, p + 1, a - 1, b);
      MulPow2Step(Lsb(s, p + a, b), a);
    }
  }

  lemma {:induction false} MsbSplit(s: seq<Byte>, p: nat, a: nat, b: nat)
    ensures Msb(s, p, a + b) == Msb(s, p, a) * Pow2(b) + Msb(s, p + a, b)
    decreases b
  {
    hide BitAt, Pow2, Msb;
    if b == 0 {
      Pow2Values();
      MsbStep(s, p + a, 0);
    } else {
      MsbStep(s, p + a, b);
      MsbStep(s, p, a + b);
      MsbSplit(s, p, a, b - 1);
      MulPow2Step(Msb(s, p, a), b);
    }
  }

  /** A prefix of a window, read most significant bit first, is the window shifted down. */
  lemma MsbPrefix(s: seq<Byte>, p: nat, a: nat, n: nat)
    requires a <= n
    ensures Msb(s, p, n) / Pow2(n - a) == Msb(s, p, a)
  {
    hide Msb, Pow2;
    MsbSplit(s, p, a, n - a);
    MsbBound(s, p + a, n - a);
    DivModIs(Msb(s, p, n), Pow2(n - a), Msb(s, p, a), Msb(s, p + a, n - a));
  }

  /** The two readings of the same bits are bit reversals of each other. */
  lemma {:induction false} ReverseLsb(s: seq<Byte>, p: nat, n: nat)
    ensures Reverse(Lsb(s, p, n), n) == Msb(s, p, n)
    decreases n
  {
    hide BitAt, Pow2, Lsb, Msb, Reverse;
    if n == 0 {
      LsbStep(s, p, n);
      MsbStep(s, p, n);
      ReverseStep(0, 1);
    } else {
      LsbStep(s, p, n);
      ReverseStep(Lsb(s, p, n), n);
      ReverseLsb(s, p + 1, n - 1);
      MsbSplit(s, p, 1, n - 1);
      MsbStep(s, p, 1);
      MsbStep(s, p, 0);
    }
  }

  lemma ReverseStep(v: nat, n: nat)
    requires n > 0
    ensures Reverse(v, n) == (v % 2) * Pow2(n - 1) + Reverse(v / 2, n - 1)
    ensures Reverse(v, 0) == 0
  {
  }

  lemma {:induction false} ReverseBound(v: nat, n: nat)
    ensures Reverse(v, n) < Pow2(n)
    decreases n
  {
    hide Reverse, Pow2;
    if n == 0 {
      Pow2Values();
      ReverseStep(v, 1);
    } else {
      ReverseStep(v, n);
      Pow2Step(n);
      ReverseBound(v / 2, n - 1);
      MulLe(v % 2, 1, Pow2(n - 1));
    }
  }

  /** Appending one more high bit to `v` puts it at the front of the reversal's low end. */
  lemma {:induction false} ReverseLast(v: nat, n: nat)
    requires n > 0
    ensures Reverse(v, n) == 2 * Reverse(v, n - 1) + v / Pow2(n - 1) % 2
    decreases n
  {
    hide Reverse, Pow2;
    Pow2Values();
    ReverseStep(v, n);
    if n > 1 {
      ReverseStep(v, n - 1);
      ReverseLast(v / 2, n - 1);
      DivDiv(v, 1, n - 2);
      MulPow2Step(v % 2, n - 1);
    } else {
      ReverseStep(v / 2, 1);
    }
  }

  lemma {:induction false} ReverseTwice(v: nat, n: nat)
    requires v < Pow2(n)
    ensures Reverse(Reverse(v, n), n) == v
    decreases n
  {
    if n > 0 {
      var d := Pow2(n - 1);
      var top, low := v / d, v % d;
      TopAndLow(v, d);
      ReverseLast(v, n);
      ReverseLow(v, low, n - 1);
      ReverseTwice(low, n - 1);
      var r := Reverse(v, n);
      assert r == 2 * Reverse(low, n - 1) + top;
      assert r / 2 == Reverse(low, n - 1) && r % 2 == top;
    }
  }

  lemma TopAndLow(v: nat, d: nat)
    requires d > 0 && v < 2 * d
    ensures v / d < 2
    ensures v / d % 2 == v / d
    ensures v == v / d * d + v % d
    ensures v % d % d == v % d
  {
    DivLt(v, d, 2);
    DivModIs(v % d, d, 0, v % d);
  }

  /** Only the low `n` bits matter. */
  lemma {:induction false} ReverseLow(v: nat, w: nat, n: nat)
    requires v % Pow2(n) == w % Pow2(n)
    ensures Reverse(v, n) == Reverse(w, n)
    decreases n
  {
    if n > 0 {
      HalfLow(v, n);
      HalfLow(w, n);
      ReverseLow(v / 2, w / 2, n - 1);
    }
  }

  lemma HalfLow(v: nat, n: nat)
    requires n > 0
    ensures v / 2 % Pow2(n - 1) * 2 + v % 2 == v % Pow2(n)
  {
    DivProduct(v, 2, Pow2(n - 1));
  }

  /** Eight bits at a byte boundary are that byte. */
  lemma LsbByte(s: seq<Byte>, q: nat)
    ensures Lsb(s, 8 * q, 8) == ByteAt(s, q)
  {
    LsbOfByte(s, q, 0);
    assert Pow2(0) == 1;
  }

  lemma {:induction false} LsbOfByte(s: seq<Byte>, q: nat, k: nat)
    requires k <= 8
    ensures Lsb(s, 8 * q + k, 8 - k) == ByteAt(s, q) / Pow2(k)
    decreases 8 - k
  {
    hide Lsb, Pow2, ByteAt;
    Pow2Values();
    var b := ByteAt(s, q);
    LsbStep(s, 8 * q + k, 8 - k);
    if k == 8 {
      assert b / 256 == 0;
    } else {
      LsbOfByte(s, q, k + 1);
      DivDiv(b, k, 1);
    }
  }
}
