/** Machine words as natural numbers: powers of two and the bitwise operators of C on
    unsigned operands. A left shift is a product with a power of two and a right shift a
    quotient; the lemmas say when `|` is an addition and when `&` is a remainder. */
module Words {

  type Byte = x: int | 0 <= x < 256

  const INT_MAX: nat := 0x7fff_ffff

  /** `stbi__mad3sizes_valid` on non-negative arguments. */
  predicate SizesValid(a: nat, b: nat, c: nat, add: nat)
  {
    a * b <= INT_MAX && a * b * c <= INT_MAX && a * b * c + add <= INT_MAX
  }

  function Abs(v: int): nat
  {
    if v < 0 then -v else v
  }

  function Pow2(n: nat): (p: nat)
    ensures p >= 1
  {
    if n == 0 then 1 else 2 * Pow2(n - 1)
  }

  /** `v >> n`. */
  function Shr(v: nat, n: nat): nat
  {
    DivNonneg(v, Pow2(n));
    v / Pow2(n)
  }

  /** `v << n` without a width. */
  function Shl(v: nat, n: nat): nat
  {
    MulNonneg(v, Pow2(n));
    v * Pow2(n)
  }

  lemma MulNonneg(a: nat, b: nat)
    ensures a * b >= 0
  {
  }

  lemma DivNonneg(v: nat, d: nat)
    requires d > 0
    ensures v / d >= 0
  {
    DivLt(v, d, 0);
  }

  /** A product of naturals, to be used without its definition where products would be costly. */
  function Times(a: nat, b: nat): nat
  {
    MulNonneg(a, b);
    a * b
  }

  lemma TimesStep(a: nat, b: nat)
    requires a > 0
    ensures Times(a, b) == Times(a - 1, b) + b && Times(0, b) == 0
  {
    MulSub(a, 1, b);
  }

  function Le16(lo: Byte, hi: Byte): nat
  {
    var l: nat, h: nat := lo, hi;
    l + 256 * h
  }

  function And(a: nat, b: nat): nat
    decreases a
  {
    if a == 0 || b == 0 then 0
    else (a % 2) * (b % 2) + 2 * And(a / 2, b / 2)
  }

  function Or(a: nat, b: nat): nat
    decreases a + b
  {
    if a == 0 then b
    else if b == 0 then a
    else (if a % 2 == 1 || b % 2 == 1 then 1 else 0) + 2 * Or(a / 2, b / 2)
  }

  function Xor(a: nat, b: nat): nat
    decreases a + b
  {
    if a == 0 then b
    else if b == 0 then a
    else (a + b) % 2 + 2 * Xor(a / 2, b / 2)
  }

  lemma AndStep(a: nat, b: nat)
    ensures And(a, b) == (a % 2) * (b % 2) + 2 * And(a / 2, b / 2)
  {
  }

  lemma AndZero(a: nat)
    ensures And(a, 0) == 0
  {
  }

  lemma OrStep(a: nat, b: nat)
    ensures Or(a, b) == (if a % 2 == 1 || b % 2 == 1 then 1 else 0) + 2 * Or(a / 2, b / 2)
  {
  }

  lemma OrZero(a: nat)
    ensures Or(a, 0) == a && Or(0, a) == a
  {
  }

  lemma {:induction false} Pow2Add(a: nat, b: nat)
    ensures Pow2(a + b) == Pow2(a) * Pow2(b)
  {
    if a == 0 {
    } else {
      Pow2Add(a - 1, b);
      assert Pow2(a + b) == 2 * Pow2(a - 1 + b);
    }
  }

  lemma Pow2Values()
    ensures Pow2(0) == 1 && Pow2(1) == 2 && Pow2(2) == 4 && Pow2(3) == 8 && Pow2(4) == 16
    ensures Pow2(5) == 32 && Pow2(6) == 64 && Pow2(7) == 128 && Pow2(8) == 256 && Pow2(9) == 512
    ensures Pow2(10) == 1024 && Pow2(11) == 2048 && Pow2(13) == 8192
    ensures Pow2(12) == 4096 && Pow2(15) == 32768 && Pow2(16) == 65536 && Pow2(24) == 0x100_0000
    ensures Pow2(32) == 0x1_0000_0000
  {
    assert Pow2(12) == 4096;
    assert Pow2(20) == 1048576;
    assert Pow2(28) == 0x1000_0000;
  }

  lemma {:induction false} Pow2Mono(a: nat, b: nat)
    requires a <= b
    ensures Pow2(a) <= Pow2(b)
    decreases b
  {
    if a < b {
      Pow2Mono(a, b - 1);
    }
  }

  lemma Pow2Step(n: nat)
    requires n > 0
    ensures Pow2(n) == 2 * Pow2(n - 1)
  {
  }

  lemma MulPow2Step(x: int, n: nat)
    requires n > 0
    ensures x * Pow2(n) == 2 * (x * Pow2(n - 1))
  {
    MulTwice(x, Pow2(n - 1));
  }

  lemma MulTwice(x: int, y: int)
    ensures x * (2 * y) == 2 * (x * y)
  {
  }

  /** Quotient and remainder are determined by `v == q * d + r` with `r` in range. */
  lemma DivModIs(v: int, d: int, q: int, r: int)
    requires d > 0 && 0 <= r < d
    requires v == q * d + r
    ensures v / d == q
    ensures v % d == r
  {
    var q1, r1 := v / d, v % d;
    assert v == q1 * d + r1;
    if q1 > q {
      MulGe(q1 - q, d);
      MulSub(q1, q, d);
    } else if q1 < q {
      MulGe(q - q1, d);
      MulSub(q, q1, d);
    }
  }

  lemma MulTwiceLeft(x: int, y: int)
    ensures 2 * x * y == 2 * (x * y)
  {
  }

  lemma MulSub(a: int, b: int, d: int)
    ensures (a - b) * d == a * d - b * d
  {
  }

  lemma MulGe(k: int, d: int)
    requires k >= 1 && d >= 0
    ensures k * d >= d
  {
    assert k * d - d == (k - 1) * d;
  }

  lemma MulSucc(k: int, d: int)
    ensures (k + 1) * d == k * d + d
  {
  }

  lemma MulLe(a: int, b: int, d: int)
    requires a <= b && d >= 0
    ensures a * d <= b * d
  {
    assert b * d - a * d == (b - a) * d;
  }

  /** `v / d < q` exactly when `v < q * d`. */
  lemma DivLt(v: int, d: int, q: int)
    requires d > 0
    ensures v / d < q <==> v < q * d
  {
    var q1, r1 := v / d, v % d;
    assert v == q1 * d + r1;
    if q1 < q {
      MulLe(q1 + 1, q, d);
      assert (q1 + 1) * d == q1 * d + d;
    } else {
      MulLe(q, q1, d);
    }
  }

  lemma DivProduct(v: int, x: int, y: int)
    requires v >= 0 && x > 0 && y > 0
    ensures x * y > 0
    ensures v / x / y == v / (x * y)
    ensures v / x % y * x + v % x == v % (x * y)
  {
    var q, r := v / x, v % x;
    var q2, r2 := q / y, q % y;
    assert v == x * q + r;
    assert q == y * q2 + r2;
    assert x * (y * q2 + r2) == q2 * (x * y) + r2 * x;
    MulGe(y, x);
    MulLe(r2, y - 1, x);
    MulSub(y, 1, x);
    MulLe(0, r2, x);
    DivModIs(v, x * y, q2, r2 * x + r);
  }

  lemma DivDiv(v: nat, a: nat, b: nat)
    ensures v / Pow2(a) / Pow2(b) == v / Pow2(a + b)
  {
    Pow2Add(a, b);
    DivProduct(v, Pow2(a), Pow2(b));
  }

  /** `a | (b << n)` with `a < 2^n` is `a + b * 2^n`. */
  lemma {:induction false} OrShifted(a: nat, b: nat, n: nat)
    requires a < Pow2(n)
    ensures Or(a, b * Pow2(n)) == a + b * Pow2(n)
    decreases n
  {
    hide Or, Pow2;
    if n == 0 {
      Pow2Values();
      OrZero(b);
    } else {
      Pow2Step(n);
      MulPow2Step(b, n);
      var c := b * Pow2(n - 1);
      OrStep(a, 2 * c);
      OrShifted(a / 2, b, n - 1);
    }
  }

  /** `v & ((1 << n) - 1)` keeps the low `n` bits. */
  lemma {:induction false} AndMask(v: nat, n: nat)
    ensures And(v, Pow2(n) - 1) == v % Pow2(n)
    decreases n
  {
    hide And, Pow2;
    if n == 0 {
      Pow2Values();
      AndZero(v);
    } else {
      Pow2Step(n);
      AndStep(v, Pow2(n) - 1);
      AndMask(v / 2, n - 1);
      DivProduct(v, 2, Pow2(n - 1));
    }
  }

  /** `&` with a mask whose low `n` bits are zero ignores the low bits. */
  lemma {:induction false} AndHigh(a: nat, b: nat, c: nat, n: nat)
    requires b < Pow2(n)
    ensures And(a * Pow2(n) + b, c * Pow2(n)) == And(a, c) * Pow2(n)
    decreases n
  {
    hide And, Pow2;
    Pow2Values();
    if n > 0 {
      Pow2Step(n);
      MulPow2Step(a, n);
      MulPow2Step(c, n);
      MulPow2Step(And(a, c), n);
      var x, y := a * Pow2(n - 1) + b / 2, c * Pow2(n - 1);
      AndHigh(a, b / 2, c, n - 1);
      AndStep(a * Pow2(n) + b, c * Pow2(n));
      HalfOf(a * Pow2(n) + b, x, b % 2);
      HalfOf(c * Pow2(n), y, 0);
    }
  }

  lemma HalfOf(v: int, x: int, r: int)
    requires v == 2 * x + r && 0 <= r < 2
    ensures v / 2 == x && v % 2 == r
  {
  }
}
