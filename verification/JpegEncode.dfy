/** Run/size coding of quantised blocks: sections F.1.2.1 and F.1.2.2 of ITU-T T.81. */
module JpegEncode {
  import opened Words
  import opened BitStream
  import opened JpegReader
  import opened JpegWriter

  /** A table of codes and lengths, indexed by symbol. */
  type Ht = s: seq<(nat, nat)> | |s| == 256 witness seq(256, _ => (0, 0))

  ghost predicate Fits(ht: Ht)
  {
    forall s :: 0 <= s < 256 ==> ht[s].1 <= 16 && ht[s].0 < Pow2(ht[s].1)
  }

  /** The number of bits of a magnitude: its category. */
  function Size(v: nat): nat
  {
    if v == 0 then 0 else 1 + Size(v / 2)
  }

  lemma {:induction false} SizeBounds(v: nat)
    ensures v < Pow2(Size(v))
    ensures v > 0 ==> Size(v) > 0 && Pow2(Size(v) - 1) <= v
  {
    if v > 1 {
      SizeBounds(v / 2);
    }
  }

  lemma {:induction false} SizeAtMost(v: nat, n: nat)
    requires v < Pow2(n)
    ensures Size(v) <= n
  {
    if v > 0 {
      SizeAtMost(v / 2, n - 1);
    }
  }

  /** The magnitude bits of a value of category `n`. */
  function Magnitude(v: int, n: nat): int
  {
    if v < 0 then v - 1 + Pow2(n) else v
  }

  /** EXTEND undoes the magnitude coding. */
  lemma ExtendMagnitude(v: int)
    requires v != 0
    ensures var n := Size(Abs(v)); n > 0 && 0 <= Magnitude(v, n) < Pow2(n) && Extend(Magnitude(v, n), n) == v
  {
    hide Pow2, Size;
    SizeBounds(Abs(v));
    Pow2Step(Size(Abs(v)));
  }

  /** `stbiw__jpg_calcBits`, with the result cut to 16 bits as its type cuts it. */
  method CalcBits(val: int) returns (code: nat, size: nat)
    requires -0x8000_0000 < val < 0x8000_0000
    ensures size == if val == 0 then 1 else Size(Abs(val))
    ensures val != 0 && size <= 16 ==> code == Magnitude(val, size)
  {
    hide Pow2, And;
    var tmp1 := if val < 0 then -val else val;
    var v := if val < 0 then val - 1 else val;
    size := 1;
    assert tmp1 / 2 == 0 ==> Size(tmp1) == if tmp1 == 0 then 0 else 1;
    tmp1 := tmp1 / 2;
    while tmp1 != 0
      invariant tmp1 >= 0 && size >= 1
      invariant size + Size(tmp1) == if val == 0 then 1 else Size(Abs(val))
      decreases tmp1
    {
      size := size + 1;
      tmp1 := tmp1 / 2;
    }
    hide Size, Magnitude;
    code := And(v % BUFFER, Pow2(size) - 1) % 65536;
    MaskIs(val, v, size);
  }

  lemma MaskIs(val: int, v: int, size: nat)
    requires -0x8000_0000 < val < 0x8000_0000 && v == if val < 0 then val - 1 else val
    ensures val != 0 && size <= 16 && size == Size(Abs(val)) ==>
              And(v % BUFFER, Pow2(size) - 1) % 65536 == Magnitude(val, size)
  {
    hide Pow2, And, Size, Extend;
    if val != 0 && size <= 16 && size == Size(Abs(val)) {
      ExtendMagnitude(val);
      AndMask(v % BUFFER, size);
      Pow2Mono(size, 16);
      Pow2Values();
      Pow2Add(size, 32 - size);
      var m := Magnitude(val, size);
      LowOf(val, v, m, Pow2(size), Pow2(32 - size));
    }
  }

  lemma LowOf(val: int, v: int, m: int, p: int, q: int)
    requires -0x8000_0000 < val < 0x8000_0000 && v == if val < 0 then val - 1 else val
    requires p * q == BUFFER && 0 <= m < p <= 65536 && m == if val < 0 then v + p else v
    ensures v % BUFFER % p % 65536 == m
  {
    if val < 0 {
      MulSub(q, 1, p);
      DivModIs(v + BUFFER, p, q - 1, m);
    } else {
      DivModIs(v, p, 0, m);
    }
  }

  // ----- the bits of a block

  function CodeWord(ht: Ht, s: nat): seq<Bit>
    requires s < 256
  {
    MsbBits(ht[s].0, ht[s].1)
  }

  /** A symbol and the magnitude bits of its value. */
  function SizedBits(ht: Ht, s: nat, v: int): seq<Bit>
    requires s < 256 && v != 0
  {
    ExtendMagnitude(v);
    CodeWord(ht, s) + MsbBits(Magnitude(v, Size(Abs(v))), Size(Abs(v)))
  }

  /** `m` runs of sixteen zeros. */
  function ZeroRuns(ht: Ht, m: nat): seq<Bit>
  {
    if m == 0 then [] else CodeWord(ht, 0xf0) + ZeroRuns(ht, m - 1)
  }

  /** The first place from `k` on that is not zero; 64 if there is none. */
  function NextNonzero(du: seq<int>, k: nat): (j: nat)
    requires |du| == 64 && k <= 64
    ensures k <= j <= 64 && (j < 64 ==> du[j] != 0)
    ensures forall m :: k <= m < j ==> du[m] == 0
    decreases 64 - k
  {
    if k == 64 || du[k] != 0 then k else NextNonzero(du, k + 1)
  }

  /** Quantised coefficients in zigzag order, in the range baseline codes can express. */
  ghost predicate Baseline(du: seq<int>, pred: int)
  {
    && |du| == 64 && -2048 < du[0] - pred < 2048
    && forall k :: 1 <= k < 64 ==> -1024 < du[k] < 1024
  }

  lemma AcSize(v: int)
    requires -1024 < v < 1024
    ensures Size(Abs(v)) <= 10
  {
    hide Size;
    Pow2Values();
    SizeAtMost(Abs(v), 10);
  }

  lemma DcSize(v: int)
    requires -2048 < v < 2048
    ensures Size(Abs(v)) <= 11
  {
    hide Size;
    Pow2Values();
    SizeAtMost(Abs(v), 11);
  }

  function RunSize(zeros: nat, v: int): nat
  {
    zeros % 16 * 16 + Size(Abs(v))
  }

  ghost function AcBits(du: seq<int>, ht: Ht, k: nat): seq<Bit>
    requires |du| == 64 && Baseline(du, du[0]) && 1 <= k <= 64
    decreases 64 - k
  {
    var j := NextNonzero(du, k);
    if j == 64 then (if k == 64 then [] else CodeWord(ht, 0))
    else
      AcSize(du[j]);
      ZeroRuns(ht, (j - k) / 16) + SizedBits(ht, RunSize(j - k, du[j]), du[j]) + AcBits(du, ht, j + 1)
  }

  ghost function DcBits(ht: Ht, diff: int): seq<Bit>
    requires -2048 < diff < 2048
  {
    DcSize(diff);
    if diff == 0 then CodeWord(ht, 0) else SizedBits(ht, Size(Abs(diff)), diff)
  }

  ghost function BlockBits(du: seq<int>, pred: int, htdc: Ht, htac: Ht): seq<Bit>
    requires Baseline(du, pred)
  {
    DcBits(htdc, du[0] - pred) + AcBits(du, htac, 1)
  }

  // ----- the methods

  method WriteSymbol(w: Writer, ht: Ht, s: nat)
    requires w.Valid() && Fits(ht) && s < 256
    modifies w
    ensures w.Valid() && w.bits == old(w.bits) + CodeWord(ht, s) && old(w.data) <= w.data
  {
    w.WriteBits(ht[s].0, ht[s].1);
  }

  method WriteSized(w: Writer, ht: Ht, high: nat, v: int)
    requires w.Valid() && Fits(ht) && high <= 240 && v != 0 && -2048 < v < 2048 && high + Size(Abs(v)) < 256
    modifies w
    ensures w.Valid() && w.bits == old(w.bits) + SizedBits(ht, high + Size(Abs(v)), v) && old(w.data) <= w.data
  {
    hide Writer.Valid, Pow2, Size, CodeWord, Extend, MsbBits, Magnitude, Abs;
    ExtendMagnitude(v);
    DcSize(v);
    var code, size := CalcBits(v);
    WriteSymbol(w, ht, high + size);
    w.WriteBits(code, size);
  }

  method WriteZeroRuns(w: Writer, ht: Ht, m: nat)
    requires w.Valid() && Fits(ht)
    modifies w
    ensures w.Valid() && w.bits == old(w.bits) + ZeroRuns(ht, m) && old(w.data) <= w.data
  {
    hide Writer.Valid, CodeWord, Fits;
    var n := 0;
    while n < m
      invariant n <= m && w.Valid() && old(w.data) <= w.data
      invariant w.bits + ZeroRuns(ht, m - n) == old(w.bits) + ZeroRuns(ht, m)
    {
      ghost var before := w.bits;
      WriteSymbol(w, ht, 0xf0);
      assert w.bits + ZeroRuns(ht, m - n - 1) == before + (CodeWord(ht, 0xf0) + ZeroRuns(ht, m - n - 1));
      n := n + 1;
    }
    assert w.bits + [] == w.bits;
  }

  /** The entropy-coding part of `stbiw__jpg_processDU`. */
  method ProcessDU(w: Writer, du: seq<int>, dc: int, htdc: Ht, htac: Ht) returns (next: int)
    requires w.Valid() && Fits(htdc) && Fits(htac) && Baseline(du, dc)
    modifies w
    ensures w.Valid() && w.bits == old(w.bits) + BlockBits(du, dc, htdc, htac) && old(w.data) <= w.data
    ensures next == du[0]
  {
    hide Writer.Valid, CodeWord, SizedBits, Fits, Size, AcBits;
    var diff := du[0] - dc;
    DcSize(diff);
    if diff == 0 {
      WriteSymbol(w, htdc, 0);
    } else {
      WriteSized(w, htdc, 0, diff);
    }
    ghost var before := w.bits;
    WriteAcs(w, du, htac);
    assert w.bits == old(w.bits) + (DcBits(htdc, diff) + AcBits(du, htac, 1));
    next := du[0];
  }

  method WriteAcs(w: Writer, du: seq<int>, ht: Ht)
    requires w.Valid() && Fits(ht) && |du| == 64 && Baseline(du, du[0])
    modifies w
    ensures w.Valid() && w.bits == old(w.bits) + AcBits(du, ht, 1) && old(w.data) <= w.data
  {
    hide Writer.Valid, CodeWord, Fits, SizedBits, AcBits, ZeroRuns;
    var end0pos := 63;
    while end0pos > 0 && du[end0pos] == 0
      invariant 0 <= end0pos <= 63 && forall m :: end0pos < m < 64 ==> du[m] == 0
    {
      end0pos := end0pos - 1;
    }
    if end0pos == 0 {
      AcEnd(du, ht, 1);
      WriteSymbol(w, ht, 0);
      return;
    }
    var i: nat := 1;
    while i <= end0pos
      invariant 1 <= i <= end0pos + 1 && w.Valid() && old(w.data) <= w.data
      invariant w.bits + AcBits(du, ht, i) == old(w.bits) + AcBits(du, ht, 1)
    {
      i := WriteRun(w, du, ht, i, end0pos);
    }
    AcEnd(du, ht, end0pos + 1);
    if end0pos != 63 {
      WriteSymbol(w, ht, 0);
    }
    assert w.bits + [] == w.bits;
  }

  lemma AcEnd(du: seq<int>, ht: Ht, k: nat)
    requires |du| == 64 && Baseline(du, du[0]) && 1 <= k <= 64 && forall m :: k <= m < 64 ==> du[m] == 0
    ensures AcBits(du, ht, k) == if k == 64 then [] else CodeWord(ht, 0)
  {
    hide CodeWord, NextNonzero;
  }

  /** One run of zeros and the value behind it. */
  method WriteRun(w: Writer, du: seq<int>, ht: Ht, startpos: nat, end0pos: nat) returns (k: nat)
    requires w.Valid() && Fits(ht) && |du| == 64 && Baseline(du, du[0])
    requires 1 <= startpos <= end0pos < 64 && du[end0pos] != 0
    modifies w
    ensures w.Valid() && old(w.data) <= w.data && startpos < k <= end0pos + 1
    ensures w.bits + AcBits(du, ht, k) == old(w.bits) + AcBits(du, ht, startpos)
  {
    hide Writer.Valid, CodeWord, Fits, SizedBits, ZeroRuns, Size, AcBits, NextNonzero;
    var i := SkipZeros(du, startpos, end0pos);
    AcRun(du, ht, startpos);
    ghost var z, bits := i - startpos, w.bits;
    var nrzeroes := i - startpos;
    if nrzeroes >= 16 {
      WriteZeroRuns(w, ht, nrzeroes / 16);
      nrzeroes := nrzeroes % 16;
    } else {
      NoRuns(ht);
    }
    WriteSized(w, ht, nrzeroes * 16, du[i]);
    k := i + 1;
    ghost var a, b, c := ZeroRuns(ht, z / 16), SizedBits(ht, RunSize(z, du[i]), du[i]), AcBits(du, ht, k);
    assert w.bits + c == bits + (a + b + c);
  }

  method SkipZeros(du: seq<int>, startpos: nat, end0pos: nat) returns (i: nat)
    requires |du| == 64 && startpos <= end0pos < 64 && du[end0pos] != 0
    ensures i == NextNonzero(du, startpos) <= end0pos
  {
    i := startpos;
    while du[i] == 0 && i <= end0pos
      invariant startpos <= i <= end0pos && NextNonzero(du, i) == NextNonzero(du, startpos)
    {
      i := i + 1;
    }
  }

  lemma AcRun(du: seq<int>, ht: Ht, k: nat)
    requires |du| == 64 && Baseline(du, du[0]) && 1 <= k < 64 && NextNonzero(du, k) < 64
    ensures var j := NextNonzero(du, k);
            Size(Abs(du[j])) <= 10
            && AcBits(du, ht, k)
            == ZeroRuns(ht, (j - k) / 16) + SizedBits(ht, RunSize(j - k, du[j]), du[j]) + AcBits(du, ht, j + 1)
  {
    hide CodeWord, SizedBits, ZeroRuns, Size, NextNonzero;
    AcSize(du[NextNonzero(du, k)]);
  }

  lemma NoRuns(ht: Ht)
    ensures ZeroRuns(ht, 0) == []
  {
  }
}
