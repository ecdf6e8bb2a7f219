/** The entropy coder of the JPEG writer: `stbiw__jpg_writeBits`, `stbiw__jpg_calcBits` and the
    run/size loop of `stbiw__jpg_processDU`. */
module JpegWriter {
  import opened Words
  import opened BitStream
  import opened BitWriter
  import opened JpegBits
  import opened JpegReader

  /** The low `n` bits of `v`, most significant first. */
  function MsbBits(v: nat, n: nat): (r: seq<Bit>)
    ensures |r| == n
    decreases n
  {
    if n == 0 then [] else MsbBits(v / 2, n - 1) + [v % 2]
  }

  function TopValue(bs: seq<Bit>): nat
  {
    if bs == [] then 0 else 2 * TopValue(bs[..|bs| - 1]) + bs[|bs| - 1]
  }

  lemma {:induction false} TopOfBits(v: nat, n: nat)
    requires v < Pow2(n)
    ensures TopValue(MsbBits(v, n)) == v
    decreases n
  {
    if n > 0 {
      TopOfBits(v / 2, n - 1);
      assert MsbBits(v, n)[..n - 1] == MsbBits(v / 2, n - 1);
    }
  }

  lemma TopStep(bs: seq<Bit>)
    requires bs != []
    ensures TopValue(bs) == 2 * TopValue(bs[..|bs| - 1]) + bs[|bs| - 1]
  {
  }

  lemma {:induction false} TopConcat(a: seq<Bit>, b: seq<Bit>)
    ensures TopValue(a + b) == TopValue(a) * Pow2(|b|) + TopValue(b)
    decreases |b|
  {
    hide Pow2;
    if b == [] {
      Pow2Values();
      assert a + b == a;
    } else {
      hide TopValue;
      var b1 := b[..|b| - 1];
      TopStep(b);
      TopStep(a + b);
      assert (a + b)[..|a + b| - 1] == a + b1;
      TopConcat(a, b1);
      MulPow2Step(TopValue(a), |b|);
    }
  }

  lemma {:induction false} TopBound(bs: seq<Bit>)
    ensures TopValue(bs) < Pow2(|bs|)
  {
    if bs != [] {
      TopBound(bs[..|bs| - 1]);
    }
  }

  /** Bits are determined by their value. */
  lemma {:induction false} BitsFromMsb(s: seq<Byte>, p: nat, bs: seq<Bit>)
    ensures Msb(s, p, |bs|) == TopValue(bs) <==> BitsAt(s, p, bs)
    decreases |bs|
  {
    hide BitAt;
    if bs != [] {
      var n := |bs| - 1;
      BitsFromMsb(s, p, bs[..n]);
      BitsAtSplit(s, p, bs[..n], bs[n..]);
      assert bs == bs[..n] + bs[n..];
      assert BitsAt(s, p + n, bs[n..]) <==> BitAt(s, p + n + 0) == bs[n..][0];
    }
  }

  /** 0xff is followed by a stuffed zero. */
  function Stuffed(d: seq<Byte>): seq<Byte>
  {
    if d == [] then [] else Stuffed(d[..|d| - 1]) + StuffedByte(d[|d| - 1])
  }

  function StuffedByte(b: Byte): seq<Byte>
  {
    if b == 255 then [255, 0] else [b]
  }

  class Writer {
    var out: seq<Byte>
    var bitBuf: nat
    var bitCnt: nat
    // what was there before, the data bytes since, all bits since, and the buffer down to its last bit
    ghost const start: seq<Byte>
    ghost var data: seq<Byte>
    ghost var bits: seq<Bit>
    ghost var top: nat

    ghost predicate InStep()
      reads this
    {
      && bitCnt <= 24 && |bits| == 8 * |data| + bitCnt
      && out == start + Stuffed(data)
      && BitsAt(Flip(data), 0, bits[..8 * |data|])
      && bitBuf == Shl(top, 24 - bitCnt) && top % Pow2(bitCnt) == TopValue(bits[8 * |data|..])
    }

    ghost predicate Valid()
      reads this
    {
      InStep() && bitCnt < 8
    }

    constructor (before: seq<Byte>)
      ensures Valid() && bits == [] && data == [] && start == before
    {
      out, start, data, bits := before, before, [], [];
      bitBuf, bitCnt, top := 0, 0, 0;
    }

    /** Append a field of at most sixteen bits. */
    method WriteBits(code: nat, len: nat)
      requires Valid() && len <= 16 && code < Pow2(len)
      modifies this
      ensures Valid() && bits == old(bits) + MsbBits(code, len) && old(data) <= data
    {
      hide Flip, BitsAt, TopValue, MsbBits, Stuffed, Or, Pow2;
      ghost var pend, field := bits[8 * |data|..], MsbBits(code, len);
      AddField(top, bitCnt, pend, code, len);
      bitCnt := bitCnt + len;
      bitBuf := Or(Shl(code, 24 - bitCnt), bitBuf);
      top := Appended(top, code, len);
      assert (bits + field)[8 * |data|..] == pend + field;
      assert (bits + field)[..8 * |data|] == bits[..8 * |data|];
      bits := bits + field;
      while bitCnt >= 8
        invariant InStep() && bits == old(bits) + field && old(data) <= data
        decreases bitCnt
      {
        PutByte();
      }
    }

    /** One byte leaves the buffer. */
    method PutByte()
      requires InStep() && bitCnt >= 8
      modifies this`out, this`bitBuf, this`bitCnt, this`data, this`top
      ensures InStep() && bitCnt == old(bitCnt) - 8 && old(data) <= data
    {
      hide Flip, BitsAt, TopValue, Stuffed, And, Pow2;
      ghost var pend := bits[8 * |data|..];
      TakeTop(top, bitCnt, pend);
      ByteOut(data, bits[..8 * |data|], pend[..8], And(Shr(bitBuf, 16), 255));
      var c: Byte := And(Shr(bitBuf, 16), 255);
      out := out + [c];
      if c == 255 {
        out := out + [0];
      }
      StuffedAppend(data, c);
      assert out == start + (Stuffed(data) + StuffedByte(c)) by {
        assert start + Stuffed(data) + [c] == start + (Stuffed(data) + [c]);
        assert start + Stuffed(data) + [c] + [0] == start + (Stuffed(data) + [c, 0]);
      }
      bitBuf := Shl(bitBuf, 8) % BUFFER;
      bitCnt := bitCnt - 8;
      top := top % Pow2(bitCnt + 8);
      EightMore(bits, 8 * |data|);
      data := data + [c];
    }
  }

  lemma EightMore(bits: seq<Bit>, n: nat)
    requires n + 8 <= |bits|
    ensures bits[..n] + bits[n..][..8] == bits[..n + 8] && bits[n..][8..] == bits[n + 8..]
  {
  }

  lemma StuffedAppend(d: seq<Byte>, c: Byte)
    ensures Stuffed(d + [c]) == Stuffed(d) + StuffedByte(c)
  {
    assert (d + [c])[..|d|] == d;
  }

  function Appended(top: nat, code: nat, len: nat): nat
  {
    MulNonneg(top, Pow2(len));
    top * Pow2(len) + code
  }

  /** Or-ing a field in below what the buffer holds. */
  lemma AddField(top: nat, cnt: nat, pend: seq<Bit>, code: nat, len: nat)
    requires cnt + len <= 24 && code < Pow2(len) && |pend| == cnt && top % Pow2(cnt) == TopValue(pend)
    ensures Or(Shl(code, 24 - (cnt + len)), Shl(top, 24 - cnt)) == Shl(Appended(top, code, len), 24 - (cnt + len))
    ensures Appended(top, code, len) % Pow2(cnt + len) == TopValue(pend + MsbBits(code, len))
  {
    hide Or, Pow2, TopValue, MsbBits, Shl, Appended;
    FieldBelow(top, cnt, code, len);
    TopConcat(pend, MsbBits(code, len));
    TopOfBits(code, len);
    FieldValue(top, cnt, code, len);
  }

  lemma FieldBelow(top: nat, cnt: nat, code: nat, len: nat)
    requires cnt + len <= 24 && code < Pow2(len)
    ensures Or(Shl(code, 24 - (cnt + len)), Shl(top, 24 - cnt)) == Shl(Appended(top, code, len), 24 - (cnt + len))
  {
    hide Or, Pow2;
    var n := 24 - (cnt + len);
    var p, l := Pow2(n), Pow2(len);
    Pow2Add(len, n);
    MulLe(code, l - 1, p);
    MulSub(l, 1, p);
    OrShifted(code * p, top, 24 - cnt);
    Regroup(top, l, p);
    Join(top * l, code, p);
  }

  lemma FieldValue(top: nat, cnt: nat, code: nat, len: nat)
    requires code < Pow2(len)
    ensures Appended(top, code, len) % Pow2(cnt + len) == top % Pow2(cnt) * Pow2(len) + code
  {
    hide Pow2;
    Pow2Add(cnt, len);
    ModScaled(top, Pow2(cnt), Pow2(len), code);
  }

  lemma ModScaled(t: nat, c: nat, l: nat, code: nat)
    requires c > 0 && l > 0 && code < l
    ensures c * l > 0 && (t * l + code) % (c * l) == t % c * l + code
  {
    MulGe(c, l);
    var q, r := t / c, t % c;
    assert t * l + code == q * (c * l) + (r * l + code) by {
      assert t == q * c + r;
      assert (q * c + r) * l == q * (c * l) + r * l;
    }
    MulLe(r, c - 1, l);
    MulSub(c, 1, l);
    MulLe(0, r, l);
    DivModIs(t * l + code, c * l, q, r * l + code);
  }

  /** The byte taken is the first eight pending bits. */
  lemma TakeTop(top: nat, cnt: nat, pend: seq<Bit>)
    requires 8 <= cnt <= 24 && |pend| == cnt && top % Pow2(cnt) == TopValue(pend)
    ensures And(Shr(Shl(top, 24 - cnt), 16), 255) == TopValue(pend[..8]) < 256
    ensures Shl(Shl(top, 24 - cnt), 8) % BUFFER == Shl(top % Pow2(cnt), 24 - (cnt - 8))
    ensures top % Pow2(cnt) % Pow2(cnt - 8) == TopValue(pend[8..])
  {
    hide And, Pow2, TopValue;
    Pow2Values();
    var a, b := Pow2(cnt - 8), Pow2(24 - cnt);
    assert pend == pend[..8] + pend[8..];
    TopConcat(pend[..8], pend[8..]);
    TopBound(pend[8..]);
    TopBound(pend[..8]);
    var hi, lo := TopValue(pend[..8]), TopValue(pend[8..]);
    Pow2Add(8, cnt - 8);
    Pow2Add(cnt - 8, 24 - cnt);
    TopParts(top, hi, lo, a, b);
    AndMask((top / (256 * a)) * 256 + hi, 8);
    BufferShift(top, cnt);
  }

  lemma TopParts(top: nat, hi: nat, lo: nat, a: nat, b: nat)
    requires a > 0 && b > 0 && hi < 256 && lo < a && top % (256 * a) == hi * a + lo
    ensures top / (256 * a) >= 0
    ensures top * b / (a * b) == top / (256 * a) * 256 + hi
    ensures (top / (256 * a) * 256 + hi) % 256 == hi
    ensures top % (256 * a) % a == lo
  {
    var q := top / (256 * a);
    DivNonneg(top, 256 * a);
    assert top == q * (256 * a) + (hi * a + lo);
    assert top == (q * 256 + hi) * a + lo;
    TopPart(q * 256 + hi, lo, a, b);
    DivModIs(hi * a + lo, a, hi, lo);
  }

  lemma BufferShift(top: nat, cnt: nat)
    requires 8 <= cnt <= 24
    ensures Shl(Shl(top, 24 - cnt), 8) % BUFFER == Shl(top % Pow2(cnt), 32 - cnt)
  {
    hide Pow2;
    Pow2Values();
    Pow2Add(24 - cnt, 8);
    Pow2Add(cnt, 32 - cnt);
    ShiftBy(top, Pow2(cnt), Pow2(24 - cnt), 256);
  }

  lemma ShiftBy(t: nat, c: nat, p: nat, e: nat)
    requires c > 0 && p > 0 && e > 0
    ensures c * (p * e) > 0
    ensures t * p * e % (c * (p * e)) == t % c * (p * e)
  {
    MulGe(p, e);
    DivNonneg(t, c);
    Regroup(t, p, e);
    assert t == t / c * c + t % c;
    ShiftedOut(t / c, t % c, p * e, c);
  }

  lemma ByteOut(d: seq<Byte>, before: seq<Bit>, eight: seq<Bit>, c: Byte)
    requires |before| == 8 * |d| && BitsAt(Flip(d), 0, before) && |eight| == 8 && c == TopValue(eight)
    ensures BitsAt(Flip(d + [c]), 0, before + eight)
  {
    hide TopValue, Msb, BitsAt, Flip;
    MsbByte(d + [c], |d|, |eight|);
    BitsFromMsb(Flip(d + [c]), 8 * |d|, eight);
    BitsKept(d, before, c);
    BitsAtSplit(Flip(d + [c]), 0, before, eight);
  }

  lemma BitsKept(d: seq<Byte>, before: seq<Bit>, c: Byte)
    requires |before| == 8 * |d| && BitsAt(Flip(d), 0, before)
    ensures BitsAt(Flip(d + [c]), 0, before)
  {
    forall j: nat | j < |before| ensures BitAt(Flip(d + [c]), 0 + j) == before[j] {
      assert BitAt(Flip(d), 0 + j) == before[j];
    }
  }
}
