/** The bit writer of the compressor: bits collect in a buffer, low end first, and leave it
    in whole bytes. */
module BitWriter {
  import opened Words
  import opened BitStream

  /** The low `n` bits of `v`, least significant first. */
  function ToBits(v: nat, n: nat): (r: seq<Bit>)
    ensures |r| == n
    decreases n
  {
    if n == 0 then [] else [v % 2] + ToBits(v / 2, n - 1)
  }

  function ValueOf(bs: seq<Bit>): nat
  {
    if bs == [] then 0 else bs[0] + 2 * ValueOf(bs[1..])
  }

  /** The stream `s` carries the bits `bs` from position `p` on. */
  ghost predicate BitsAt(s: seq<Byte>, p: nat, bs: seq<Bit>)
  {
    forall j: nat :: j < |bs| ==> BitAt(s, p + j) == bs[j]
  }

  lemma BitsAtSplit(s: seq<Byte>, p: nat, a: seq<Bit>, b: seq<Bit>)
    ensures BitsAt(s, p, a + b) <==> BitsAt(s, p, a) && BitsAt(s, p + |a|, b)
  {
    hide BitAt;
    if BitsAt(s, p, a + b) {
      forall j: nat | j < |a| ensures BitAt(s, p + j) == a[j] {
        assert (a + b)[j] == a[j];
      }
      forall j: nat | j < |b| ensures BitAt(s, p + |a| + j) == b[j] {
        assert (a + b)[|a| + j] == b[j];
      }
    }
    if BitsAt(s, p, a) && BitsAt(s, p + |a|, b) {
      forall j: nat | j < |a + b| ensures BitAt(s, p + j) == (a + b)[j] {
        if j >= |a| {
          assert p + |a| + (j - |a|) == p + j;
        }
      }
    }
  }

  /** A field written with `ToBits` is read back by value. */
  lemma {:induction false} LsbOfBits(s: seq<Byte>, p: nat, v: nat, n: nat)
    requires v < Pow2(n) && BitsAt(s, p, ToBits(v, n))
    ensures Lsb(s, p, n) == v
    decreases n
  {
    hide BitAt;
    if n > 0 {
      BitsAtSplit(s, p, [v % 2], ToBits(v / 2, n - 1));
      assert BitAt(s, p + 0) == [v % 2][0];
      LsbOfBits(s, p + 1, v / 2, n - 1);
    }
  }

  /** A field that is read is there. */
  lemma {:induction false} FieldSaid(s: seq<Byte>, p: nat, n: nat)
    ensures BitsAt(s, p, ToBits(Lsb(s, p, n), n))
    decreases n
  {
    hide BitAt;
    if n > 0 {
      var v := Lsb(s, p, n);
      FieldSaid(s, p + 1, n - 1);
      assert v % 2 == BitAt(s, p) && v / 2 == Lsb(s, p + 1, n - 1);
      assert BitsAt(s, p, [v % 2]) by {
        assert BitAt(s, p + 0) == [v % 2][0];
      }
      BitsAtSplit(s, p, [v % 2], ToBits(v / 2, n - 1));
    }
  }

  lemma NoBits(s: seq<Byte>, p: nat)
    ensures BitsAt(s, p, [])
  {
  }

  lemma ValueStep(bs: seq<Bit>)
    requires bs != []
    ensures ValueOf(bs) == bs[0] + 2 * ValueOf(bs[1..])
  {
  }

  lemma {:induction false} ValueToBits(v: nat, n: nat)
    requires v < Pow2(n)
    ensures ValueOf(ToBits(v, n)) == v
    decreases n
  {
    if n > 0 {
      ValueToBits(v / 2, n - 1);
    }
  }

  lemma {:induction false} ValueConcat(a: seq<Bit>, b: seq<Bit>)
    ensures ValueOf(a + b) == ValueOf(a) + ValueOf(b) * Pow2(|a|)
  {
    hide Pow2;
    if a == [] {
      Pow2Values();
      assert a + b == b;
    } else {
      hide ValueOf;
      ValueStep(a);
      ValueStep(a + b);
      assert (a + b)[1..] == a[1..] + b;
      ValueConcat(a[1..], b);
      MulPow2Step(ValueOf(b), |a|);
    }
  }

  lemma {:induction false} ValueBound(bs: seq<Bit>)
    ensures ValueOf(bs) < Pow2(|bs|)
  {
    if bs != [] {
      ValueBound(bs[1..]);
    }
  }

  lemma {:induction false} ValueBit(bs: seq<Bit>, j: nat)
    requires j < |bs|
    ensures ValueOf(bs) / Pow2(j) % 2 == bs[j]
  {
    hide Pow2, ValueOf;
    Pow2Values();
    ValueStep(bs);
    if j > 0 {
      ValueBit(bs[1..], j - 1);
      DivDiv(ValueOf(bs), 1, j - 1);
    }
  }

  class Writer {
    var out: seq<Byte>
    var bitbuf: nat
    var bitcount: nat
    // everything written so far, as bits
    ghost var bits: seq<Bit>

    /** Whole bytes are out, the rest is in the buffer. */
    ghost predicate InStep()
      reads this
    {
      && |bits| == 8 * |out| + bitcount
      && BitsAt(out, 0, bits[..8 * |out|])
      && bitbuf == ValueOf(bits[8 * |out|..])
    }

    ghost predicate Valid()
      reads this
    {
      InStep() && bitcount < 8
    }

    constructor ()
      ensures Valid() && out == [] && bits == [] && bitcount == 0
    {
      out, bitbuf, bitcount, bits := [], 0, 0, [];
    }

    /** Push a whole byte; only used when no bits are pending. */
    method Push(b: Byte)
      requires Valid() && bitcount == 0
      modifies this
      ensures Valid() && bitcount == 0
      ensures out == old(out) + [b] && bits == old(bits) + ToBits(b, 8)
    {
      assert ValueOf([]) == 0;
      hide BitAt, ToBits, ValueOf;
      Pow2Values();
      ghost var eight := ToBits(b, 8);
      ValueToBits(b, 8);
      assert bits[..8 * |out|] == bits;
      PushedByte(out, bits, eight, b);
      bits := bits + eight;
      out := out + [b];
      assert bits[8 * |out|..] == [];
      assert bits[..8 * |out|] == bits;
    }

    /** `stbiw__zlib_flushf`. */
    method Flush()
      requires InStep()
      modifies this`out, this`bitbuf, this`bitcount
      ensures Valid()
    {
      hide BitAt, ValueOf;
      while bitcount >= 8
        invariant InStep()
        decreases bitcount
      {
        ghost var pend := bits[8 * |out|..];
        TakeByte(pend);
        PushedByte(out, bits[..8 * |out|], pend[..8], bitbuf % 256);
        assert bits[..8 * |out|] + pend[..8] == bits[..8 * |out| + 8];
        assert pend[8..] == bits[8 * |out| + 8..];
        out := out + [bitbuf % 256];
        bitbuf := bitbuf / 256;
        bitcount := bitcount - 8;
      }
    }

    /** `stbiw__zlib_add`: append a field of `codebits` bits; up to 25 fit in the 32-bit buffer. */
    method Add(code: nat, codebits: nat)
      requires Valid() && code < Pow2(codebits) && codebits <= 25
      modifies this
      ensures Valid() && bits == old(bits) + ToBits(code, codebits)
      ensures 8 * |out| + bitcount == old(8 * |out| + bitcount) + codebits
    {
      hide BitAt, ValueOf, Or, Pow2, ToBits;
      ghost var pend := bits[8 * |out|..];
      ValueBound(pend);
      ValueToBits(code, codebits);
      ValueConcat(pend, ToBits(code, codebits));
      OrShifted(bitbuf, code, bitcount);
      bitbuf := Or(bitbuf, code * Pow2(bitcount));
      bitcount := bitcount + codebits;
      ghost var old_bits := bits;
      bits := bits + ToBits(code, codebits);
      assert bits[8 * |out|..] == pend + ToBits(code, codebits);
      assert bits[..8 * |out|] == old_bits[..8 * |out|];
      Flush();
    }
  }

  /** The low byte of the buffer holds its first eight bits. */
  lemma TakeByte(pend: seq<Bit>)
    requires |pend| >= 8
    ensures ValueOf(pend) % 256 == ValueOf(pend[..8])
    ensures ValueOf(pend) / 256 == ValueOf(pend[8..])
  {
    hide ValueOf;
    assert pend == pend[..8] + pend[8..];
    ValueConcat(pend[..8], pend[8..]);
    ValueBound(pend[..8]);
    Pow2Values();
    DivModIs(ValueOf(pend), 256, ValueOf(pend[8..]), ValueOf(pend[..8]));
  }

  lemma PushedByte(out: seq<Byte>, before: seq<Bit>, eight: seq<Bit>, b: Byte)
    requires |before| == 8 * |out| && BitsAt(out, 0, before)
    requires |eight| == 8 && b == ValueOf(eight)
    ensures BitsAt(out + [b], 0, before + eight)
  {
    hide ValueOf;
    forall j: nat | j < |before + eight|
      ensures BitAt(out + [b], 0 + j) == (before + eight)[j]
    {
      if j < |before| {
        assert BitAt(out, 0 + j) == before[j];
      } else {
        ValueBit(eight, j - |before|);
      }
    }
  }
}
