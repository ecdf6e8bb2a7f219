/** The fixed Huffman code: the numbers the compressor writes are the canonical codes the
    inflater derives from the default lengths. */
module FixedCode {
  import opened Words
  import opened Huffman
  import opened InflateSpec

  function Len(n: nat): (l: nat)
    requires n < 288
    ensures 7 <= l <= 9
  {
    if n <= 143 then 8 else if n <= 255 then 9 else if n <= 279 then 7 else 8
  }

  /** `stbiw__zlib_huff1` to `stbiw__zlib_huff4`. */
  function Number(n: nat): (c: nat)
    requires n < 288
    ensures c < Pow2(Len(n))
  {
    Pow2Values();
    if n <= 143 then 0x30 + n
    else if n <= 255 then 0x190 + n - 144
    else if n <= 279 then n - 256
    else 0xc0 + n - 280
  }

  lemma {:induction false} CountFixed(i: nat, l: nat)
    requires i <= 288
    ensures Count(FixedLengths()[..i], l) ==
            if l == 7 then (if i <= 256 then 0 else if i <= 280 then i - 256 else 24)
            else if l == 8 then (if i <= 144 then i else if i <= 280 then 144 else i - 136)
            else if l == 9 then (if i <= 144 then 0 else if i <= 256 then i - 144 else 112)
            else 0
  {
    if i == 0 {
      assert FixedLengths()[..0] == [];
    } else {
      hide Count, FixedLengths;
      CountFixed(i - 1, l);
      FixedNext(i);
      CountAppend(FixedLengths()[..i - 1], FixedLengths()[i - 1], l);
    }
  }

  lemma {:induction false} FirstCodeFixed(l: nat)
    requires l <= 9
    ensures FirstCode(FixedLengths(), l) == if l <= 7 then 0 else if l == 8 then 48 else 400
  {
    if l > 0 {
      FirstCodeFixed(l - 1);
      CountFixed(288, l - 1);
      assert FixedLengths()[..288] == FixedLengths();
    }
  }

  lemma NumberIsCode(n: nat)
    requires n < 288
    ensures FixedLengths()[n] == Len(n) && Code(FixedLengths(), n) == Number(n)
  {
    hide FirstCode, Count;
    FirstCodeFixed(Len(n));
    CountFixed(n, Len(n));
  }

  lemma {:induction false} CountDistance(i: nat, l: nat)
    requires i <= 32
    ensures Count(FixedDistances()[..i], l) == if l == 5 then i else 0
  {
    if i == 0 {
      assert FixedDistances()[..0] == [];
    } else {
      hide Count, FixedDistances;
      CountDistance(i - 1, l);
      DistancesNext(i);
      CountAppend(FixedDistances()[..i - 1], 5, l);
    }
  }

  lemma {:induction false} FirstCodeDistance(l: nat)
    requires l <= 5
    ensures FirstCode(FixedDistances(), l) == 0
  {
    if l > 0 {
      FirstCodeDistance(l - 1);
      CountDistance(32, l - 1);
      assert FixedDistances()[..32] == FixedDistances();
    }
  }

  lemma DistanceIsCode(d: nat)
    requires d < 32
    ensures FixedDistances()[d] == 5 && Code(FixedDistances(), d) == d
  {
    hide FirstCode, Count;
    FirstCodeDistance(5);
    CountDistance(d, 5);
  }
}
