/** `stbi__build_fast_ac` and `stbi__jpeg_decode_block`. */
module JpegDecode {
  import opened Words
  import opened BitStream
  import opened Huffman
  import opened JpegHuffman
  import opened JpegTable
  import opened JpegBits
  import opened JpegReader
  import opened JpegBlock

  /** The decoder's tables are those of the segment. */
  ghost predicate Holds(h: Table, t: Dht)
    reads h.fast, h.size, h.maxcode, h.delta, h.values
  {
    && WellFormed(t) && h.Built(t.lens)
    && forall i :: 0 <= i < |t.lens| ==> h.values[i] == t.values[i]
  }

  lemma HoldsTable(h: Table, t: Dht)
    requires Holds(h, t)
    ensures WellFormed(t)
  {
  }

  ghost predicate FastAcReady(fac: array<int>, t: Dht, n: nat)
    requires WellFormed(t)
    reads fac
  {
    fac.Length == FAST_SIZE && forall c: nat :: c < n <= FAST_SIZE ==> fac[c] == FastAc(t, c)
  }

  method BuildFastAc(fac: array<int>, h: Table, ghost t: Dht)
    requires Holds(h, t) && fac.Length == FAST_SIZE && fac !in h.Arrays()
    modifies fac
    ensures FastAcReady(fac, t, FAST_SIZE)
  {
    hide FastAc, FastId;
    for i := 0 to FAST_SIZE
      invariant Holds(h, t) && FastAcReady(fac, t, i)
    {
      fac[i] := FastAcEntry(h, t, i);
    }
  }

  method FastAcEntry(h: Table, ghost t: Dht, i: nat) returns (r: int)
    requires Holds(h, t) && i < FAST_SIZE
    ensures r == FastAc(t, i)
  {
    hide FastId, Listed, Decodable, Pow2, And, Limit, FirstSymbol, FirstCode;
    assert h.fast[i] == FastId(t.lens, i);
    var fast := h.fast[i];
    r := 0;
    if fast < 255 {
      var rs := h.values[fast];
      var run := rs / 16 % 16;
      var magbits := rs % 16;
      var len := h.size[fast];
      if magbits != 0 && len + magbits <= FAST_BITS {
        AndMask(Shl(i, len), FAST_BITS);
        Pow2Values();
        var k: int := Shr(And(Shl(i, len), FAST_SIZE - 1), FAST_BITS - magbits);
        var m := Pow2(magbits - 1);
        if k < m {
          k := k - Pow2(magbits) + 1;
        }
        if -128 <= k <= 127 {
          r := k * 256 + run * 16 + (len + magbits);
        }
      }
    }
  }

  /** One turn of the loop: 1 to go on, 0 at the end of the block, -1 for a bad code. */
  method DecodeAc(j: Reader, data: array<int>, hac: Table, fac: array<int>, dq: seq<nat>, k: nat, ghost t: Dht)
    returns (status: int, k1: nat)
    requires j.InStep() && Holds(hac, t) && FastAcReady(fac, t, FAST_SIZE)
    requires data.Length == 64 && |dq| == 64 && k < 64 && data !in hac.Arrays() && data != fac
    requires AcTurn(j.data, t, dq, j.at, k, data[..]) != Fail(PastData)
    modifies j`pos, j`marker, j`nomore, j`taken, j`padding, j`code_buffer, j`code_bits, j`at, data
    ensures match old(AcTurn(j.data, t, dq, j.at, k, data[..]))
            case Fail(_) => status == -1
            case End(c, p) => status == 0 && j.InStep() && data[..] == c && j.at == p
            case Go(p, n, c) => status == 1 && j.InStep() && data[..] == c && j.at == p && k1 == n
  {
    hide Msb, Flip, Carries, Extend, Symbol, Matches, FastAc, Pow2, Put, FastId, Listed, Decodable, Limit, FirstSymbol,
      FirstCode;
    k1 := k;
    if j.code_bits < 16 {
      j.Grow();
    }
    FastTurn(j.data, t, dq, j.at, k, data[..]);
    Pow2Values();
    MsbBound(Flip(j.data), j.at, 9);
    var c := j.TopMasked(9);
    var r := fac[c];
    if r != 0 {
      var s := r % 16;
      j.Consume(s);
      k1 := k + r / 16 % 16;
      StoreCoefficient(data, dq, k1, r / 256);
      k1 := k1 + 1;
      status := 1;
    } else {
      status, k1 := DecodeAcSlowly(j, data, hac, dq, k, t);
    }
  }

  method StoreCoefficient(data: array<int>, dq: seq<nat>, k: nat, v: int)
    requires data.Length == 64 && |dq| == 64 && k < 79
    modifies data
    ensures data[..] == Put(old(data[..]), dq, k, v)
  {
    var zig := Dezigzag(k);
    data[zig] := Short(v * dq[zig]);
  }

  method DecodeAcSlowly(j: Reader, data: array<int>, hac: Table, dq: seq<nat>, k: nat, ghost t: Dht)
    returns (status: int, k1: nat)
    requires j.InStep() && Holds(hac, t)
    requires data.Length == 64 && |dq| == 64 && k < 64 && data !in hac.Arrays()
    requires AcTurn(j.data, t, dq, j.at, k, data[..]) != Fail(PastData)
    modifies j`pos, j`marker, j`nomore, j`taken, j`padding, j`code_buffer, j`code_bits, j`at, data
    ensures match old(AcTurn(j.data, t, dq, j.at, k, data[..]))
            case Fail(_) => status == -1
            case End(c, p) => status == 0 && j.InStep() && data[..] == c && j.at == p
            case Go(p, n, c) => status == 1 && j.InStep() && data[..] == c && j.at == p && k1 == n
  {
    hide Msb, Flip, Carries, Extend, Put, FastId, Listed, Decodable, Limit, FirstSymbol, FirstCode, ReadSymbol;
    k1 := k;
    var rs := DecodeSymbol(j, hac, t);
    if rs < 0 {
      return -1, k1;
    }
    var s := rs % 16;
    var r := rs / 16;
    if s == 0 {
      if rs != 0xf0 {
        return 0, k1;
      }
      return 1, k + 16;
    }
    k1 := k1 + r;
    var v := j.ExtendReceive(s);
    StoreCoefficient(data, dq, k1, v);
    k1 := k1 + 1;
    status := 1;
  }

  /** `stbi__jpeg_decode_block`: on data that does not run out, the block the bits denote. */
  method DecodeBlock(j: Reader, data: array<int>, hdc: Table, hac: Table, fac: array<int>, pred: int, dq: seq<nat>,
                     ghost tdc: Dht, ghost tac: Dht)
    returns (ok: bool, dc: int)
    requires j.InStep() && Holds(hdc, tdc) && Holds(hac, tac) && FastAcReady(fac, tac, FAST_SIZE)
    requires data.Length == 64 && |dq| == 64 && data !in hac.Arrays() && data !in hdc.Arrays() && data != fac
    requires var r := Block(j.data, tdc, tac, dq, pred, j.at); r.Decoded? || r.BadCode?
    modifies j`pos, j`marker, j`nomore, j`taken, j`padding, j`code_buffer, j`code_bits, j`at, data
    ensures var r := old(Block(j.data, tdc, tac, dq, pred, j.at));
            && ok == r.Decoded?
            && (ok ==> j.InStep() && data[..] == r.coeffs && j.at == r.at && dc == r.dc)
  {
    hide Msb, Flip, Extend, Put, AcLoop, ReadSymbol, Reader.InStep, Holds, FastAcReady;
    HoldsTable(hdc, tdc);
    HoldsTable(hac, tac);
    dc := pred;
    if j.code_bits < 16 {
      j.Grow();
    }
    ghost var p := ReadSymbol(j.data, tdc, j.at);
    var t := DecodeSymbol(j, hdc, tdc);
    if t < 0 {
      return false, dc;
    }
    ZeroBlock(data);
    var diff := 0;
    if t != 0 {
      diff := j.ExtendReceive(t);
    }
    ExtendNone(Msb(Flip(j.data), p.at, t));
    dc := pred + diff;
    StoreCoefficient(data, dq, 0, dc);
    ok := DecodeAcs(j, data, hac, fac, dq, dc, tac);
  }

  method ZeroBlock(data: array<int>)
    requires data.Length == 64
    modifies data
    ensures data[..] == seq(64, _ => 0)
  {
    forall i | 0 <= i < 64 {
      data[i] := 0;
    }
  }

  lemma ExtendNone(v: nat)
    ensures Extend(v, 0) == 0
  {
  }

  method DecodeSymbol(j: Reader, h: Table, ghost t: Dht) returns (sym: int)
    requires j.InStep() && Holds(h, t) && !ReadSymbol(j.data, t, j.at).Past?
    modifies j`pos, j`marker, j`nomore, j`taken, j`padding, j`code_buffer, j`code_bits, j`at
    ensures match old(ReadSymbol(j.data, t, j.at))
            case Got(v, p) => sym == v && j.InStep() && j.at == p
            case _ => sym == -1
  {
    hide Msb, Flip, Carries, Symbol, Matches, FastId, Listed, Decodable, Limit, FirstSymbol, FirstCode;
    sym := j.HuffDecode(h, t.lens);
  }

  method DecodeAcs(j: Reader, data: array<int>, hac: Table, fac: array<int>, dq: seq<nat>, ghost dc: int, ghost t: Dht)
    returns (ok: bool)
    requires j.InStep() && Holds(hac, t) && FastAcReady(fac, t, FAST_SIZE)
    requires data.Length == 64 && |dq| == 64 && data !in hac.Arrays() && data != fac
    requires var r := AcLoop(j.data, t, dq, dc, j.at, 1, data[..]); r.Decoded? || r.BadCode?
    modifies j`pos, j`marker, j`nomore, j`taken, j`padding, j`code_buffer, j`code_bits, j`at, data
    ensures var r := old(AcLoop(j.data, t, dq, dc, j.at, 1, data[..]));
            && ok == r.Decoded?
            && (ok ==> j.InStep() && data[..] == r.coeffs && j.at == r.at && dc == r.dc)
  {
    hide Msb, Flip, Carries, Symbol, Matches, Pow2, FastId, Listed, Decodable, Limit, FirstSymbol, FirstCode, AcTurn,
      FastAc;
    ghost var r := AcLoop(j.data, t, dq, dc, j.at, 1, data[..]);
    var k: nat := 1;
    while k < 64
      invariant j.InStep() && Holds(hac, t) && FastAcReady(fac, t, FAST_SIZE) && (r.Decoded? || r.BadCode?)
      invariant r == if k < 64 then AcLoop(j.data, t, dq, dc, j.at, k, data[..]) else Decoded(data[..], dc, j.at)
      decreases 64 - k
    {
      var status, k1 := DecodeAc(j, data, hac, fac, dq, k, t);
      if status < 0 {
        return false;
      } else if status == 0 {
        return true;
      }
      k := k1;
    }
    ok := true;
  }
}
