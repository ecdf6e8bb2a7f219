/** A whole interleaved scan: any sequence of blocks of any components, each component with its
    own tables and its own DC prediction, written and read back. */
module JpegScan {
  import opened Words
  import opened BitStream
  import opened BitWriter
  import opened Huffman
  import opened JpegHuffman
  import opened JpegTable
  import opened JpegBits
  import opened JpegReader
  import opened JpegBlock
  import opened JpegDecode
  import W = JpegWriter
  import opened JpegEncode
  import opened JpegRoundTrip

  /** The writer's tables of a component, the segments sent for it, and its quantisation table. */
  datatype Component = Component(htdc: Ht, htac: Ht, tdc: Dht, tac: Dht, dq: seq<nat>)

  ghost predicate Sound(x: Component)
  {
    && Fits(x.htdc) && Fits(x.htac) && |x.dq| == 64
    && WellFormed(x.tdc) && WellFormed(x.tac) && SendsDc(x.htdc, x.tdc) && SendsAc(x.htac, x.tac)
  }

  datatype Decoder = Decoder(hdc: Table, hac: Table, fac: array<int>)

  ghost predicate Ready(y: Decoder, x: Component)
    reads y.hdc.Arrays(), y.hac.Arrays(), y.fac
  {
    Sound(x) && Holds(y.hdc, x.tdc) && Holds(y.hac, x.tac) && FastAcReady(y.fac, x.tac, FAST_SIZE)
  }

  /** A DHT segment: the tables are built exactly when the arrays hold its symbols and its counts
      make a prefix code. */
  method LoadTable(count: seq<nat>, vals: seq<Byte>) returns (h: Table, r: Outcome)
    requires |count| == 16 && |vals| == Total(count, 16)
    ensures r.PastTheArray? <==> Total(count, 16) > 256
    ensures Total(count, 16) <= 256 ==> (r.Ok? <==> Kraft(Sizes(count, 16)) <= WINDOW)
    ensures r.Ok? && FlagFree(Sizes(count, 16)) ==>
              |vals| == |Sizes(count, 16)| && Holds(h, Dht(Sizes(count, 16), vals))
  {
    hide Sizes, Kraft, FastId, Limit, FirstSymbol, FirstCode, Listed, Decodable, Lengths, Total;
    h := new Table();
    r := h.Build(count);
    if !r.Ok? {
      return;
    }
    SizesTotal(count, 16);
    for i := 0 to |vals|
      invariant h.Built(Sizes(count, 16)) && forall m :: 0 <= m < i ==> h.values[m] == vals[m]
    {
      h.values[i] := vals[i];
    }
  }

  /** The decoder of a component, from its two segments. */
  method BuildDecoder(ghost x: Component, dcCount: seq<nat>, dcVals: seq<Byte>, acCount: seq<nat>, acVals: seq<Byte>)
    returns (y: Decoder)
    requires Sound(x) && |dcCount| == |acCount| == 16
    requires x.tdc == Dht(Sizes(dcCount, 16), dcVals) && x.tac == Dht(Sizes(acCount, 16), acVals)
    ensures Ready(y, x)
  {
    hide Sizes, Kraft, Fits, SendsDc, SendsAc, Lengths, Total;
    SizesTotal(dcCount, 16);
    SizesTotal(acCount, 16);
    var hdc, okDc := LoadTable(dcCount, dcVals);
    var hac, okAc := LoadTable(acCount, acVals);
    var fac := new int[FAST_SIZE];
    BuildFastAc(fac, hac, x.tac);
    y := Decoder(hdc, hac, fac);
  }

  // ----- the bits of a scan

  /** A block: the component it belongs to and its coefficients in zigzag order. */
  datatype Unit = Unit(comp: nat, du: seq<int>)

  ghost predicate InRange(units: seq<Unit>, preds: seq<int>)
  {
    units == []
    || (&& units[0].comp < |preds| && Baseline(units[0].du, preds[units[0].comp])
        && InRange(units[1..], preds[units[0].comp := units[0].du[0]]))
  }

  ghost function UnitBits(u: Unit, pred: int, comps: seq<Component>): seq<Bit>
    requires u.comp < |comps| && Baseline(u.du, pred)
  {
    BlockBits(u.du, pred, comps[u.comp].htdc, comps[u.comp].htac)
  }

  ghost function ScanBits(units: seq<Unit>, preds: seq<int>, comps: seq<Component>): seq<Bit>
    requires |preds| == |comps| && InRange(units, preds)
  {
    if units == [] then []
    else
      UnitBits(units[0], preds[units[0].comp], comps)
      + ScanBits(units[1..], preds[units[0].comp := units[0].du[0]], comps)
  }

  ghost predicate Remaining(d: seq<Byte>, at: nat, units: seq<Unit>, preds: seq<int>, comps: seq<Component>)
  {
    && |preds| == |comps| && InRange(units, preds)
    && BitsAt(Flip(d), at, ScanBits(units, preds, comps)) && at + |ScanBits(units, preds, comps)| <= 8 * |d|
  }

  // ----- writing

  method EncodeScan(w: W.Writer, units: seq<Unit>, comps: seq<Component>)
    requires w.Valid() && InRange(units, seq(|comps|, _ => 0)) && forall i :: 0 <= i < |comps| ==> Sound(comps[i])
    modifies w
    ensures w.Valid() && w.bits == old(w.bits) + ScanBits(units, seq(|comps|, _ => 0), comps)
  {
    hide W.Writer.Valid, Fits, WellFormed, SendsDc, SendsAc, BlockBits;
    var preds: seq<int> := seq(|comps|, _ => 0);
    ghost var all := ScanBits(units, preds, comps);
    var n := 0;
    while n < |units|
      invariant n <= |units| && |preds| == |comps| && w.Valid() && InRange(units[n..], preds)
      invariant w.bits + ScanBits(units[n..], preds, comps) == old(w.bits) + all
    {
      var u := units[n];
      ghost var before, rest := w.bits, units[n..];
      assert rest[0] == u && rest[1..] == units[n + 1..];
      var x := comps[u.comp];
      assert Sound(x);
      var dc := ProcessDU(w, u.du, preds[u.comp], x.htdc, x.htac);
      ghost var a, b := UnitBits(u, preds[u.comp], comps), ScanBits(rest[1..], preds[u.comp := u.du[0]], comps);
      assert before + (a + b) == w.bits + b;
      preds := preds[u.comp := dc];
      n := n + 1;
    }
    assert w.bits + [] == w.bits;
  }

  /** The scan with its fill bits and the end marker. */
  method WriteScan(before: seq<Byte>, units: seq<Unit>, comps: seq<Component>)
    returns (file: seq<Byte>, ghost d: seq<Byte>)
    requires InRange(units, seq(|comps|, _ => 0)) && forall i :: 0 <= i < |comps| ==> Sound(comps[i])
    ensures Carries(file, |before|, d) && Remaining(d, 0, units, seq(|comps|, _ => 0), comps)
    ensures before <= file
  {
    hide Sound, InRange, Carries, Flip, BitsAt, ScanBits, W.Stuffed, W.MsbBits, W.TopValue, Shl;
    var w := new W.Writer(before);
    EncodeScan(w, units, comps);
    ghost var bits := w.bits;
    Pow2Values();
    w.WriteBits(0x7f, 7);
    d := w.data;
    file := w.out + [0xff, 0xd9];
    assert file[|before|..] == W.Stuffed(d) + [0xff, 0xd9];
    StuffedCarries(file, |before|, d, [0xff, 0xd9]);
    ghost var all := w.bits[..8 * |d|];
    assert all == bits + all[|bits|..];
    BitsAtSplit(Flip(d), 0, bits, all[|bits|..]);
    assert bits == ScanBits(units, seq(|comps|, _ => 0), comps);
  }

  lemma {:induction false} StuffedFront(d: seq<Byte>)
    requires d != []
    ensures W.Stuffed(d) == W.StuffedByte(d[0]) + W.Stuffed(d[1..])
    decreases |d|
  {
    if |d| > 1 {
      var e := d[..|d| - 1];
      StuffedFront(e);
      assert e[1..] == d[1..][..|d| - 2];
    }
  }

  /** Stuffed data followed by a marker carries the data. */
  lemma {:induction false} StuffedCarries(file: seq<Byte>, p: nat, d: seq<Byte>, end: seq<Byte>)
    requires end == [0xff, 0xd9] && p <= |file| && file[p..] == W.Stuffed(d) + end
    ensures Carries(file, p, d)
    decreases |d|
  {
    var tail := file[p..];
    if d == [] {
      assert file[p] == tail[0] && file[p + 1] == tail[1];
    } else {
      hide W.Stuffed, Carries;
      StuffedFront(d);
      var s, rest := W.StuffedByte(d[0]), W.Stuffed(d[1..]) + end;
      assert tail == s + rest;
      assert file[p + |s|..] == tail[|s|..] == rest;
      StuffedCarries(file, p + |s|, d[1..], end);
      assert forall i :: 0 <= i < |s| ==> file[p + i] == tail[i] == s[i];
      CarriesOne(file, p, d);
    }
  }

  /** One stuffed byte before carried data. */
  lemma CarriesOne(file: seq<Byte>, p: nat, d: seq<Byte>)
    requires d != [] && p + |W.StuffedByte(d[0])| <= |file|
    requires forall i :: 0 <= i < |W.StuffedByte(d[0])| ==> file[p + i] == W.StuffedByte(d[0])[i]
    requires Carries(file, p + |W.StuffedByte(d[0])|, d[1..])
    ensures Carries(file, p, d)
  {
    var s := W.StuffedByte(d[0]);
    assert file[p + 0] == s[0];
    if d[0] == 255 {
      assert file[p + 1] == s[1];
    }
  }

  // ----- reading

  lemma UnitRead(d: seq<Byte>, at: nat, units: seq<Unit>, preds: seq<int>, comps: seq<Component>)
    requires units != [] && Remaining(d, at, units, preds, comps) && Sound(comps[units[0].comp])
    ensures var u, x := units[0], comps[units[0].comp];
            var r := Block(d, x.tdc, x.tac, x.dq, preds[u.comp], at);
            && r.Decoded? && |u.du| == 64 && r.coeffs == Dequantised(u.du, x.dq) && r.dc == u.du[0]
            && Remaining(d, r.at, units[1..], preds[u.comp := r.dc], comps)
  {
    hide BitsAt, Flip, BlockBits, Block, WellFormed, SendsDc, SendsAc, Fits;
    var u, x := units[0], comps[units[0].comp];
    var a, b := UnitBits(u, preds[u.comp], comps), ScanBits(units[1..], preds[u.comp := u.du[0]], comps);
    BitsAtSplit(Flip(d), at, a, b);
    BlockRead(d, x.tdc, x.tac, x.dq, preds[u.comp], at, u.du, x.htdc, x.htac);
  }

  /** The blocks of a scan in order; `units` is what was written. */
  method DecodeScan(j: Reader, order: seq<nat>, decs: seq<Decoder>, dqs: seq<seq<nat>>,
                    ghost units: seq<Unit>, ghost comps: seq<Component>)
    returns (ok: bool, blocks: seq<seq<int>>)
    requires j.InStep() && |decs| == |dqs| == |comps| && |order| == |units|
    requires forall i :: 0 <= i < |units| ==> order[i] == units[i].comp
    requires forall i :: 0 <= i < |comps| ==> Ready(decs[i], comps[i]) && dqs[i] == comps[i].dq
    requires Remaining(j.data, j.at, units, seq(|comps|, _ => 0), comps)
    modifies j
    ensures ok && |blocks| == |units|
    ensures forall i :: 0 <= i < |units| ==> IsBlock(blocks[i], units[i], comps)
  {
    hide Remaining, Block, WellFormed, Fits, SendsDc, SendsAc, Dequantised, Reader.InStep, Holds, FastAcReady;
    var preds: seq<int> := seq(|decs|, _ => 0);
    assert preds == seq(|comps|, _ => 0);
    blocks := [];
    ok := true;
    for n := 0 to |order|
      invariant ok && |blocks| == n && j.InStep() && |preds| == |comps|
      invariant forall i :: 0 <= i < |comps| ==> Ready(decs[i], comps[i])
      invariant Remaining(j.data, j.at, units[n..], preds, comps)
      invariant forall i :: 0 <= i < n ==> IsBlock(blocks[i], units[i], comps)
    {
      ghost var rest := units[n..];
      assert rest[0] == units[n] && rest[1..] == units[n + 1..];
      InComps(j.data, j.at, rest, preds, comps);
      var b := order[n];
      assert Ready(decs[b], comps[b]);
      UnitRead(j.data, j.at, rest, preds, comps);
      var data := new int[64];
      var dc;
      ok, dc := DecodeBlock(j, data, decs[b].hdc, decs[b].hac, decs[b].fac, preds[b], dqs[b], comps[b].tdc,
        comps[b].tac);
      preds := preds[b := dc];
      blocks := blocks + [data[..]];
    }
  }

  lemma InComps(d: seq<Byte>, at: nat, units: seq<Unit>, preds: seq<int>, comps: seq<Component>)
    requires units != [] && Remaining(d, at, units, preds, comps)
    ensures |preds| == |comps| && units[0].comp < |comps|
  {
  }

  /** The decoded block is the written one, de-zigzagged and multiplied by the quantisation table. */
  ghost predicate IsBlock(block: seq<int>, u: Unit, comps: seq<Component>)
  {
    && u.comp < |comps| && |u.du| == 64 && |comps[u.comp].dq| == 64
    && block == Dequantised(u.du, comps[u.comp].dq)
  }

  method RoundTrip(before: seq<Byte>, units: seq<Unit>, comps: seq<Component>, decs: seq<Decoder>)
    returns (ok: bool, blocks: seq<seq<int>>)
    requires InRange(units, seq(|comps|, _ => 0)) && |decs| == |comps|
    requires forall i :: 0 <= i < |comps| ==> Ready(decs[i], comps[i])
    ensures ok && |blocks| == |units|
    ensures forall i :: 0 <= i < |units| ==> IsBlock(blocks[i], units[i], comps)
  {
    hide Remaining, InRange, Carries, Reader.InStep, Sound, Holds, FastAcReady, IsBlock, Dequantised;
    SoundAll(comps, decs);
    var file, d := WriteScan(before, units, comps);
    var j := new Reader(file, |before|, d);
    var order := seq(|units|, i requires 0 <= i < |units| => units[i].comp);
    var dqs := seq(|comps|, i requires 0 <= i < |comps| => comps[i].dq);
    ok, blocks := DecodeScan(j, order, decs, dqs, units, comps);
  }

  lemma SoundAll(comps: seq<Component>, decs: seq<Decoder>)
    requires |decs| == |comps| && forall i :: 0 <= i < |comps| ==> Ready(decs[i], comps[i])
    ensures forall i :: 0 <= i < |comps| ==> Sound(comps[i])
  {
    forall i | 0 <= i < |comps| ensures Sound(comps[i]) {
      assert Ready(decs[i], comps[i]);
    }
  }
}
