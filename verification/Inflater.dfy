/** The inflater: block decoding as the source does it, over the bit reader and its tables.
    Each method is tied to the meaning of the stream. A stream may keep a block going for
    ever on padding zeros, so callers supply a bound after which the stream is known to
    have ended, well or badly. */
module Inflater {
  import opened Words
  import opened BitStream
  import opened Huffman
  import opened ZHuffman
  import opened ZBuf
  import opened InflateSpec

  /** The copy loops of a match, with the run-of-one-byte shortcut. */
  method CopyMatch(out: seq<Byte>, dist: nat, len: nat) returns (zout: seq<Byte>)
    requires 1 <= dist <= |out|
    ensures zout == CopyBack(out, dist, len)
  {
    hide CopyBack;
    zout := out;
    var p := |zout| - dist;
    var n := len;
    if dist == 1 {
      var v := zout[p];
      while n > 0
        invariant |zout| >= 1 && zout[|zout| - 1] == v
        invariant CopyBack(zout, 1, n) == CopyBack(out, 1, len)
      {
        CopyStep(zout, 1, n);
        zout := zout + [v];
        n := n - 1;
      }
    } else {
      while n > 0
        invariant 0 <= p == |zout| - dist
        invariant CopyBack(zout, dist, n) == CopyBack(out, dist, len)
      {
        CopyStep(zout, dist, n);
        zout := zout + [zout[p]];
        p := p + 1;
        n := n - 1;
      }
    }
    CopyStep(zout, dist, n);
  }

  lemma CopyStep(out: seq<Byte>, dist: nat, len: nat)
    requires 1 <= dist <= |out|
    ensures CopyBack(out, dist, len) ==
            if len == 0 then out else CopyBack(out + [out[|out| - dist]], dist, len - 1)
  {
  }

  /** The outcome a result reports. */
  ghost predicate Reports(o: Outcome, ok: bool, out: seq<Byte>, at: nat)
  {
    match o
    case Done(out', at') => ok && out == out' && at == at'
    case Failed => !ok
    case Undefined => false
    case Running => false
  }

  ghost predicate Ends(o: Outcome)
  {
    o.Done? || o.Failed?
  }

  /** A length symbol has been read; read the rest of the pair. */
  method ReceivePair(a: ZBuf, z: nat, ghost dlens: seq<nat>) returns (ok: bool, len: nat, dist: nat)
    requires a.InStep() && z < 31 && |dlens| <= 32 && a.z_distance.Built(dlens)
    modifies a`zbuffer, a`padding, a`num_bits, a`code_buffer, a`at
    ensures a.InStep()
    ensures var r := ReadPair(a.input, dlens, z, old(a.at));
            if ok then r == Pair(len, dist, a.at) else r == BadPair
  {
    hide LengthBase, LengthExtra, DistBase, DistExtra, Lsb, Window, Symbol, Table.Built;
    var extra := ReceiveExtra(a, LengthExtra(z));
    len, dist := LengthBase(z) + extra, 0;
    assert forall o :: o in a.z_distance.Arrays() ==> o != a;
    var d := a.Decode(a.z_distance, dlens);
    ok := d >= 0;
    if ok {
      extra := ReceiveExtra(a, DistExtra(d));
      dist := DistBase(d) + extra;
    }
  }

  /** Extra bits, if there are any. */
  method ReceiveExtra(a: ZBuf, n: nat) returns (e: nat)
    requires a.InStep() && n <= 13
    modifies a`zbuffer, a`padding, a`num_bits, a`code_buffer, a`at
    ensures a.InStep() && a.at == old(a.at) + n
    ensures e == Lsb(a.input, old(a.at), n)
  {
    hide Lsb;
    e := 0;
    if n != 0 {
      e := a.Receive(n);
    } else {
      LsbNone(a.input, a.at, n);
    }
  }

  lemma LsbNone(s: seq<Byte>, p: nat, n: nat)
    requires n == 0
    ensures Lsb(s, p, n) == 0
  {
  }

  /** `stbi__parse_huffman_block`. */
  method ParseHuffmanBlock(a: ZBuf, ghost lens: seq<nat>, ghost dlens: seq<nat>, ghost steps: nat) returns (ok: bool)
    requires a.InStep() && a.z_length.Built(lens) && a.z_distance.Built(dlens) && |dlens| <= 32
    requires Ends(Block(a.input, lens, dlens, a.at, a.zout, steps))
    modifies a`zbuffer, a`padding, a`num_bits, a`code_buffer, a`at, a`zout
    ensures a.InStep()
    ensures Reports(Block(a.input, lens, dlens, old(a.at), old(a.zout), steps), ok, a.zout, a.at)
  {
    hide Block, ReadPair, Symbol, Lsb, Window, CopyBack, FirstCode, Limit, FirstSymbol, Kraft, FastMatch, Slot;
    var zout: seq<Byte> := a.zout;
    ghost var fuel := steps;
    ghost var o := Block(a.input, lens, dlens, a.at, zout, steps);
    while true
      invariant a.InStep() && a.z_length.Built(lens) && a.z_distance.Built(dlens)
      invariant Block(a.input, lens, dlens, a.at, zout, fuel) == o
      decreases fuel
    {
      BlockStep(a.input, lens, dlens, a.at, zout, fuel);
      var z := a.Decode(a.z_length, lens);
      if z < 256 {
        if z < 0 {
          return false;
        }
        zout := zout + [z];
      } else {
        if z == 256 {
          a.zout := zout;
          return true;
        }
        var fine, len, dist := ReceivePair(a, z - 257, dlens);
        if !fine {
          return false;
        }
        if |zout| < dist {
          return false;
        }
        zout := CopyMatch(zout, dist, len);
      }
      fuel := fuel - 1;
    }
  }

  /** One unfolding of `Block`. */
  lemma BlockStep(s: seq<Byte>, lens: seq<nat>, dlens: seq<nat>, at: nat, out: seq<Byte>, steps: nat)
    requires SizeList(lens) && |dlens| <= 32
    requires Ends(Block(s, lens, dlens, at, out, steps))
    ensures steps > 0
    ensures var z := Symbol(lens, Window(s, at));
            var o := Block(s, lens, dlens, at, out, steps);
            if z < 0 then o == Failed
            else
              var p := at + lens[z];
              if z < 256 then o == Block(s, lens, dlens, p, out + [z], steps - 1)
              else if z == 256 then o == Done(out, p)
              else
                var pair := ReadPair(s, dlens, z - 257, p);
                if pair.BadPair? || |out| < pair.dist then o == Failed
                else pair.dist > 0 && o == Block(s, lens, dlens, pair.at, CopyBack(out, pair.dist, pair.len), steps - 1)
  {
    hide ReadPair, Symbol, Msb, CopyBack;
  }

  /** `stbi__parse_uncompressed_block`. */
  method ParseStoredBlock(a: ZBuf) returns (ok: bool)
    requires a.InStep() && a.num_bits < 32
    modifies a`zbuffer, a`padding, a`num_bits, a`code_buffer, a`at, a`zout
    ensures a.InStep() && a.num_bits == 0
    ensures Reports(Stored(a.input, old(a.at), old(a.zout)), ok, a.zout, a.at)
  {
    hide Lsb;
    ghost var q := (a.at + 7) / 8;
    var header := StoredHeader(a);
    var len := Le16(header[0], header[1]);
    var nlen := Le16(header[2], header[3]);
    if nlen != 0xffff - len {
      return false;
    }
    if a.zbuffer + len > |a.input| {
      return false;
    }
    StoredWhole(a.input, q, len, nlen, a.zbuffer, a.padding);
    EmptyBuffer(a);
    a.zout := a.zout + a.input[a.zbuffer..a.zbuffer + len];
    a.zbuffer := a.zbuffer + len;
    a.at := a.at + 8 * len;
    EmptyBuffer(a);
    ok := true;
  }

  /** The four bytes after the next byte boundary. */
  method StoredHeader(a: ZBuf) returns (header: seq<Byte>)
    requires a.InStep() && a.num_bits < 32
    modifies a`zbuffer, a`padding, a`num_bits, a`code_buffer, a`at
    ensures a.InStep() && a.num_bits == 0
    ensures |header| == 4 && HeaderAt(a.input, (old(a.at) + 7) / 8, header)
    ensures a.at == 8 * ((old(a.at) + 7) / 8 + 4)
  {
    hide Lsb;
    ghost var q := (a.at + 7) / 8;
    header := DrainBuffer(a);
    while |header| < 4
      invariant a.InStep() && a.num_bits == 0 && |header| <= 4
      invariant a.at == 8 * (q + |header|) && HeaderAt(a.input, q, header)
    {
      EmptyBuffer(a);
      var b := a.GetByte();
      a.at := a.at + 8;
      header := header + [b];
      EmptyBuffer(a);
    }
  }

  /** Drop bits up to the boundary and empty the buffer: at most three whole bytes are left in it. */
  method DrainBuffer(a: ZBuf) returns (header: seq<Byte>)
    requires a.InStep() && a.num_bits < 32
    modifies a`zbuffer, a`padding, a`num_bits, a`code_buffer, a`at
    ensures a.InStep() && a.num_bits == 0
    ensures |header| <= 3 && HeaderAt(a.input, (old(a.at) + 7) / 8, header)
    ensures a.at == 8 * ((old(a.at) + 7) / 8 + |header|)
  {
    hide Lsb, HeaderAt;
    ghost var q := (a.at + 7) / 8;
    Boundary(a.at, a.num_bits, a.zbuffer + a.padding);
    if a.num_bits % 8 != 0 {
      var _ := a.Receive(a.num_bits % 8);
    }
    header := [];
    NoHeader(a.input, q);
    ghost var left := a.num_bits / 8;
    while a.num_bits > 0
      invariant a.InStep() && a.num_bits == 8 * left
      invariant left >= 0 && |header| + left <= 3
      invariant a.at == 8 * (q + |header|) && HeaderAt(a.input, q, header)
    {
      BufferedByte(a, q + |header|);
      HeaderMore(a.input, q, header, a.code_buffer % 256);
      header := header + [a.code_buffer % 256];
      a.Consume(8);
      left := left - 1;
    }
  }

  /** Dropping the odd bits of the buffer leads to the next byte boundary. */
  lemma Boundary(at: nat, num_bits: nat, bytes: nat)
    requires at + num_bits == 8 * bytes && num_bits < 32
    ensures at + num_bits % 8 == 8 * ((at + 7) / 8)
    ensures num_bits - num_bits % 8 == 8 * (num_bits / 8) && num_bits / 8 <= 3
  {
  }

  ghost predicate HeaderAt(s: seq<Byte>, q: nat, header: seq<Byte>)
  {
    forall i :: 0 <= i < |header| ==> header[i] == ByteAt(s, q + i)
  }

  lemma NoHeader(s: seq<Byte>, q: nat)
    ensures HeaderAt(s, q, [])
  {
  }

  lemma HeaderMore(s: seq<Byte>, q: nat, header: seq<Byte>, b: Byte)
    requires HeaderAt(s, q, header) && b == ByteAt(s, q + |header|)
    ensures HeaderAt(s, q, header + [b])
  {
  }

  lemma BufferedByte(a: ZBuf, q: nat)
    requires a.InStep() && a.num_bits >= 8 && a.at == 8 * q
    ensures a.code_buffer % 256 == ByteAt(a.input, q)
  {
    hide Lsb, And;
    Pow2Values();
    a.Peek(8);
    LsbByte(a.input, q);
  }

  lemma EmptyBuffer(a: ZBuf)
    requires a.num_bits == 0
    ensures Lsb(a.input, a.at, a.num_bits) == 0
  {
  }

  /** A block accepted here had no padding among its header bytes. */
  lemma StoredWhole(s: seq<Byte>, q: nat, len: nat, nlen: nat, zbuffer: nat, padding: nat)
    requires zbuffer + padding == q + 4 && zbuffer <= |s| && (padding > 0 ==> zbuffer == |s|)
    requires len == Le16(ByteAt(s, q), ByteAt(s, q + 1)) && nlen == Le16(ByteAt(s, q + 2), ByteAt(s, q + 3))
    requires nlen == 0xffff - len && zbuffer + len <= |s|
    ensures padding == 0
  {
  }

  // ----- dynamic code lengths

  method ReceiveCodeLengthSizes(a: ZBuf, hclen: nat) returns (sizes: array<nat>)
    requires a.InStep() && hclen <= 19
    modifies a`zbuffer, a`padding, a`num_bits, a`code_buffer, a`at
    ensures a.InStep() && a.at == old(a.at) + 3 * hclen
    ensures fresh(sizes) && sizes.Length == 19 && sizes[..] == CodeLengthSizes(a.input, old(a.at), hclen)
  {
    hide Lsb, Dezigzag;
    sizes := new nat[19](_ => 0);
    ghost var p := a.at;
    assert sizes[..] == CodeLengthSizes(a.input, p, 0);
    for i := 0 to hclen
      invariant a.InStep() && a.at == p + 3 * i
      invariant sizes[..] == CodeLengthSizes(a.input, p, i)
    {
      var s := a.Receive(3);
      sizes[Dezigzag(i)] := s;
      assert sizes[..] == CodeLengthSizes(a.input, p, i + 1);
    }
  }

  const PADDED_LENCODES := 286 + 32 + 137

  /** `memset(lencodes + n, fill, count)`. */
  method SetRange(lencodes: array<nat>, n: nat, fill: nat, count: nat)
    requires n + count <= lencodes.Length
    modifies lencodes
    ensures lencodes[..n + count] == old(lencodes[..n]) + Fill(fill, count)
  {
    for k := 0 to count
      invariant forall i :: 0 <= i < n ==> lencodes[i] == old(lencodes[i])
      invariant forall i :: n <= i < n + k ==> lencodes[i] == fill
    {
      lencodes[n + k] := fill;
    }
  }

  /** A repeat code has been read: how many lengths it stands for. */
  method ReceiveRepeat(a: ZBuf, c: nat) returns (count: nat)
    requires a.InStep() && 16 <= c < 19
    modifies a`zbuffer, a`padding, a`num_bits, a`code_buffer, a`at
    ensures a.InStep()
    ensures var bits := if c == 16 then 2 else if c == 17 then 3 else 7;
            a.at == old(a.at) + bits && count == Lsb(a.input, old(a.at), bits) + (if c == 18 then 11 else 3)
  {
    hide Lsb;
    if c == 16 {
      count := a.Receive(2);
      count := count + 3;
    } else if c == 17 {
      count := a.Receive(3);
      count := count + 3;
    } else {
      count := a.Receive(7);
      count := count + 11;
    }
  }

  /** One code-length symbol: a length, or a repeat of lengths; `n` entries are known. */
  method ReceiveOneLength(a: ZBuf, z: Table, ghost cl: seq<nat>, total: nat, lencodes: array<nat>, n: nat)
    returns (ok: bool, m: nat)
    requires a.InStep() && z.Built(cl) && |cl| == 19 && n < total <= 320 && lencodes.Length == PADDED_LENCODES
    requires lencodes !in z.Arrays()
    requires forall i :: 0 <= i < n ==> lencodes[i] <= 15
    modifies a`zbuffer, a`padding, a`num_bits, a`code_buffer, a`at, lencodes
    ensures a.InStep()
    ensures ok ==> n < m <= total && (forall i :: 0 <= i < m ==> lencodes[i] <= 15)
                   && CodeLengths(a.input, cl, a.at, lencodes[..m], total)
                      == CodeLengths(a.input, cl, old(a.at), old(lencodes[..n]), total)
    ensures !ok ==> CodeLengths(a.input, cl, old(a.at), old(lencodes[..n]), total) == BadLengths
  {
    hide Lsb, Window, Symbol, CodeLengths, FirstCode, Limit, FirstSymbol, Kraft, FastMatch, Slot;
    ghost var got := lencodes[..n];
    CodeLengthsStep(a.input, cl, a.at, got, total);
    m := n;
    var c := a.Decode(z, cl);
    if c < 0 || c >= 19 {
      return false, m;
    }
    if c < 16 {
      lencodes[n] := c;
      m := n + 1;
      assert lencodes[..m] == got + [c];
    } else {
      var count := ReceiveRepeat(a, c);
      var fill := 0;
      if c == 16 {
        if n == 0 {
          return false, m;
        }
        fill := lencodes[n - 1];
      }
      if total - n < count {
        return false, m;
      }
      SetRange(lencodes, n, fill, count);
      m := n + count;
      Filled(got, fill, count, lencodes[..m]);
    }
    ok := true;
  }

  lemma Filled(got: seq<nat>, fill: nat, count: nat, all: seq<nat>)
    requires all == got + Fill(fill, count) && fill <= 15
    requires forall i :: 0 <= i < |got| ==> got[i] <= 15
    ensures |all| == |got| + count && forall i :: 0 <= i < |all| ==> all[i] <= 15
  {
  }

  method ReceiveCodeLengths(a: ZBuf, z: Table, ghost cl: seq<nat>, total: nat) returns (ok: bool, lencodes: array<nat>)
    requires a.InStep() && z.Built(cl) && |cl| == 19 && total <= 320
    modifies a`zbuffer, a`padding, a`num_bits, a`code_buffer, a`at
    ensures a.InStep() && fresh(lencodes) && lencodes.Length == PADDED_LENCODES
    ensures var r := CodeLengths(a.input, cl, old(a.at), [], total);
            if ok then r == LengthsRead(lencodes[..total], a.at) else r == BadLengths
  {
    hide Lsb, Window, CodeLengths, FirstCode, Limit, FirstSymbol, Kraft, FastMatch, Slot;
    lencodes := new nat[PADDED_LENCODES];
    var n := 0;
    ghost var r := CodeLengths(a.input, cl, a.at, [], total);
    assert lencodes[..0] == [];
    while n < total
      invariant a.InStep() && 0 <= n <= total && z.Built(cl) && fresh(lencodes)
      invariant forall i :: 0 <= i < n ==> lencodes[i] <= 15
      invariant CodeLengths(a.input, cl, a.at, lencodes[..n], total) == r
      decreases total - n
    {
      ok, n := ReceiveOneLength(a, z, cl, total, lencodes, n);
      if !ok {
        return;
      }
    }
    CodeLengthsEnd(a.input, cl, a.at, lencodes[..n], total);
    ok := true;
  }

  lemma CodeLengthsEnd(s: seq<Byte>, cl: seq<nat>, at: nat, got: seq<nat>, total: nat)
    requires |cl| == 19 && |got| == total
    requires forall i :: 0 <= i < |got| ==> got[i] <= 15
    ensures CodeLengths(s, cl, at, got, total) == LengthsRead(got, at)
  {
  }

  /** One unfolding of `CodeLengths`. */
  lemma CodeLengthsStep(s: seq<Byte>, cl: seq<nat>, at: nat, got: seq<nat>, total: nat)
    requires |cl| == 19 && |got| < total
    requires forall i :: 0 <= i < |got| ==> got[i] <= 15
    ensures var c := Symbol(cl, Window(s, at));
            var r := CodeLengths(s, cl, at, got, total);
            if c < 0 then r == BadLengths
            else
              var p := at + cl[c];
              if c < 16 then r == CodeLengths(s, cl, p, got + [c], total)
              else
                var bits := if c == 16 then 2 else if c == 17 then 3 else 7;
                var count := Lsb(s, p, bits) + (if c == 18 then 11 else 3);
                if (c == 16 && got == []) || total - |got| < count then r == BadLengths
                else
                  var fill := if c == 16 then got[|got| - 1] else 0;
                  r == CodeLengths(s, cl, p + bits, got + Fill(fill, count), total)
  {
    hide Symbol, Lsb, Msb;
  }

  /** `stbi__compute_huffman_codes`. */
  method ComputeHuffmanCodes(a: ZBuf) returns (ok: bool)
    requires a.InStep() && a.TablesApart()
    modifies a`zbuffer, a`padding, a`num_bits, a`code_buffer, a`at, a.z_length.Arrays(), a.z_distance.Arrays()
    ensures a.InStep()
    ensures var h := DynamicHeader(a.input, old(a.at));
            if ok then h.Header? && a.at == h.at && a.z_length.Built(h.lens) && a.z_distance.Built(h.dlens)
            else h.BadHeader?
  {
    hide Lsb, HeaderLengths, FirstCode, Limit, FirstSymbol, Kraft, FastMatch, Slot, Count;
    var lens, dlens;
    ok, lens, dlens := ReceiveHeader(a);
    if ok {
      ok := BuildBoth(a, lens, dlens);
    }
  }

  method ReceiveHeader(a: ZBuf) returns (ok: bool, lens: seq<nat>, dlens: seq<nat>)
    requires a.InStep()
    modifies a`zbuffer, a`padding, a`num_bits, a`code_buffer, a`at
    ensures a.InStep()
    ensures HeaderLengths(a.input, old(a.at)) == if ok then Header(lens, dlens, a.at) else BadHeader
  {
    hide Lsb, Msb, Symbol, CodeLengths, CodeLengthSizes, FirstCode, Limit, FirstSymbol, Kraft, FastMatch, Slot, Count;
    ghost var p := a.at;
    ok, lens, dlens := false, [], [];
    var hlit := a.Receive(5);
    var hdist := a.Receive(5);
    var hclen := a.Receive(4);
    HeaderFields(a.input, p, hlit, hdist, hclen);
    hlit, hdist, hclen := hlit + 257, hdist + 1, hclen + 4;
    var codelength_sizes := ReceiveCodeLengthSizes(a, hclen);
    var lencodes;
    ok, lencodes := ReceiveRunLengths(a, codelength_sizes[..], hlit + hdist);
    if ok {
      lens, dlens := lencodes[..hlit], lencodes[hlit..];
    }
  }

  method ReceiveRunLengths(a: ZBuf, cl: seq<nat>, ntot: nat) returns (ok: bool, all: seq<nat>)
    requires a.InStep() && |cl| == 19 && SizeList(cl) && ntot <= 320
    modifies a`zbuffer, a`padding, a`num_bits, a`code_buffer, a`at
    ensures a.InStep()
    ensures if ok then Decodable(cl) && CodeLengths(a.input, cl, old(a.at), [], ntot) == LengthsRead(all, a.at)
            else !Decodable(cl) || CodeLengths(a.input, cl, old(a.at), [], ntot) == BadLengths
  {
    hide Lsb, Msb, Symbol, CodeLengths, FirstCode, Limit, FirstSymbol, Kraft, FastMatch, Slot, Count;
    all := [];
    var z_codelength := new Table();
    ok := z_codelength.Build(cl);
    if ok {
      var lencodes;
      ok, lencodes := ReceiveCodeLengths(a, z_codelength, cl, ntot);
      all := lencodes[..ntot];
    }
  }

  method BuildBoth(a: ZBuf, lens: seq<nat>, dlens: seq<nat>) returns (ok: bool)
    requires a.TablesApart() && SizeList(lens) && SizeList(dlens)
    modifies a.z_length.Arrays(), a.z_distance.Arrays()
    ensures ok <==> Decodable(lens) && Decodable(dlens)
    ensures ok ==> a.z_length.Built(lens) && a.z_distance.Built(dlens)
  {
    hide FirstCode, Limit, FirstSymbol, Kraft, FastMatch, Slot;
    ok := a.z_length.Build(lens);
    if ok {
      ok := a.z_distance.Build(dlens);
    }
  }

  lemma HeaderFields(s: seq<Byte>, p: nat, hlit: nat, hdist: nat, hclen: nat)
    requires hlit == Lsb(s, p, 5) && hdist == Lsb(s, p + 5, 5) && hclen == Lsb(s, p + 10, 4)
    ensures hlit < 32 && hdist < 32 && hclen < 16
  {
    LsbBound(s, p, 5);
    LsbBound(s, p + 5, 5);
    LsbBound(s, p + 10, 4);
    Pow2Values();
  }

  // ----- the whole stream

  lemma FixedCodesDecodable()
    ensures SizeList(FixedLengths()) && SizeList(FixedDistances())
    ensures Kraft(FixedLengths()) == Kraft(FixedDistances()) == WINDOW
    ensures Decodable(FixedLengths()) && Decodable(FixedDistances())
  {
    hide Kraft;
    KraftFixed(288);
    KraftFixedDistance(32);
    assert FixedLengths()[..288] == FixedLengths() && FixedDistances()[..32] == FixedDistances();
  }

  /** The literal/length code uses the code space exactly. */
  lemma {:induction false} KraftFixed(i: nat)
    requires i <= 288
    ensures Lengths(FixedLengths()[..i])
    ensures Kraft(FixedLengths()[..i]) == if i <= 144 then 256 * i
                                          else if i <= 256 then 36864 + 128 * (i - 144)
                                          else if i <= 280 then 51200 + 512 * (i - 256)
                                          else 63488 + 256 * (i - 280)
  {
    if i == 0 {
      assert FixedLengths()[..0] == [];
    } else {
      hide Kraft, FixedLengths;
      KraftFixed(i - 1);
      FixedNext(i);
      KraftAppend(FixedLengths()[..i - 1], FixedLengths()[i - 1]);
      Pow2Values();
    }
  }

  lemma {:induction false} KraftFixedDistance(i: nat)
    requires i <= 32
    ensures Lengths(FixedDistances()[..i])
    ensures Kraft(FixedDistances()[..i]) == 2048 * i
  {
    if i == 0 {
      assert FixedDistances()[..0] == [];
    } else {
      hide Kraft, FixedDistances;
      KraftFixedDistance(i - 1);
      DistancesNext(i);
      KraftAppend(FixedDistances()[..i - 1], 5);
      assert Pow2(11) == 2048;
    }
  }

  /** One block, its header already read. */
  method ParseBlock(a: ZBuf, kind: nat, ghost steps: nat) returns (ok: bool)
    requires a.InStep() && a.TablesApart() && a.num_bits < 32
    requires Ends(OneBlock(a.input, kind, a.at, a.zout, steps))
    modifies a`zbuffer, a`padding, a`num_bits, a`code_buffer, a`at, a`zout, a.z_length.Arrays(), a.z_distance.Arrays()
    ensures a.InStep()
    ensures Reports(OneBlock(a.input, kind, old(a.at), old(a.zout), steps), ok, a.zout, a.at)
  {
    hide Block, Stored, DynamicHeader, FixedLengths, FixedDistances, Lsb, FirstCode, Limit, FirstSymbol, Kraft,
      FastMatch, Slot;
    if kind == 0 {
      ok := ParseStoredBlock(a);
    } else if kind == 1 {
      FixedCodesDecodable();
      ok := BuildBoth(a, FixedLengths(), FixedDistances());
      ok := ParseHuffmanBlock(a, FixedLengths(), FixedDistances(), steps);
    } else if kind == 2 {
      ghost var h := DynamicHeader(a.input, a.at);
      ok := ComputeHuffmanCodes(a);
      if ok {
        ok := ParseHuffmanBlock(a, h.lens, h.dlens, steps);
      }
    } else {
      ok := false;
    }
  }

  /** `stbi__parse_zlib`. The bound `n` on the number of blocks is only for the proof. */
  method ParseZlib(a: ZBuf, ghost n: nat, ghost steps: nat) returns (ok: bool)
    requires a.TablesApart() && a.zbuffer == 0 && a.padding == 0 && a.zout == []
    requires Ends(Inflate(a.input, n, steps))
    modifies a, a.z_length.Arrays(), a.z_distance.Arrays()
    ensures Reports(Inflate(a.input, n, steps), ok, a.zout, a.at)
  {
    hide Blocks;
    var cmf := a.GetByte();
    var flg := a.GetByte();
    if !ZlibHeader(cmf, flg) {
      return false;
    }
    a.num_bits, a.code_buffer, a.at := 0, 0, 16;
    ok := ParseBlocks(a, n, steps);
  }

  method ParseBlocks(a: ZBuf, ghost n: nat, ghost steps: nat) returns (ok: bool)
    requires a.InStep() && a.TablesApart()
    requires Ends(Blocks(a.input, a.at, a.zout, n, steps))
    modifies a, a.z_length.Arrays(), a.z_distance.Arrays()
    ensures Reports(Blocks(a.input, old(a.at), old(a.zout), n, steps), ok, a.zout, a.at)
  {
    hide Blocks, OneBlock, Lsb;
    ghost var left := n;
    ghost var o := Blocks(a.input, a.at, a.zout, n, steps);
    var final := 0;
    ok := true;
    while final == 0
      invariant a.InStep() && final < 2 && ok
      invariant final == 0 ==> Blocks(a.input, a.at, a.zout, left, steps) == o
      invariant final == 1 ==> o == Done(a.zout, a.at)
      decreases if final == 0 then left + 1 else 0
    {
      BlocksStep(a.input, a.at, a.zout, left, steps);
      final := a.Receive(1);
      var kind := a.Receive(2);
      ok := ParseBlock(a, kind, steps);
      if !ok {
        return;
      }
      left := left - 1;
    }
  }

  /** One unfolding of `Blocks`. */
  lemma BlocksStep(s: seq<Byte>, at: nat, out: seq<Byte>, n: nat, steps: nat)
    requires Ends(Blocks(s, at, out, n, steps))
    ensures n > 0 && Lsb(s, at, 1) < 2
    ensures var b := OneBlock(s, Lsb(s, at + 1, 2), at + 3, out, steps);
            && Ends(b)
            && Blocks(s, at, out, n, steps) ==
               if b.Done? && Lsb(s, at, 1) != 1 then Blocks(s, b.at, b.out, n - 1, steps) else b
  {
    hide OneBlock, Lsb;
    LsbBound(s, at, 1);
    Pow2Values();
  }

  /** `stbi_zlib_decode_malloc_guesssize_headerflag` with a header expected. */
  method DecodeZlib(input: seq<Byte>, ghost n: nat, ghost steps: nat) returns (ok: bool, out: seq<Byte>)
    requires Ends(Inflate(input, n, steps))
    ensures Inflate(input, n, steps).Done? <==> ok
    ensures ok ==> out == Inflate(input, n, steps).out
  {
    hide Inflate;
    var a := new ZBuf(input);
    ok := ParseZlib(a, n, steps);
    out := a.zout;
  }
}
