/** What the JPEG entropy coder writes, the block decoder reads back. */
module JpegRoundTrip {
  import opened Words
  import opened BitStream
  import opened BitWriter
  import opened Huffman
  import opened JpegHuffman
  import opened JpegBits
  import opened JpegReader
  import opened JpegBlock
  import opened JpegDecode
  import W = JpegWriter
  import opened JpegEncode

  // ----- the codes written are those of the segment sent

  ghost predicate Sends(ht: Ht, t: Dht, s: nat)
  {
    && s < 256
    && exists i: nat :: i < |t.lens| && i < |t.values| && t.values[i] == s && ht[s] == (Code(t.lens, i), t.lens[i])
  }

  predicate AcSymbol(s: nat)
  {
    s < 256 && (s == 0 || s == 0xf0 || 1 <= s % 16 <= 10)
  }

  ghost predicate SendsAc(ht: Ht, t: Dht)
  {
    forall s :: AcSymbol(s) ==> Sends(ht, t, s)
  }

  ghost predicate SendsDc(ht: Ht, t: Dht)
  {
    forall s: nat :: s <= 11 ==> Sends(ht, t, s)
  }

  lemma MsbOfBits(s: seq<Byte>, p: nat, v: nat, n: nat)
    requires v < Pow2(n) && BitsAt(s, p, W.MsbBits(v, n))
    ensures Msb(s, p, n) == v
  {
    hide BitsAt, Msb, W.TopValue;
    W.BitsFromMsb(s, p, W.MsbBits(v, n));
    W.TopOfBits(v, n);
  }

  lemma SymbolRead(d: seq<Byte>, at: nat, t: Dht, ht: Ht, s: nat)
    requires WellFormed(t) && Sends(ht, t, s)
    requires BitsAt(Flip(d), at, CodeWord(ht, s)) && at + |CodeWord(ht, s)| <= 8 * |d|
    ensures ReadSymbol(d, t, at) == Got(s, at + |CodeWord(ht, s)|)
  {
    hide BitsAt, Msb, Flip, W.MsbBits, Symbol, Kraft, Code, Listed;
    var i: nat :| i < |t.lens| && i < |t.values| && t.values[i] == s && ht[s] == (Code(t.lens, i), t.lens[i]);
    ListedAt(t.lens, i);
    CodeFits(t.lens, i);
    MsbOfBits(Flip(d), at, ht[s].0, ht[s].1);
    MsbPrefix(Flip(d), at, ht[s].1, 16);
    SymbolIs(t.lens, Msb(Flip(d), at, 16), i);
  }

  lemma ListedAt(lens: seq<nat>, i: nat)
    requires Listed(lens) && i < |lens|
    ensures 1 <= lens[i] <= MAX_LENGTH
  {
  }

  lemma SizedRead(d: seq<Byte>, at: nat, t: Dht, ht: Ht, s: nat, v: int)
    requires WellFormed(t) && Sends(ht, t, s) && s < 256 && v != 0
    requires BitsAt(Flip(d), at, SizedBits(ht, s, v)) && at + |SizedBits(ht, s, v)| <= 8 * |d|
    ensures var p, n := at + |CodeWord(ht, s)|, Size(Abs(v));
            && ReadSymbol(d, t, at) == Got(s, p) && p + n == at + |SizedBits(ht, s, v)|
            && Extend(Msb(Flip(d), p, n), n) == v
  {
    hide BitsAt, Msb, Flip, W.MsbBits, CodeWord, Sends, ReadSymbol, Size, Extend, WellFormed;
    ExtendMagnitude(v);
    var n := Size(Abs(v));
    BitsAtSplit(Flip(d), at, CodeWord(ht, s), W.MsbBits(Magnitude(v, n), n));
    SymbolRead(d, at, t, ht, s);
    MsbOfBits(Flip(d), at + |CodeWord(ht, s)|, Magnitude(v, n), n);
  }

  // ----- one block

  /** The block a decoder makes of coefficients in zigzag order. */
  function Dequantised(du: seq<int>, dq: seq<nat>): (r: seq<int>)
    requires |du| == 64 && |dq| == 64
    ensures |r| == 64
  {
    seq(64, i requires 0 <= i < 64 => Short(du[ZigZag(i)] * dq[i]))
  }

  predicate Fits16(v: int)
  {
    -32768 <= v < 32768
  }

  lemma ShortIff(v: int)
    ensures Short(v) == v <==> Fits16(v)
  {
  }

  /** The decoder has the products with the quantisation table exactly when all of them fit 16 bits. */
  lemma ProductsIff(du: seq<int>, dq: seq<nat>)
    requires |du| == 64 && |dq| == 64
    ensures (forall i: Place :: Dequantised(du, dq)[i] == du[ZigZag(i)] * dq[i])
       <==> (forall k: Place :: Fits16(du[k] * dq[Dezigzag(k)]))
  {
    hide Short, Dezigzag, ZigZag, Fits16;
    forall i: Place ensures Dequantised(du, dq)[i] == du[ZigZag(i)] * dq[i] <==> Fits16(du[ZigZag(i)] * dq[i]) {
      ShortIff(du[ZigZag(i)] * dq[i]);
    }
    if k: Place :| !Fits16(du[k] * dq[Dezigzag(k)]) {
      ZigZagInverse(k);
      var i := Dezigzag(k);
      assert Dequantised(du, dq)[i] != du[ZigZag(i)] * dq[i];
    } else {
      forall i: Place ensures Dequantised(du, dq)[i] == du[ZigZag(i)] * dq[i] {
        ZigZagInverse(i);
        assert Fits16(du[ZigZag(i)] * dq[Dezigzag(ZigZag(i))]);
      }
    }
  }

  /** A baseline coefficient and a table entry whose product is cut. */
  lemma ProductCut(du: seq<int>, dq: seq<nat>)
    requires |du| == 64 && |dq| == 64 && du[0] == 2000 && dq[0] == 255
    ensures Dequantised(du, dq)[0] == -14288 != 2000 * 255
  {
    assert ZigZag(0) == 0;
  }

  /** The first `k` coefficients are in their places and all others are zero. */
  ghost predicate Placed(du: seq<int>, dq: seq<nat>, k: nat, c: seq<int>)
    requires |du| == 64 && |dq| == 64
  {
    && |c| == 64
    && (forall j: Place :: j < k ==> c[Dezigzag(j)] == Short(du[j] * dq[Dezigzag(j)]))
    && (forall j: Place :: j >= k ==> c[Dezigzag(j)] == 0)
  }

  lemma PlacedAll(du: seq<int>, dq: seq<nat>, c: seq<int>)
    requires |du| == 64 && |dq| == 64 && Placed(du, dq, 64, c)
    ensures c == Dequantised(du, dq)
  {
    hide Short, Dezigzag, ZigZag;
    forall i: Place ensures c[i] == Short(du[ZigZag(i)] * dq[i]) {
      ZigZagInverse(i);
      var j := ZigZag(i);
      assert c[Dezigzag(j)] == Short(du[j] * dq[Dezigzag(j)]);
    }
  }

  lemma PlacedZeros(du: seq<int>, dq: seq<nat>, k: nat, j: nat, c: seq<int>)
    requires |du| == 64 && |dq| == 64 && k <= j <= 64 && Placed(du, dq, k, c)
    requires forall m :: k <= m < j ==> du[m] == 0
    ensures Placed(du, dq, j, c)
  {
    hide Dezigzag;
    forall m: Place | m < j ensures c[Dezigzag(m)] == Short(du[m] * dq[Dezigzag(m)]) {
      if m >= k {
        assert du[m] * dq[Dezigzag(m)] == 0;
      }
    }
  }

  lemma PlacedPut(du: seq<int>, dq: seq<nat>, k: nat, c: seq<int>)
    requires |du| == 64 && |dq| == 64 && k < 64 && Placed(du, dq, k, c)
    ensures Placed(du, dq, k + 1, Put(c, dq, k, du[k]))
  {
    hide Short, Dezigzag, ZigZag;
    forall j: Place | j != k ensures Dezigzag(j) != Dezigzag(k) {
      ZigZagInverse(j);
      ZigZagInverse(k);
    }
  }

  /** Runs of sixteen zeros move the position and nothing else. */
  lemma {:induction false} ZeroRunsRead(d: seq<Byte>, t: Dht, dq: seq<nat>, dc: int, at: nat, k: nat, c: seq<int>,
                                        ht: Ht, m: nat)
    requires WellFormed(t) && SendsAc(ht, t) && |dq| == 64 && |c| == 64 && k + 16 * m < 64
    requires BitsAt(Flip(d), at, ZeroRuns(ht, m)) && at + |ZeroRuns(ht, m)| <= 8 * |d|
    ensures AcLoop(d, t, dq, dc, at, k, c) == AcLoop(d, t, dq, dc, at + |ZeroRuns(ht, m)|, k + 16 * m, c)
    decreases m
  {
    hide BitsAt, Flip, CodeWord, WellFormed, SendsAc, AcTurn;
    if m > 0 {
      var w := CodeWord(ht, 0xf0);
      BitsAtSplit(Flip(d), at, w, ZeroRuns(ht, m - 1));
      RunRead(d, t, dq, at, k, c, ht);
      ZeroRunsRead(d, t, dq, dc, at + |w|, k + 16, c, ht, m - 1);
    }
  }

  lemma RunRead(d: seq<Byte>, t: Dht, dq: seq<nat>, at: nat, k: nat, c: seq<int>, ht: Ht)
    requires WellFormed(t) && SendsAc(ht, t) && |dq| == 64 && |c| == 64 && k < 64
    requires BitsAt(Flip(d), at, CodeWord(ht, 0xf0)) && at + |CodeWord(ht, 0xf0)| <= 8 * |d|
    ensures AcTurn(d, t, dq, at, k, c) == Go(at + |CodeWord(ht, 0xf0)|, k + 16, c)
  {
    hide BitsAt, Flip, CodeWord, Sends, ReadSymbol, WellFormed;
    assert AcSymbol(0xf0);
    SymbolRead(d, at, t, ht, 0xf0);
  }

  lemma {:induction false} AcRead(d: seq<Byte>, t: Dht, dq: seq<nat>, dc: int, at: nat, k: nat, c: seq<int>,
                                  du: seq<int>, ht: Ht)
    requires WellFormed(t) && SendsAc(ht, t) && |dq| == 64 && |du| == 64 && Baseline(du, du[0])
    requires 1 <= k < 64 && |c| == 64 && Placed(du, dq, k, c)
    requires BitsAt(Flip(d), at, AcBits(du, ht, k)) && at + |AcBits(du, ht, k)| <= 8 * |d|
    ensures AcLoop(d, t, dq, dc, at, k, c) == Decoded(Dequantised(du, dq), dc, at + |AcBits(du, ht, k)|)
    decreases 64 - k
  {
    hide BitsAt, Flip, CodeWord, SizedBits, ZeroRuns, AcBits, Sends, ReadSymbol, WellFormed, Placed, Baseline,
      NextNonzero,
         Dequantised, Put, AcTurn, Size;
    var j := NextNonzero(du, k);
    PlacedZeros(du, dq, k, j, c);
    if j == 64 {
      AcEnd(du, ht, k);
      PlacedAll(du, dq, c);
      EndRead(d, t, dq, at, k, c, ht);
    } else {
      AcRun(du, ht, k);
      var m, s := (j - k) / 16, RunSize(j - k, du[j]);
      var a, b, rest := ZeroRuns(ht, m), SizedBits(ht, s, du[j]), AcBits(du, ht, j + 1);
      BitsAtSplit(Flip(d), at, a + b, rest);
      BitsAtSplit(Flip(d), at, a, b);
      ZeroRunsRead(d, t, dq, dc, at, k, c, ht, m);
      ValueRead(d, t, dq, at + |a|, k + 16 * m, c, ht, j, du[j]);
      PlacedPut(du, dq, j, c);
      var c1 := Put(c, dq, j, du[j]);
      if j + 1 < 64 {
        AcRead(d, t, dq, dc, at + |a + b|, j + 1, c1, du, ht);
      } else {
        AcEnd(du, ht, 64);
        PlacedAll(du, dq, c1);
      }
    }
  }

  lemma EndRead(d: seq<Byte>, t: Dht, dq: seq<nat>, at: nat, k: nat, c: seq<int>, ht: Ht)
    requires WellFormed(t) && SendsAc(ht, t) && |dq| == 64 && |c| == 64 && k < 64
    requires BitsAt(Flip(d), at, CodeWord(ht, 0)) && at + |CodeWord(ht, 0)| <= 8 * |d|
    ensures AcTurn(d, t, dq, at, k, c) == End(c, at + |CodeWord(ht, 0)|)
  {
    hide BitsAt, Flip, CodeWord, Sends, ReadSymbol, WellFormed;
    assert AcSymbol(0);
    SymbolRead(d, at, t, ht, 0);
  }

  lemma RunSizeParts(zeros: nat, v: int)
    requires v != 0 && Size(Abs(v)) <= 10
    ensures var s := RunSize(zeros, v); s % 16 == Size(Abs(v)) > 0 && s / 16 == zeros % 16
  {
    hide Size;
    SizeBounds(Abs(v));
  }

  /** A run of fewer than sixteen zeros and a value. */
  lemma ValueRead(d: seq<Byte>, t: Dht, dq: seq<nat>, at: nat, k: nat, c: seq<int>, ht: Ht, j: nat, v: int)
    requires WellFormed(t) && SendsAc(ht, t) && |dq| == 64 && |c| == 64 && k <= j < 64 && j - k < 16
    requires v != 0 && Size(Abs(v)) <= 10
    requires BitsAt(Flip(d), at, SizedBits(ht, RunSize(j - k, v), v))
    requires at + |SizedBits(ht, RunSize(j - k, v), v)| <= 8 * |d|
    ensures AcTurn(d, t, dq, at, k, c) == Go(at + |SizedBits(ht, RunSize(j - k, v), v)|, j + 1, Put(c, dq, j, v))
  {
    hide BitsAt, Flip, Msb, CodeWord, Sends, ReadSymbol, WellFormed, SizedBits, Extend, Put, Size, RunSize;
    var s := RunSize(j - k, v);
    RunSizeParts(j - k, v);
    assert AcSymbol(s);
    SizedRead(d, at, t, ht, s, v);
  }

  lemma BlockRead(d: seq<Byte>, tdc: Dht, tac: Dht, dq: seq<nat>, pred: int, at: nat, du: seq<int>, htdc: Ht, htac: Ht)
    requires WellFormed(tdc) && WellFormed(tac) && SendsDc(htdc, tdc) && SendsAc(htac, tac) && |dq| == 64
    requires Baseline(du, pred)
    requires BitsAt(Flip(d), at, BlockBits(du, pred, htdc, htac)) && at + |BlockBits(du, pred, htdc, htac)| <= 8 * |d|
    ensures Block(d, tdc, tac, dq, pred, at)
         == Decoded(Dequantised(du, dq), du[0], at + |BlockBits(du, pred, htdc, htac)|)
  {
    hide BitsAt, Flip, Msb, CodeWord, Sends, ReadSymbol, WellFormed, SizedBits, Extend, Put, Size, AcBits, AcLoop,
      Dequantised, Placed;
    var diff := du[0] - pred;
    BitsAtSplit(Flip(d), at, DcBits(htdc, diff), AcBits(du, htac, 1));
    DcSize(diff);
    var zeros := seq(64, _ => 0);
    FirstPlaced(du, dq, zeros);
    var p := at + |DcBits(htdc, diff)|;
    if diff == 0 {
      SymbolRead(d, at, tdc, htdc, 0);
      ExtendNone(Msb(Flip(d), p, 0));
    } else {
      SizedRead(d, at, tdc, htdc, Size(Abs(diff)), diff);
    }
    AcRead(d, tac, dq, du[0], p, 1, Put(zeros, dq, 0, du[0]), du, htac);
  }

  lemma FirstPlaced(du: seq<int>, dq: seq<nat>, zeros: seq<int>)
    requires |du| == 64 && |dq| == 64 && zeros == seq(64, _ => 0)
    ensures Placed(du, dq, 1, Put(zeros, dq, 0, du[0]))
  {
    hide Short, Dezigzag;
    PlacedPut(du, dq, 0, zeros);
  }
}
