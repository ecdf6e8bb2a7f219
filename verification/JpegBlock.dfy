/** One 64-entry block of a baseline scan as a function of the bits of the data: section F.2.2
    of ITU-T T.81. A read past the data is a result of its own. */
module JpegBlock {
  import opened Words
  import opened BitStream
  import opened Huffman
  import opened JpegHuffman
  import opened JpegBits
  import opened JpegReader

  /** What a DHT segment defines: code sizes in order of length, and the value of each code. */
  datatype Dht = Dht(lens: seq<nat>, values: seq<int>)

  ghost predicate WellFormed(t: Dht)
  {
    && Listed(t.lens) && Decodable(t.lens) && FlagFree(t.lens)
    && |t.values| == |t.lens| && forall i :: 0 <= i < |t.values| ==> 0 <= t.values[i] < 256
  }

  datatype BlockResult = Decoded(coeffs: seq<int>, dc: int, at: nat) | BadCode | PastData | Undefined

  /** A place in an 8 by 8 block, row by row. */
  type Place = z: nat | z < 64

  /** `stbi__jpeg_dezigzag`, eight to a row; the entries past the block are all 63. */
  const DEZIGZAG: seq<seq<Place>> := [
    [0, 1, 8, 16, 9, 2, 3, 10],
    [17, 24, 32, 25, 18, 11, 4, 5],
    [12, 19, 26, 33, 40, 48, 41, 34],
    [27, 20, 13, 6, 7, 14, 21, 28],
    [35, 42, 49, 56, 57, 50, 43, 36],
    [29, 22, 15, 23, 30, 37, 44, 51],
    [58, 59, 52, 45, 38, 31, 39, 46],
    [53, 60, 61, 54, 47, 55, 62, 63]]

  function Dezigzag(k: nat): Place
    requires k < 79
  {
    if k < 64 then DEZIGZAG[k / 8][k % 8] else 63
  }

  /** `stbiw__jpg_ZigZag`. */
  const ZIGZAG: seq<seq<Place>> := [
    [0, 1, 5, 6, 14, 15, 27, 28],
    [2, 4, 7, 13, 16, 26, 29, 42],
    [3, 8, 12, 17, 25, 30, 41, 43],
    [9, 11, 18, 24, 31, 40, 44, 53],
    [10, 19, 23, 32, 39, 45, 52, 54],
    [20, 22, 33, 38, 46, 51, 55, 60],
    [21, 34, 37, 47, 50, 56, 59, 61],
    [35, 36, 48, 49, 57, 58, 62, 63]]

  function ZigZag(z: Place): Place
  {
    ZIGZAG[z / 8][z % 8]
  }

  /** The way through the block of Figure A.6 of ITU-T T.81: along the diagonals, up on the even ones and
      down on the odd ones, one step along the edge where a diagonal ends. */
  function Onward(z: Place): nat
    requires z < 63
  {
    var r, c := z / 8, z % 8;
    if (r + c) % 2 == 0 then
      if c == 7 then z + 8 else if r == 0 then z + 1 else z - 8 + 1
    else
      if r == 7 then z + 1 else if c == 0 then z + 8 else z + 8 - 1
  }

  /** The order starts in the corner, and each place is one step behind the one before it. */
  lemma ZigZagPath(k: nat)
    requires k < 63
    ensures Dezigzag(0) == 0 && Dezigzag(k) < 63 && Dezigzag(k + 1) == Onward(Dezigzag(k))
  {
    var a, b := k / 8, k % 8;
    if b < 7 {
      PathAlong(a, b);
      assert (k + 1) / 8 == a && (k + 1) % 8 == b + 1;
    } else {
      PathAcross(a);
      assert (k + 1) / 8 == a + 1 && (k + 1) % 8 == 0;
    }
  }

  lemma PathAlong(a: nat, b: nat)
    requires a < 8 && b < 7
    ensures DEZIGZAG[a][b] < 63 && DEZIGZAG[a][b + 1] == Onward(DEZIGZAG[a][b])
  {
    if a < 4 {
      PathTop(a, b);
    } else {
      PathBottom(a, b);
    }
  }

  lemma PathTop(a: nat, b: nat)
    requires a < 4 && b < 7
    ensures DEZIGZAG[a][b] < 63 && DEZIGZAG[a][b + 1] == Onward(DEZIGZAG[a][b])
  {
    match a
    case 0 =>
    case 1 =>
    case 2 =>
    case 3 =>
  }

  lemma PathBottom(a: nat, b: nat)
    requires 4 <= a < 8 && b < 7
    ensures DEZIGZAG[a][b] < 63 && DEZIGZAG[a][b + 1] == Onward(DEZIGZAG[a][b])
  {
    match a
    case 4 =>
    case 5 =>
    case 6 =>
    case 7 =>
  }

  lemma PathAcross(a: nat)
    requires a < 7
    ensures DEZIGZAG[a][7] < 63 && DEZIGZAG[a + 1][0] == Onward(DEZIGZAG[a][7])
  {
  }

  /** The writer's order and the reader's undo each other. */
  lemma ZigZagInverse(k: Place)
    ensures ZigZag(Dezigzag(k)) == k && Dezigzag(ZigZag(k)) == k
  {
    ZigZagThere(k / 8, k % 8, DEZIGZAG[k / 8][k % 8]);
    ZigZagBack(k / 8, k % 8, ZIGZAG[k / 8][k % 8]);
  }

  lemma ZigZagThere(a: nat, b: nat, z: Place)
    requires a < 8 && b < 8 && z == DEZIGZAG[a][b]
    ensures ZIGZAG[z / 8][z % 8] == 8 * a + b
  {
    if a < 4 {
      ZigZagThereTop(a, b, z);
    } else {
      ZigZagThereBottom(a, b, z);
    }
  }

  lemma ZigZagThereTop(a: nat, b: nat, z: Place)
    requires a < 4 && b < 8 && z == DEZIGZAG[a][b]
    ensures ZIGZAG[z / 8][z % 8] == 8 * a + b
  {
    match a
    case 0 =>
    case 1 =>
    case 2 =>
    case 3 =>
  }

  lemma ZigZagThereBottom(a: nat, b: nat, z: Place)
    requires 4 <= a < 8 && b < 8 && z == DEZIGZAG[a][b]
    ensures ZIGZAG[z / 8][z % 8] == 8 * a + b
  {
    match a
    case 4 =>
    case 5 =>
    case 6 =>
    case 7 =>
  }

  lemma ZigZagBack(a: nat, b: nat, z: Place)
    requires a < 8 && b < 8 && z == ZIGZAG[a][b]
    ensures DEZIGZAG[z / 8][z % 8] == 8 * a + b
  {
    if a < 4 {
      ZigZagBackTop(a, b, z);
    } else {
      ZigZagBackBottom(a, b, z);
    }
  }

  lemma ZigZagBackTop(a: nat, b: nat, z: Place)
    requires a < 4 && b < 8 && z == ZIGZAG[a][b]
    ensures DEZIGZAG[z / 8][z % 8] == 8 * a + b
  {
    match a
    case 0 =>
    case 1 =>
    case 2 =>
    case 3 =>
  }

  lemma ZigZagBackBottom(a: nat, b: nat, z: Place)
    requires 4 <= a < 8 && b < 8 && z == ZIGZAG[a][b]
    ensures DEZIGZAG[z / 8][z % 8] == 8 * a + b
  {
    match a
    case 4 =>
    case 5 =>
    case 6 =>
    case 7 =>
  }

  /** A cast to `short`. */
  function Short(v: int): (s: int)
    ensures -32768 <= s < 32768
  {
    (v + 32768) % 65536 - 32768
  }

  function Put(c: seq<int>, dq: seq<nat>, k: nat, v: int): (r: seq<int>)
    requires |c| == 64 && |dq| == 64 && k < 79
    ensures |r| == 64
  {
    var z := Dezigzag(k);
    c[z := Short(v * dq[z])]
  }

  /** One turn of the loop over the AC coefficients. */
  datatype Turn = Go(at: nat, k: nat, c: seq<int>) | End(c: seq<int>, at: nat) | Fail(r: BlockResult)

  /** The next symbol of a table and the position behind its code. */
  datatype Read = Got(value: int, at: nat) | None | Past

  ghost function ReadSymbol(d: seq<Byte>, t: Dht, at: nat): (r: Read)
    requires WellFormed(t)
    ensures r.Got? ==> 0 <= r.value < 256 && at < r.at <= 8 * |d|
  {
    var i := Symbol(t.lens, Msb(Flip(d), at, 16));
    if i < 0 then None
    else if at + t.lens[i] > 8 * |d| then Past
    else Got(t.values[i], at + t.lens[i])
  }

  ghost function AcTurn(d: seq<Byte>, t: Dht, dq: seq<nat>, at: nat, k: nat, c: seq<int>): (r: Turn)
    requires WellFormed(t) && |dq| == 64 && k < 64 && |c| == 64
    ensures r.Go? ==> k < r.k && |r.c| == 64
    ensures r.End? ==> |r.c| == 64
  {
    match ReadSymbol(d, t, at)
    case None => Fail(BadCode)
    case Past => Fail(PastData)
    case Got(rs, p) =>
      var s := rs % 16;
      if s == 0 then (if rs != 0xf0 then End(c, p) else Go(p, k + 16, c))
      else if p + s > 8 * |d| then Fail(PastData)
      else Go(p + s, k + rs / 16 + 1, Put(c, dq, k + rs / 16, Extend(Msb(Flip(d), p, s), s)))
  }

  ghost function AcLoop(d: seq<Byte>, t: Dht, dq: seq<nat>, dc: int, at: nat, k: nat, c: seq<int>): (r: BlockResult)
    requires WellFormed(t) && |dq| == 64 && k < 64 && |c| == 64
    ensures r.Decoded? ==> |r.coeffs| == 64
    decreases 64 - k
  {
    match AcTurn(d, t, dq, at, k, c)
    case Fail(r) => if r.Decoded? then BadCode else r
    case End(c1, p) => Decoded(c1, dc, p)
    case Go(p, k1, c1) => if k1 < 64 then AcLoop(d, t, dq, dc, p, k1, c1) else Decoded(c1, dc, p)
  }

  ghost function Block(d: seq<Byte>, tdc: Dht, tac: Dht, dq: seq<nat>, pred: int, at: nat): (r: BlockResult)
    requires WellFormed(tdc) && WellFormed(tac) && |dq| == 64
    ensures r.Decoded? ==> |r.coeffs| == 64
  {
    match ReadSymbol(d, tdc, at)
    case None => BadCode
    case Past => PastData
    case Got(t, p) =>
      if t > 15 then Undefined
      else if p + t > 8 * |d| then PastData
      else
        var dc := pred + Extend(Msb(Flip(d), p, t), t);
        AcLoop(d, tac, dq, dc, p + t, 1, Put(seq(64, _ => 0), dq, 0, dc))
  }

  // ----- the combined table of short AC codes

  /** The `mag` bits that follow the first `len` of the nine bits `c`. */
  function Field(c: nat, len: nat, mag: nat): nat
    requires len + mag <= FAST_BITS
  {
    Shr(Shl(c, len) % FAST_SIZE, FAST_BITS - mag)
  }

  /** What `stbi__build_fast_ac` stores for the nine bits `c`: value, run and bit count in one
      number, or 0. */
  ghost function FastAc(t: Dht, c: nat): int
    requires WellFormed(t)
  {
    var f := FastId(t.lens, c);
    if f == NOT_FAST then 0
    else
      var rs, len := t.values[f], t.lens[f];
      if rs % 16 == 0 || len + rs % 16 > FAST_BITS then 0
      else
        var v := Extend(Field(c, len, rs % 16), rs % 16);
        if -128 <= v <= 127 then v * 256 + rs / 16 * 16 + (len + rs % 16) else 0
  }

  lemma FieldIs(f: seq<Byte>, at: nat, len: nat, mag: nat)
    requires len + mag <= FAST_BITS
    ensures Field(Msb(f, at, FAST_BITS), len, mag) == Msb(f, at + len, mag)
  {
    hide Msb, Pow2;
    var a, b := FAST_BITS - len, FAST_BITS - len - mag;
    FieldLow(f, at, len);
    MsbSplit(f, at + len, mag, b);
    MsbBound(f, at + len + mag, b);
    Pow2Add(b, len);
    TopPart(Msb(f, at + len, mag), Msb(f, at + len + mag, b), Pow2(b), Pow2(len));
  }

  lemma FieldLow(f: seq<Byte>, at: nat, len: nat)
    requires len <= FAST_BITS
    ensures Shl(Msb(f, at, FAST_BITS), len) % FAST_SIZE == Shl(Msb(f, at + len, FAST_BITS - len), len)
  {
    hide Msb, Pow2;
    var a := FAST_BITS - len;
    MsbSplit(f, at, len, a);
    MsbBound(f, at + len, a);
    Pow2Add(len, a);
    Pow2Values();
    ShiftedOut(Msb(f, at, len), Msb(f, at + len, a), Pow2(len), Pow2(a));
  }

  lemma Unpack(v: int, run: int, n: int, r: int)
    requires r == v * 256 + run * 16 + n && 0 <= run < 16 && 0 < n < 16
    ensures r != 0 && r / 256 == v && r / 16 % 16 == run && r % 16 == n
  {
  }

  /** A non-zero entry does what decoding the symbol and receiving its bits would do. */
  lemma FastAcExact(d: seq<Byte>, t: Dht, at: nat)
    requires WellFormed(t)
    ensures var c := Msb(Flip(d), at, 16) / 128; var r := FastAc(t, c);
            r != 0 ==>
              && var i := Symbol(t.lens, Msb(Flip(d), at, 16));
              && i >= 0
              && var len, s := t.lens[i], t.values[i] % 16;
              && s > 0 && r / 16 % 16 == t.values[i] / 16 && r % 16 == len + s <= FAST_BITS
              && r / 256 == Extend(Msb(Flip(d), at + len, s), s)
              && -32768 <= r < 32768
  {
    hide Msb, Flip, Pow2, Extend, FastId, Symbol, Matches, TableDecode, Field, Listed, Decodable;
    var k := Msb(Flip(d), at, 16);
    var c := k / 128;
    var f := FastId(t.lens, c);
    if f != NOT_FAST {
      FastIsSymbol(t.lens, k);
      var rs, len := t.values[f], t.lens[f];
      if rs % 16 != 0 && len + rs % 16 <= FAST_BITS {
        Pow2Values();
        MsbPrefix(Flip(d), at, 9, 16);
        FieldIs(Flip(d), at, len, rs % 16);
        var v := Extend(Field(c, len, rs % 16), rs % 16);
        Unpack(v, rs / 16, len + rs % 16, v * 256 + rs / 16 * 16 + (len + rs % 16));
      }
    }
  }

  lemma FastIsSymbol(lens: seq<nat>, k: nat)
    requires Listed(lens) && FlagFree(lens) && FastId(lens, k / 128) != NOT_FAST
    ensures Symbol(lens, k) == FastId(lens, k / 128)
  {
    hide Symbol, Matches, FastId;
    DecodeExact(lens, k);
  }

  /** The short way through the loop is a turn of it. */
  lemma FastTurn(d: seq<Byte>, t: Dht, dq: seq<nat>, at: nat, k: nat, c: seq<int>)
    requires WellFormed(t) && |dq| == 64 && k < 64 && |c| == 64
    requires AcTurn(d, t, dq, at, k, c) != Fail(PastData)
    ensures var r := FastAc(t, Msb(Flip(d), at, 16) / 128);
            r != 0 ==>
              && at + r % 16 <= 8 * |d| && r % 16 <= 9
              && AcTurn(d, t, dq, at, k, c)
                 == Go(at + r % 16, k + r / 16 % 16 + 1, Put(c, dq, k + r / 16 % 16, r / 256))
  {
    hide Msb, Flip, Extend, Symbol, Matches, FastAc, Put;
    FastAcExact(d, t, at);
  }
}
