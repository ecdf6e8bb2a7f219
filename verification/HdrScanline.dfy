/** Radiance scanlines: four planes of bytes, each run-length coded on its own. */
module HdrScanline {
  import opened Words
  import opened BitStream
  import opened Slices

  // ----- packets

  datatype Packet = Dump(bytes: seq<Byte>) | Run(value: Byte, n: nat)

  /** Dumps of one to 128 bytes, runs of one to 127. */
  predicate Proper(k: Packet)
  {
    match k case Dump(b) => 1 <= |b| <= 128 case Run(_, n) => 1 <= n <= 127
  }

  function Length(k: Packet): nat
  {
    match k case Dump(b) => |b| case Run(_, n) => n
  }

  function Copies(v: Byte, n: nat): (r: seq<Byte>)
    ensures |r| == n && forall i :: 0 <= i < n ==> r[i] == v
  {
    if n == 0 then [] else [v] + Copies(v, n - 1)
  }

  function Meaning(k: Packet): (r: seq<Byte>)
    ensures |r| == Length(k)
  {
    match k case Dump(b) => b case Run(v, n) => Copies(v, n)
  }

  function Coded(k: Packet): seq<Byte>
    requires Proper(k)
  {
    match k case Dump(b) => [|b|] + b case Run(v, n) => [n + 128, v]
  }

  predicate AllProper(ks: seq<Packet>)
  {
    forall i :: 0 <= i < |ks| ==> Proper(ks[i])
  }

  function MeaningAll(ks: seq<Packet>): seq<Byte>
  {
    if ks == [] then [] else MeaningAll(ks[..|ks| - 1]) + Meaning(ks[|ks| - 1])
  }

  function CodedAll(ks: seq<Packet>): seq<Byte>
    requires AllProper(ks)
  {
    if ks == [] then [] else CodedAll(ks[..|ks| - 1]) + Coded(ks[|ks| - 1])
  }

  // ----- what the reader makes of any bytes

  /** A plane and the position behind it; or a count beyond the line; or no end, when the zeros
      past the file are read as empty dumps for ever. */
  datatype Plane = Plane(bytes: seq<Byte>, pos: nat) | BadRun | Endless

  function Then(a: seq<Byte>, r: Plane): Plane
  {
    if r.Plane? then Plane(a + r.bytes, r.pos) else r
  }

  function ReadPlane(s: seq<Byte>, pos: nat, need: nat): (r: Plane)
    ensures r.Plane? ==> |r.bytes| == need
    decreases |s| - pos
  {
    if need == 0 then Plane([], pos)
    else if pos >= |s| then Endless
    else
      var count: nat := s[pos];
      if count > 128 then
        if count - 128 > need then BadRun
        else Then(Copies(ByteAt(s, pos + 1), count - 128), ReadPlane(s, pos + 2, need - (count - 128)))
      else
        if count > need then BadRun
        else Then(Bytes(s, pos + 1, count), ReadPlane(s, pos + 1 + count, need - count))
  }

  lemma PacketRead(s: seq<Byte>, pos: nat, need: nat, k: Packet)
    requires Proper(k) && Length(k) <= need && Has(s, pos, Coded(k))
    ensures ReadPlane(s, pos, need) == Then(Meaning(k), ReadPlane(s, pos + |Coded(k)|, need - Length(k)))
  {
    hide Bytes, Copies;
    var c := Coded(k);
    assert s[pos..pos + |c|][0] == s[pos] == c[0];
    match k
    case Dump(b) =>
      HasSplit(s, pos, [|b|], b);
      BytesAre(s, pos + 1, b);
    case Run(v, n) =>
      assert s[pos..pos + |c|][1] == s[pos + 1] == c[1];
  }

  lemma {:induction false} PacketsRead(s: seq<Byte>, pos: nat, need: nat, ks: seq<Packet>)
    requires AllProper(ks) && |MeaningAll(ks)| <= need && Has(s, pos, CodedAll(ks))
    ensures ReadPlane(s, pos, need) == Then(MeaningAll(ks), ReadPlane(s, pos + |CodedAll(ks)|, need - |MeaningAll(ks)|))
    decreases |ks|
  {
    hide ReadPlane, Proper, Meaning, Coded;
    if ks != [] {
      var pre, k := ks[..|ks| - 1], ks[|ks| - 1];
      assert Proper(k);
      HasSplit(s, pos, CodedAll(pre), Coded(k));
      PacketsRead(s, pos, need, pre);
      PacketRead(s, pos + |CodedAll(pre)|, need - |MeaningAll(pre)|, k);
      ThenThen(MeaningAll(pre), Meaning(k), ReadPlane(s, pos + |CodedAll(ks)|, need - |MeaningAll(ks)|));
    }
  }

  lemma ThenThen(a: seq<Byte>, b: seq<Byte>, r: Plane)
    ensures Then(a, Then(b, r)) == Then(a + b, r)
  {
    if r.Plane? {
      assert a + (b + r.bytes) == a + b + r.bytes;
    }
  }

  /** Packets that spell a plane are read as that plane. */
  lemma PlaneRead(s: seq<Byte>, pos: nat, ks: seq<Packet>, plane: seq<Byte>, width: nat)
    requires AllProper(ks) && Has(s, pos, CodedAll(ks)) && MeaningAll(ks) == plane && |plane| == width
    ensures ReadPlane(s, pos, width) == Plane(plane, pos + |CodedAll(ks)|)
  {
    hide CodedAll, MeaningAll;
    PacketsRead(s, pos, width, ks);
    assert plane + [] == plane;
  }

  // ----- writing

  lemma PacketsEnd(ks: seq<Packet>, k: Packet)
    requires AllProper(ks) && Proper(k)
    ensures AllProper(ks + [k]) && MeaningAll(ks + [k]) == MeaningAll(ks) + Meaning(k)
    ensures CodedAll(ks + [k]) == CodedAll(ks) + Coded(k)
  {
    hide Proper, Coded, Meaning;
    assert (ks + [k])[..|ks|] == ks;
  }

  /** What has been written: packets that spell the first `x` bytes of the plane. */
  ghost predicate Wrote(out: seq<Byte>, base: seq<Byte>, ks: seq<Packet>, comp: seq<Byte>, x: nat)
  {
    x <= |comp| && AllProper(ks) && MeaningAll(ks) == comp[..x] && out == base + CodedAll(ks)
  }

  lemma WroteMore(out: seq<Byte>, base: seq<Byte>, ks: seq<Packet>, comp: seq<Byte>, x: nat, k: Packet, y: nat)
    requires Wrote(out, base, ks, comp, x) && x <= y <= |comp| && Proper(k) && Meaning(k) == comp[x..y]
    ensures Wrote(out + Coded(k), base, ks + [k], comp, y)
  {
    hide Proper, Coded, Meaning, AllProper, MeaningAll, CodedAll;
    PacketsEnd(ks, k);
    assert comp[..x] + comp[x..y] == comp[..y];
    assert base + CodedAll(ks) + Coded(k) == base + (CodedAll(ks) + Coded(k));
  }

  /** Bytes `x` to `r` in dumps of at most 128. */
  method WriteDumps(out: seq<Byte>, comp: seq<Byte>, x: nat, r: nat, ghost base: seq<Byte>, ghost before: seq<Packet>)
    returns (res: seq<Byte>, ghost ks: seq<Packet>)
    requires x <= r <= |comp| && Wrote(out, base, before, comp, x)
    ensures Wrote(res, base, ks, comp, r)
  {
    hide Wrote;
    res, ks := out, before;
    var i := x;
    while i < r
      invariant x <= i <= r && Wrote(res, base, ks, comp, i)
    {
      var len := r - i;
      if len > 128 {
        len := 128;
      }
      var data := comp[i..i + len];
      WroteMore(res, base, ks, comp, i, Dump(data), i + len);
      assert res + [len] + data == res + Coded(Dump(data));
      res := res + [len] + data;
      ks := ks + [Dump(data)];
      i := i + len;
    }
  }

  /** Equal bytes `x` to `r` in runs of at most 127. */
  method WriteRuns(out: seq<Byte>, comp: seq<Byte>, x: nat, r: nat, ghost base: seq<Byte>, ghost before: seq<Packet>)
    returns (res: seq<Byte>, ghost ks: seq<Packet>)
    requires x <= r <= |comp| && Wrote(out, base, before, comp, x)
    requires forall i :: x <= i < r ==> comp[i] == comp[x]
    ensures Wrote(res, base, ks, comp, r)
  {
    hide Wrote;
    res, ks := out, before;
    var i := x;
    while i < r
      invariant x <= i <= r && Wrote(res, base, ks, comp, i)
    {
      var len := r - i;
      if len > 127 {
        len := 127;
      }
      ghost var k := Run(comp[i], len);
      assert Meaning(k) == comp[i..i + len];
      WroteMore(res, base, ks, comp, i, k, i + len);
      assert res + [len + 128] + [comp[i]] == res + Coded(k);
      res := res + [len + 128] + [comp[i]];
      ks := ks + [k];
      i := i + len;
    }
  }

  /** The first place from `x` on where three equal bytes begin; the end if there is none. */
  method FindRun(comp: seq<Byte>, x: nat) returns (r: nat)
    requires x <= |comp|
    ensures x <= r <= |comp|
    ensures r < |comp| ==> r + 2 < |comp| && comp[r] == comp[r + 1] == comp[r + 2]
    ensures forall i :: x <= i < r && i + 2 < |comp| ==> !(comp[i] == comp[i + 1] && comp[i] == comp[i + 2])
  {
    var width := |comp|;
    r := x;
    while r + 2 < width
      invariant x <= r <= width
      invariant forall i :: x <= i < r && i + 2 < |comp| ==> !(comp[i] == comp[i + 1] && comp[i] == comp[i + 2])
    {
      if comp[r] == comp[r + 1] && comp[r] == comp[r + 2] {
        break;
      }
      r := r + 1;
    }
    if r + 2 >= width {
      r := width;
    }
  }

  method WritePlane(out: seq<Byte>, comp: seq<Byte>) returns (res: seq<Byte>, ghost ks: seq<Packet>)
    ensures AllProper(ks) && MeaningAll(ks) == comp && res == out + CodedAll(ks)
    ensures ReadPlane(res, |out|, |comp|) == Plane(comp, |res|)
  {
    hide ReadPlane, Wrote, AllProper, MeaningAll, CodedAll;
    var width := |comp|;
    res, ks := out, [];
    WroteNothing(out, comp);
    var x := 0;
    while x < width
      invariant x <= width && Wrote(res, out, ks, comp, x)
      decreases width - x
    {
      var r := FindRun(comp, x);
      res, ks := WriteDumps(res, comp, x, r, out, ks);
      x := r;
      if r + 2 < width {
        while r < width && comp[r] == comp[x]
          invariant x <= r <= width && forall i :: x <= i < r ==> comp[i] == comp[x]
        {
          r := r + 1;
        }
        res, ks := WriteRuns(res, comp, x, r, out, ks);
        x := r;
      }
    }
    WroteAll(res, out, ks, comp);
  }

  lemma WroteNothing(out: seq<Byte>, comp: seq<Byte>)
    ensures Wrote(out, out, [], comp, 0)
  {
  }

  lemma WroteAll(res: seq<Byte>, out: seq<Byte>, ks: seq<Packet>, comp: seq<Byte>)
    requires Wrote(res, out, ks, comp, |comp|)
    ensures AllProper(ks) && MeaningAll(ks) == comp && res == out + CodedAll(ks)
    ensures ReadPlane(res, |out|, |comp|) == Plane(comp, |res|)
  {
    hide ReadPlane, AllProper, MeaningAll, CodedAll, Has;
    assert comp[..|comp|] == comp;
    HasEnd(out, CodedAll(ks));
    PlaneRead(res, |out|, ks, comp, |comp|);
  }

  lemma HasEnd(out: seq<Byte>, b: seq<Byte>)
    ensures Has(out + b, |out|, b)
  {
  }

  /** The four planes of a line: three mantissas and the exponent. */
  ghost predicate OfWidth(planes: seq<seq<Byte>>, width: nat)
  {
    |planes| == 4 && forall c :: 0 <= c < |planes| ==> |planes[c]| == width
  }

  /** Packets for the first planes. */
  ghost predicate Spell(kss: seq<seq<Packet>>, planes: seq<seq<Byte>>)
  {
    |kss| <= |planes| && forall c :: 0 <= c < |kss| ==> AllProper(kss[c]) && MeaningAll(kss[c]) == planes[c]
  }

  ghost function CodedPlanes(kss: seq<seq<Packet>>): seq<Byte>
    requires forall c :: 0 <= c < |kss| ==> AllProper(kss[c])
  {
    if kss == [] then [] else CodedPlanes(kss[..|kss| - 1]) + CodedAll(kss[|kss| - 1])
  }

  /** The run-length branch of `stbiw__write_hdr_scanline`. */
  method WriteScanline(out: seq<Byte>, planes: seq<seq<Byte>>, width: nat)
    returns (res: seq<Byte>, ghost kss: seq<seq<Packet>>)
    requires OfWidth(planes, width) && 8 <= width < 32768
    ensures |kss| == 4 && Spell(kss, planes) && res == out + LineHeader(width) + CodedPlanes(kss)
    ensures ReadLine(res, |out|, width) == Line(planes, |res|)
  {
    hide AllProper, MeaningAll, CodedAll, ReadLine;
    var base := out + LineHeader(width);
    res, kss := base, [];
    for c := 0 to 4
      invariant |kss| == c && Spell(kss, planes) && res == base + CodedPlanes(kss)
    {
      ghost var ks, was := [], kss;
      res, ks := WritePlane(res, planes[c]);
      kss := kss + [ks];
      assert kss[..c] == was;
      assert base + CodedPlanes(was) + CodedAll(ks) == base + (CodedPlanes(was) + CodedAll(ks));
    }
    assert res[|out|..|res|] == LineHeader(width) + CodedPlanes(kss);
    LineRead(res, |out|, kss, planes, width);
  }

  function LineHeader(width: nat): seq<Byte>
    requires width < 65536
  {
    [2, 2, width / 256, width % 256]
  }

  // ----- reading

  datatype Line = Line(planes: seq<seq<Byte>>, pos: nat) | Flat | BadLength | BadRle | NoEnd

  /** A scanline of any bytes. */
  ghost function ReadLine(s: seq<Byte>, pos: nat, width: nat): Line
  {
    if ByteAt(s, pos) != 2 || ByteAt(s, pos + 1) != 2 || ByteAt(s, pos + 2) >= 128 then Flat
    else if Le16(ByteAt(s, pos + 3), ByteAt(s, pos + 2)) != width then BadLength
    else ReadPlanes(s, pos + 4, width, 4)
  }

  /** The first `n` planes. */
  ghost function ReadPlanes(s: seq<Byte>, pos: nat, width: nat, n: nat): (r: Line)
    ensures r.Line? || r.BadRle? || r.NoEnd?
    ensures r.Line? ==> |r.planes| == n
  {
    if n == 0 then Line([], pos)
    else
      match ReadPlanes(s, pos, width, n - 1)
      case Line(planes, p) =>
        (match ReadPlane(s, p, width)
         case Plane(bytes, q) => Line(planes + [bytes], q)
         case BadRun => BadRle
         case Endless => NoEnd)
      case other => other
  }

  lemma {:induction false} PlanesStop(s: seq<Byte>, pos: nat, width: nat, k: nat, n: nat)
    requires k <= n && !ReadPlanes(s, pos, width, k).Line?
    ensures ReadPlanes(s, pos, width, n) == ReadPlanes(s, pos, width, k)
    decreases n
  {
    if k < n {
      PlanesStop(s, pos, width, k, n - 1);
    }
  }

  /** Every fourth byte of the buffer from `k` on: plane `k`. */
  ghost predicate Lane(a: seq<Byte>, k: nat, plane: seq<Byte>)
  {
    forall i: nat :: i < |plane| ==> 4 * i + k < |a| && a[4 * i + k] == plane[i]
  }

  /** `scanline[i * 4 + k] = b`. */
  method PutByte(a: array<Byte>, k: nat, b: Byte, i: nat, ghost done: seq<Byte>)
    requires k < 4 && 4 * i + k < a.Length && |done| == i && Lane(a[..], k, done)
    modifies a
    ensures Lane(a[..], k, done + [b])
    ensures forall q :: 0 <= q < a.Length && q % 4 != k ==> a[q] == old(a[q])
  {
    a[4 * i + k] := b;
  }

  method PutRun(a: array<Byte>, k: nat, value: Byte, i: nat, count: nat, ghost done: seq<Byte>)
    requires k < 4 && 4 * (i + count) <= a.Length && |done| == i && Lane(a[..], k, done)
    modifies a
    ensures Lane(a[..], k, done + Copies(value, count))
    ensures forall q :: 0 <= q < a.Length && q % 4 != k ==> a[q] == old(a[q])
  {
    hide Lane;
    assert done + Copies(value, 0) == done;
    for z := 0 to count
      invariant Lane(a[..], k, done + Copies(value, z))
      invariant forall q :: 0 <= q < a.Length && q % 4 != k ==> a[q] == old(a[q])
    {
      PutByte(a, k, value, i + z, done + Copies(value, z));
      assert done + Copies(value, z) + [value] == done + Copies(value, z + 1);
    }
  }

  method PutDump(a: array<Byte>, k: nat, s: seq<Byte>, pos: nat, i: nat, count: nat, ghost done: seq<Byte>)
    requires k < 4 && 4 * (i + count) <= a.Length && |done| == i && Lane(a[..], k, done)
    modifies a
    ensures Lane(a[..], k, done + Bytes(s, pos, count))
    ensures forall q :: 0 <= q < a.Length && q % 4 != k ==> a[q] == old(a[q])
  {
    assert done + Bytes(s, pos, 0) == done;
    hide Lane, Bytes;
    for z := 0 to count
      invariant Lane(a[..], k, done + Bytes(s, pos, z))
      invariant forall q :: 0 <= q < a.Length && q % 4 != k ==> a[q] == old(a[q])
    {
      PutByte(a, k, ByteAt(s, pos + z), i + z, done + Bytes(s, pos, z));
      NextOf(s, pos, z);
      assert done + Bytes(s, pos, z) + [ByteAt(s, pos + z)] == done + Bytes(s, pos, z + 1);
    }
  }

  lemma NextOf(s: seq<Byte>, pos: nat, z: nat)
    ensures Bytes(s, pos, z + 1) == Bytes(s, pos, z) + [ByteAt(s, pos + z)]
  {
    BytesSplit(s, pos, z, 1);
    assert Bytes(s, pos + z, 1) == [ByteAt(s, pos + z)];
  }

  /** One plane into its lane of the buffer. */
  method DecodePlane(s: seq<Byte>, start: nat, width: nat, k: nat, a: array<Byte>) returns (ok: bool, pos: nat)
    requires k < 4 && a.Length == 4 * width && !ReadPlane(s, start, width).Endless?
    modifies a
    ensures var r := ReadPlane(s, start, width);
            ok == r.Plane? && (ok ==> pos == r.pos && Lane(a[..], k, r.bytes))
    ensures forall q :: 0 <= q < a.Length && q % 4 != k ==> a[q] == old(a[q])
  {
    hide ReadPlane, Then;
    ghost var r := ReadPlane(s, start, width);
    pos := start;
    var i := 0;
    ghost var done: seq<Byte> := [];
    ThenNothing(r);
    while width - i > 0
      invariant 0 <= i <= width && |done| == i && Lane(a[..], k, done) && r == Then(done, ReadPlane(s, pos, width - i))
      invariant forall q :: 0 <= q < a.Length && q % 4 != k ==> a[q] == old(a[q])
      decreases |s| - pos
    {
      hide Lane, Bytes, Copies;
      var nleft := width - i;
      ReadStep(s, pos, nleft);
      ThenStops(done, ReadPlane(s, pos, nleft));
      var count: nat := ByteAt(s, pos);
      if count > 128 {
        var value := ByteAt(s, pos + 1);
        count := count - 128;
        if count > nleft {
          return false, pos;
        }
        PutRun(a, k, value, i, count, done);
        ThenThen(done, Copies(value, count), ReadPlane(s, pos + 2, nleft - count));
        done := done + Copies(value, count);
        pos := pos + 2;
      } else {
        if count > nleft {
          return false, pos;
        }
        PutDump(a, k, s, pos + 1, i, count, done);
        ThenThen(done, Bytes(s, pos + 1, count), ReadPlane(s, pos + 1 + count, nleft - count));
        done := done + Bytes(s, pos + 1, count);
        pos := pos + 1 + count;
      }
      i := i + count;
    }
    ReadNothing(s, pos, done);
    ok := true;
  }

  lemma ThenNothing(r: Plane)
    ensures Then([], r) == r
  {
  }

  lemma ThenStops(a: seq<Byte>, r: Plane)
    ensures !r.Plane? ==> Then(a, r) == r
  {
  }

  lemma ReadNothing(s: seq<Byte>, pos: nat, done: seq<Byte>)
    ensures Then(done, ReadPlane(s, pos, 0)) == Plane(done, pos)
  {
  }

  /** One packet of a plane. */
  lemma ReadStep(s: seq<Byte>, pos: nat, need: nat)
    requires need > 0
    ensures pos >= |s| ==> ReadPlane(s, pos, need) == Endless
    ensures var count: nat := ByteAt(s, pos);
            pos < |s| ==>
              ReadPlane(s, pos, need) ==
              if count > 128 then
                if count - 128 > need then BadRun
                else Then(Copies(ByteAt(s, pos + 1), count - 128), ReadPlane(s, pos + 2, need - (count - 128)))
              else
                if count > need then BadRun
                else Then(Bytes(s, pos + 1, count), ReadPlane(s, pos + 1 + count, need - count))
  {
    hide Copies, Bytes;
  }

  datatype Status = Decoded | NotRunLength | WrongLength | Corrupt

  /** One scanline of `stbi__hdr_load` into the interleaved buffer. */
  method DecodeLine(s: seq<Byte>, start: nat, width: nat, a: array<Byte>) returns (status: Status, pos: nat)
    requires a.Length == 4 * width && !ReadLine(s, start, width).NoEnd?
    modifies a
    ensures match ReadLine(s, start, width)
            case Line(planes, p) => status == Decoded && pos == p && Interleaved(a[..], planes)
            case Flat => status == NotRunLength
            case BadLength => status == WrongLength
            case BadRle => status == Corrupt
            case NoEnd => true
  {
    hide ReadPlane, Lane;
    pos := start;
    var c1, c2, len := ByteAt(s, pos), ByteAt(s, pos + 1), ByteAt(s, pos + 2);
    if c1 != 2 || c2 != 2 || len >= 128 {
      return NotRunLength, pos;
    }
    if Le16(ByteAt(s, pos + 3), len) != width {
      return WrongLength, pos;
    }
    var ok;
    ok, pos := DecodePlanes(s, pos + 4, width, a, 4);
    status := if ok then Decoded else Corrupt;
  }

  method DecodePlanes(s: seq<Byte>, start: nat, width: nat, a: array<Byte>, n: nat) returns (ok: bool, pos: nat)
    requires n == 4 && a.Length == 4 * width && !ReadPlanes(s, start, width, n).NoEnd?
    modifies a
    ensures match ReadPlanes(s, start, width, n)
            case Line(planes, p) => ok && pos == p && Interleaved(a[..], planes)
            case _ => !ok
  {
    hide ReadPlane, Lane;
    ok, pos := true, start;
    ghost var planes: seq<seq<Byte>> := [];
    for k := 0 to n
      invariant ok && ReadPlanes(s, start, width, k) == Line(planes, pos) && Interleaved(a[..], planes)
    {
      ghost var before, was := a[..], planes;
      if ReadPlane(s, pos, width).Endless? {
        PlanesStop(s, start, width, k + 1, n);
      }
      ok, pos := DecodePlane(s, pos, width, k, a);
      if !ok {
        PlanesStop(s, start, width, k + 1, n);
        return;
      }
      planes := ReadPlanes(s, start, width, k + 1).planes;
      forall c: nat | c < k ensures Lane(a[..], c, was[c]) {
        LaneKept(before, a[..], c, was[c]);
      }
    }
  }

  ghost predicate Interleaved(a: seq<Byte>, planes: seq<seq<Byte>>)
  {
    forall c: nat :: c < |planes| ==> Lane(a, c, planes[c])
  }

  lemma LaneKept(a: seq<Byte>, b: seq<Byte>, k: nat, plane: seq<Byte>)
    requires k < 4 && |a| == |b| && Lane(a, k, plane) && forall q :: 0 <= q < |b| && q % 4 == k ==> b[q] == a[q]
    ensures Lane(b, k, plane)
  {
    forall i: nat | i < |plane| ensures 4 * i + k < |b| && b[4 * i + k] == plane[i] {
      assert (4 * i + k) % 4 == k;
    }
  }

  // ----- there and back

  lemma {:induction false} PlanesRead(s: seq<Byte>, pos: nat, kss: seq<seq<Packet>>, planes: seq<seq<Byte>>, width: nat)
    requires Spell(kss, planes) && Has(s, pos, CodedPlanes(kss))
    requires forall c :: 0 <= c < |planes| ==> |planes[c]| == width
    ensures ReadPlanes(s, pos, width, |kss|) == Line(planes[..|kss|], pos + |CodedPlanes(kss)|)
    decreases |kss|
  {
    hide AllProper, MeaningAll, CodedAll, ReadPlane, Has;
    if kss != [] {
      var n := |kss| - 1;
      HasSplit(s, pos, CodedPlanes(kss[..n]), CodedAll(kss[n]));
      PlanesRead(s, pos, kss[..n], planes, width);
      PlaneRead(s, pos + |CodedPlanes(kss[..n])|, kss[n], planes[n], width);
      assert planes[..n] + [planes[n]] == planes[..n + 1];
    }
  }

  lemma HeaderRead(s: seq<Byte>, pos: nat, width: nat)
    requires width < 32768 && Has(s, pos, LineHeader(width))
    ensures |LineHeader(width)| == 4
    ensures ByteAt(s, pos) == 2 && ByteAt(s, pos + 1) == 2 && ByteAt(s, pos + 2) < 128
    ensures Le16(ByteAt(s, pos + 3), ByteAt(s, pos + 2)) == width
  {
    var t := s[pos..pos + 4];
    assert t[0] == s[pos] && t[1] == s[pos + 1] && t[2] == s[pos + 2] && t[3] == s[pos + 3];
  }

  /** What was written at `pos` is read back, whatever surrounds it. */
  lemma LineRead(s: seq<Byte>, pos: nat, kss: seq<seq<Packet>>, planes: seq<seq<Byte>>, width: nat)
    requires OfWidth(planes, width) && width < 32768 && |kss| == 4 && Spell(kss, planes)
    requires Has(s, pos, LineHeader(width) + CodedPlanes(kss))
    ensures ReadLine(s, pos, width) == Line(planes, pos + |LineHeader(width) + CodedPlanes(kss)|)
  {
    hide AllProper, MeaningAll, CodedPlanes, ReadPlanes, Has, LineHeader;
    HasSplit(s, pos, LineHeader(width), CodedPlanes(kss));
    HeaderRead(s, pos, width);
    PlanesRead(s, pos + 4, kss, planes, width);
    assert planes[..4] == planes;
  }

  method RoundTrip(before: seq<Byte>, planes: seq<seq<Byte>>, width: nat, after: seq<Byte>)
    returns (status: Status, a: array<Byte>)
    requires OfWidth(planes, width) && 8 <= width < 32768
    ensures status == Decoded && Interleaved(a[..], planes)
  {
    hide CodedPlanes, ReadLine, Interleaved, LineHeader, AllProper, MeaningAll;
    var out, kss := WriteScanline(before, planes, width);
    ghost var coded := LineHeader(width) + CodedPlanes(kss);
    assert out == before + coded;
    var file := out + after;
    assert file[|before|..|before| + |coded|] == coded;
    LineRead(file, |before|, kss, planes, width);
    a := new Byte[4 * width];
    var pos;
    status, pos := DecodeLine(file, |before|, width, a);
  }
}
