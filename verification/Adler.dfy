/** Adler-32: the blocked loop of the compressor against section 8.2 of RFC 1950. */
module Adler {
  import opened Words

  const BASE := 65521
  const BLOCK := 5552
  const WORD := 0x1_0000_0000

  /** s1 of RFC 1950: reduced after every byte. */
  function Sum1(data: seq<Byte>): (r: nat)
    ensures r < BASE
  {
    if data == [] then 1 else (Sum1(data[..|data| - 1]) + data[|data| - 1]) % BASE
  }

  function Sum2(data: seq<Byte>): (r: nat)
    ensures r < BASE
  {
    if data == [] then 0 else (Sum2(data[..|data| - 1]) + Sum1(data)) % BASE
  }

  /** The largest the two sums can get `i` bytes into a block. */
  function Most1(i: nat): nat
  {
    BASE - 1 + 255 * i
  }

  function Most2(i: nat): nat
  {
    if i == 0 then BASE - 1 else Most2(i - 1) + Most1(i)
  }

  lemma {:induction false} Most2Is(i: nat)
    ensures 2 * Most2(i) == 2 * (BASE - 1) * (i + 1) + 255 * (i * (i + 1))
  {
    if i > 0 {
      Most2Is(i - 1);
      assert i * (i + 1) == (i - 1) * i + 2 * i;
    }
  }

  lemma Most2Mono(i: nat)
    requires i <= BLOCK
    ensures Most2(i) < WORD
  {
    Most2Is(i);
    Square(i, BLOCK);
  }

  lemma Square(i: nat, n: nat)
    requires i <= n
    ensures i * (i + 1) <= n * (n + 1)
  {
    MulLe(i, n, i + 1);
    MulLe(i + 1, n + 1, n);
  }

  /** 32-bit unsigned addition. */
  function Add32(a: nat, b: nat): nat
  {
    (a + b) % WORD
  }

  lemma SumsNext(data: seq<Byte>, k: nat)
    requires k < |data|
    ensures Sum1(data[..k + 1]) == (Sum1(data[..k]) + data[k]) % BASE
    ensures Sum2(data[..k + 1]) == (Sum2(data[..k]) + Sum1(data[..k + 1])) % BASE
  {
    assert data[..k + 1][..k] == data[..k];
  }

  /** One block: no sum wraps, and both stay congruent to the per-byte sums. */
  method AddBlock(data: seq<Byte>, j: nat, blocklen: nat, a: nat, b: nat) returns (s1: nat, s2: nat)
    requires j + blocklen <= |data| && blocklen <= BLOCK
    requires a == Sum1(data[..j]) && b == Sum2(data[..j])
    ensures s1 % BASE == Sum1(data[..j + blocklen]) && s2 % BASE == Sum2(data[..j + blocklen])
  {
    hide Sum1, Sum2, Most1, Most2, Add32;
    s1, s2 := a, b;
    MostSteps(0);
    for i := 0 to blocklen
      invariant s1 <= Most1(i) && s2 <= Most2(i)
      invariant s1 % BASE == Sum1(data[..j + i]) && s2 % BASE == Sum2(data[..j + i])
    {
      SumsNext(data, j + i);
      ByteStep(s1, s2, data[j + i], i);
      s1 := Add32(s1, data[j + i]);
      s2 := Add32(s2, s1);
    }
  }

  /** One byte: neither sum wraps, both keep their bounds and remainders. */
  lemma ByteStep(s1: nat, s2: nat, b: Byte, i: nat)
    requires i < BLOCK && s1 <= Most1(i) && s2 <= Most2(i)
    ensures var t1 := Add32(s1, b);
            var t2 := Add32(s2, t1);
            && t1 == s1 + b <= Most1(i + 1) && t2 == s2 + t1 <= Most2(i + 1)
            && t1 % BASE == (s1 % BASE + b) % BASE && t2 % BASE == (s2 % BASE + t1 % BASE) % BASE
  {
    hide Most2, Most1, Add32;
    ByteBounds(s1, s2, b, i);
    Reduced(s1, b);
    Reduced(s2, s1 + b);
  }

  lemma ByteBounds(s1: nat, s2: nat, b: Byte, i: nat)
    requires i < BLOCK && s1 <= Most1(i) && s2 <= Most2(i)
    ensures Add32(s1, b) == s1 + b <= Most1(i + 1) && Add32(s2, s1 + b) == s2 + (s1 + b) <= Most2(i + 1)
  {
    hide Most2;
    Most2Mono(i + 1);
    MostSteps(i + 1);
  }

  lemma MostSteps(i: nat)
    ensures Most2(i) == if i == 0 then BASE - 1 else Most2(i - 1) + Most1(i)
    ensures Most1(i) >= BASE - 1
  {
  }

  /** Reducing late is as good as reducing at once. */
  lemma Reduced(a: nat, x: nat)
    ensures (a + x) % BASE == (a % BASE + x % BASE) % BASE
  {
    var r := a % BASE + x % BASE;
    assert a + x == BASE * (a / BASE + x / BASE) + r;
    DivModIs(a + x, BASE, a / BASE + x / BASE + r / BASE, r % BASE);
  }

  /** The checksum loop at the end of `stbi_zlib_compress`. */
  method Adler32(data: seq<Byte>) returns (s1: nat, s2: nat)
    ensures s1 == Sum1(data) && s2 == Sum2(data)
  {
    hide Sum1, Sum2;
    s1, s2 := 1, 0;
    SumsEmpty();
    var blocklen := |data| % BLOCK;
    var j := 0;
    assert data[..0] == [];
    while j < |data|
      invariant 0 <= j <= |data| && 0 <= blocklen <= BLOCK
      invariant j < |data| ==> j + blocklen <= |data| && (|data| - j - blocklen) % BLOCK == 0
      invariant s1 == Sum1(data[..j]) && s2 == Sum2(data[..j])
      decreases |data| - j, BLOCK - blocklen
    {
      s1, s2 := AddBlock(data, j, blocklen, s1, s2);
      s1 := s1 % BASE;
      s2 := s2 % BASE;
      j := j + blocklen;
      blocklen := BLOCK;
    }
    assert data[..j] == data;
  }

  lemma SumsEmpty()
    ensures Sum1([]) == 1 && Sum2([]) == 0
  {
  }

  /** The four trailer bytes, most significant first, `s2` before `s1`. */
  function Trailer(data: seq<Byte>): (r: seq<Byte>)
    ensures |r| == 4
  {
    [Sum2(data) / 256, Sum2(data) % 256, Sum1(data) / 256, Sum1(data) % 256]
  }
}
