/**
 * The two checksums of the icon script's PNG encoder (scripts/generate-icons.mjs):
 * the reflected CRC-32 of every PNG chunk and the Adler-32 trailer of the zlib stream.
 * Each is specified over the bytes seen so far and computed by the script's loops.
 */
module Checksums {
  import opened Bytes

  // ---------------------------------------------------------------------
  // CRC-32
  // ---------------------------------------------------------------------


  /** One bit step of the reflected CRC register: shift right, folding in the reversed polynomial on a carry. */
  function CrcBit(c: bv32): bv32
  {
    if c & 1 == 1 then 0xEDB8_8320 ^ (c >> 1) else c >> 1
  }

  /** `k` bit steps. */
  function CrcBits(c: bv32, k: nat): bv32
    decreases k
  {
    if k == 0 then c else CrcBit(CrcBits(c, k - 1))
  }

  const BitsPerByte: nat := 8

  /** One byte: XOR it into the low bits of the register, then eight bit steps. */
  function CrcByte(c: bv32, b: byte): bv32
  {
    CrcBits(c ^ (b as bv32), BitsPerByte)
  }

  /** The register after feeding `data`, one byte at a time, into register `c`. */
  function CrcUpdate(c: bv32, data: seq<byte>): bv32
  {
    if |data| == 0 then c else CrcByte(CrcUpdate(c, data[..|data| - 1]), data[|data| - 1])
  }

  /** The CRC-32 of `data`: register preset to all ones, result complemented. */
  function Crc32(data: seq<byte>): (r: int)
    ensures 0 <= r < TwoTo32
  {
    (CrcUpdate(0xFFFF_FFFF, data) ^ 0xFFFF_FFFF) as int
  }

  /** `crc32`: the byte loop, whose body is `UpdateRegister`. */
  method ComputeCrc32(buf: seq<byte>) returns (r: int)
    ensures r == Crc32(buf)
  {
    var c: bv32 := 0xFFFF_FFFF;
    var i := 0;
    while i < |buf|
      invariant 0 <= i <= |buf|
      invariant c == CrcUpdate(0xFFFF_FFFF, buf[..i])
    {
      c := UpdateRegister(c, buf[i]);
      assert buf[..i + 1][..i] == buf[..i];
      i := i + 1;
    }
    assert buf[..|buf|] == buf;
    r := (c ^ 0xFFFF_FFFF) as int;
  }

  /** The body of the byte loop of `crc32`: the XOR and the inner eight-step loop. */
  method UpdateRegister(c0: bv32, b: byte) returns (c: bv32)
    ensures c == CrcByte(c0, b)
  {
    c := c0 ^ (b as bv32);
    ghost var mixed := c;
    var j := 0;
    while j < 8
      invariant 0 <= j <= 8
      invariant c == CrcBits(mixed, j)
    {
      c := if c & 1 == 1 then 0xEDB8_8320 ^ (c >> 1) else c >> 1;
      j := j + 1;
    }
  }

  /** The register can be carried across a split of the data: CRC-32 is computed incrementally. */
  lemma {:induction false} CrcUpdateAppend(c: bv32, a: seq<byte>, b: seq<byte>)
    ensures CrcUpdate(c, a + b) == CrcUpdate(CrcUpdate(c, a), b)
    decreases |b|
  {
    if |b| == 0 {
      assert a + b == a;
    } else {
      var front, last := b[..|b| - 1], b[|b| - 1];
      assert (a + b)[..|a + b| - 1] == a + front && (a + b)[|a + b| - 1] == last;
      CrcUpdateAppend(c, a, front);
      assert CrcUpdate(c, a + b) == CrcByte(CrcUpdate(c, a + front), last);
    }
  }

  /** A bit step is linear over GF(2): it distributes over XOR. */
  lemma CrcBitLinear(x: bv32, y: bv32)
    ensures CrcBit(x ^ y) == CrcBit(x) ^ CrcBit(y)
  {
    LowBit(x);
    LowBit(y);
    if x & 1 == 1 && y & 1 == 1 {
      LinearBothOdd(x, y);
    } else if x & 1 == 1 {
      LinearOneOdd(x, y);
    } else if y & 1 == 1 {
      LinearOneOdd(y, x);
      XorCommutes(x, y);
      XorCommutes(CrcBit(x), CrcBit(y));
    } else {
      LinearBothEven(x, y);
    }
  }

  lemma LowBit(x: bv32)
    ensures x & 1 != 1 ==> x & 1 == 0
  {
  }

  lemma XorCommutes(x: bv32, y: bv32)
    ensures x ^ y == y ^ x
  {
  }

  lemma ShiftXor(x: bv32, y: bv32)
    ensures (x ^ y) >> 1 == (x >> 1) ^ (y >> 1)
    ensures (x ^ y) & 1 == (x & 1) ^ (y & 1)
  {
  }

  lemma LinearBothOdd(x: bv32, y: bv32)
    requires x & 1 == 1 && y & 1 == 1
    ensures CrcBit(x ^ y) == CrcBit(x) ^ CrcBit(y)
  {
    ShiftXor(x, y);
  }

  lemma LinearOneOdd(x: bv32, y: bv32)
    requires x & 1 == 1 && y & 1 == 0
    ensures CrcBit(x ^ y) == CrcBit(x) ^ CrcBit(y)
  {
    ShiftXor(x, y);
  }

  lemma LinearBothEven(x: bv32, y: bv32)
    requires x & 1 == 0 && y & 1 == 0
    ensures CrcBit(x ^ y) == CrcBit(x) ^ CrcBit(y)
  {
    ShiftXor(x, y);
  }

  /** A byte step spelled out as its eight bit steps. */
  lemma CrcByteIsEightBits(c: bv32, b: byte)
    ensures CrcByte(c, b) == CrcBit(CrcBit(CrcBit(CrcBit(CrcBit(CrcBit(CrcBit(CrcBit(c ^ (b as bv32)))))))))
  {
  }

  /** The CRC-32 of the chunk type "IEND" is 0xAE426082, the constant every PNG file ends with. */
  lemma CrcOfIend(s: seq<byte>)
    requires |s| == 4 && s[0] == 73 && s[1] == 69 && s[2] == 78 && s[3] == 68
    ensures Crc32(s) == 0xAE42_6082
  {
    assert s[..4] == s;
    IendRegister(s);
  }

  lemma IendRegister(s: seq<byte>)
    requires |s| == 4 && s[0] == 73 && s[1] == 69 && s[2] == 78 && s[3] == 68
    ensures CrcUpdate(0xFFFF_FFFF, s[..4]) == 0x51BD_9F7D
  {
    IendPrefix(s);
    CrcUpdatePrefix(0xFFFF_FFFF, s, 4);
    IendFourthByte(CrcUpdate(0xFFFF_FFFF, s[..3]), s[3]);
  }

  lemma IendPrefix(s: seq<byte>)
    requires |s| == 4 && s[0] == 73 && s[1] == 69 && s[2] == 78 && s[3] == 68
    ensures CrcUpdate(0xFFFF_FFFF, s[..3]) == 0x639F_4775
  {
    IendFirstTwo(s);
    CrcUpdatePrefix(0xFFFF_FFFF, s, 3);
    IendThirdByte(CrcUpdate(0xFFFF_FFFF, s[..2]), s[2]);
  }

  lemma IendFirstTwo(s: seq<byte>)
    requires |s| == 4 && s[0] == 73 && s[1] == 69 && s[2] == 78 && s[3] == 68
    ensures CrcUpdate(0xFFFF_FFFF, s[..2]) == 0x992B_AC53
  {
    CrcUpdatePrefix(0xFFFF_FFFF, s, 1);
    assert s[..0] == [];
    IendFirstByte(0xFFFF_FFFF, s[0]);
    CrcUpdatePrefix(0xFFFF_FFFF, s, 2);
    IendSecondByte(CrcUpdate(0xFFFF_FFFF, s[..1]), s[1]);
  }

  /** The register after a prefix one byte longer. */
  lemma CrcUpdatePrefix(c: bv32, s: seq<byte>, n: nat)
    requires 0 < n <= |s|
    ensures CrcUpdate(c, s[..n]) == CrcByte(CrcUpdate(c, s[..n - 1]), s[n - 1])
  {
    assert s[..n][..n - 1] == s[..n - 1];
  }

  lemma IendFirstByte(c: bv32, b: byte)
    requires c == 0xFFFF_FFFF && b == 73
    ensures CrcByte(c, b) == 0x22FD_E946
  {
    assert (73 as bv32) == 0x49;
    assert CrcBit(0xFFFFFFB6) == 0x7FFFFFDB;
    assert CrcBit(0x7FFFFFDB) == 0xD2477CCD;
    assert CrcBit(0xD2477CCD) == 0x849B3D46;
    assert CrcBit(0x849B3D46) == 0x424D9EA3;
    assert CrcBit(0x424D9EA3) == 0xCC9E4C71;
    assert CrcBit(0xCC9E4C71) == 0x8BF7A518;
    assert CrcBit(0x8BF7A518) == 0x45FBD28C;
    assert CrcBit(0x45FBD28C) == 0x22FDE946;
    CrcByteIsEightBits(c, b);
  }

  lemma IendSecondByte(c: bv32, b: byte)
    requires c == 0x22FD_E946 && b == 69
    ensures CrcByte(c, b) == 0x992B_AC53
  {
    assert (69 as bv32) == 0x45;
    assert CrcBit(0x22FDE903) == 0xFCC677A1;
    assert CrcBit(0xFCC677A1) == 0x93DBB8F0;
    assert CrcBit(0x93DBB8F0) == 0x49EDDC78;
    assert CrcBit(0x49EDDC78) == 0x24F6EE3C;
    assert CrcBit(0x24F6EE3C) == 0x127B771E;
    assert CrcBit(0x127B771E) == 0x093DBB8F;
    assert CrcBit(0x093DBB8F) == 0xE9265EE7;
    assert CrcBit(0xE9265EE7) == 0x992BAC53;
    CrcByteIsEightBits(c, b);
  }

  lemma IendThirdByte(c: bv32, b: byte)
    requires c == 0x992B_AC53 && b == 78
    ensures CrcByte(c, b) == 0x639F_4775
  {
    assert (78 as bv32) == 0x4E;
    assert CrcBit(0x992BAC1D) == 0xA12D552E;
    assert CrcBit(0xA12D552E) == 0x5096AA97;
    assert CrcBit(0x5096AA97) == 0xC5F3D66B;
    assert CrcBit(0xC5F3D66B) == 0x8F416815;
    assert CrcBit(0x8F416815) == 0xAA18372A;
    assert CrcBit(0xAA18372A) == 0x550C1B95;
    assert CrcBit(0x550C1B95) == 0xC73E8EEA;
    assert CrcBit(0xC73E8EEA) == 0x639F4775;
    CrcByteIsEightBits(c, b);
  }

  lemma IendFourthByte(c: bv32, b: byte)
    requires c == 0x639F_4775 && b == 68
    ensures CrcByte(c, b) == 0x51BD_9F7D
  {
    assert (68 as bv32) == 0x44;
    assert CrcBit(0x639F4731) == 0xDC7720B8;
    assert CrcBit(0xDC7720B8) == 0x6E3B905C;
    assert CrcBit(0x6E3B905C) == 0x371DC82E;
    assert CrcBit(0x371DC82E) == 0x1B8EE417;
    assert CrcBit(0x1B8EE417) == 0xE07FF12B;
    assert CrcBit(0xE07FF12B) == 0x9D877BB5;
    assert CrcBit(0x9D877BB5) == 0xA37B3EFA;
    assert CrcBit(0xA37B3EFA) == 0x51BD9F7D;
    CrcByteIsEightBits(c, b);
  }

  // ---------------------------------------------------------------------
  // Adler-32
  // ---------------------------------------------------------------------

  /** The largest prime below 2^16. */
  const AdlerBase: int := 65521

  /** The pair (a, b) after feeding `data`, starting from (1, 0). */
  function AdlerState(data: seq<byte>): (r: (int, int))
    ensures 0 <= r.0 < AdlerBase && 0 <= r.1 < AdlerBase
  {
    if |data| == 0 then (1, 0)
    else
      var p := AdlerState(data[..|data| - 1]);
      var a := (p.0 + data[|data| - 1]) % AdlerBase;
      (a, (p.1 + a) % AdlerBase)
  }

  /** The Adler-32 of `data`: `b` in the high half, `a` in the low half. */
  function Adler32(data: seq<byte>): (r: int)
    ensures 0 <= r < TwoTo32
    ensures r / TwoTo16 == AdlerState(data).1 && r % TwoTo16 == AdlerState(data).0
  {
    var st := AdlerState(data);
    st.1 * TwoTo16 + st.0
  }

  /**
   * `adler32`: the running sums reduced at every step, then `(b << 16) | a`, which is
   * `b * 65536 + a` because `a` fits in the low sixteen bits (`PackedHalves`).
   */
  method ComputeAdler32(buf: seq<byte>) returns (r: int)
    ensures r == Adler32(buf)
  {
    var a: int, b: int := 1, 0;
    var i := 0;
    while i < |buf|
      invariant 0 <= i <= |buf|
      invariant (a, b) == AdlerState(buf[..i])
    {
      a := (a + buf[i]) % 65521;
      b := (b + a) % 65521;
      assert buf[..i + 1][..i] == buf[..i];
      i := i + 1;
    }
    assert buf[..|buf|] == buf;
    r := b * TwoTo16 + a;
  }

  /** With both halves below 2^16, shifting one up and OR-ing in the other is an addition. */
  lemma PackedHalves(lo: bv32, hi: bv32)
    requires lo < 0x1_0000 && hi < 0x1_0000
    ensures (hi << 16) | lo == hi * 0x1_0000 + lo
  {
    DisjointOr(lo, hi);
    ShiftIsProduct(hi);
  }

  lemma DisjointOr(lo: bv32, hi: bv32)
    requires lo < 0x1_0000 && hi < 0x1_0000
    ensures (hi << 16) | lo == (hi << 16) + lo
  {
  }

  lemma ShiftIsProduct(hi: bv32)
    requires hi < 0x1_0000
    ensures hi << 16 == hi * 0x1_0000
  {
  }

  /** The sum of the bytes. */
  function SumBytes(data: seq<byte>): int
  {
    if |data| == 0 then 0 else SumBytes(data[..|data| - 1]) + data[|data| - 1]
  }

  /** The sum over every prefix of `1 + (sum of the prefix's bytes)`. */
  function SumOfRunningA(data: seq<byte>): int
  {
    if |data| == 0 then 0 else SumOfRunningA(data[..|data| - 1]) + 1 + SumBytes(data)
  }

  /**
   * The reductions at every step compute the definition of RFC 1950, section 8.2:
   * A is 1 plus the sum of the bytes, B the sum of the A values after each byte,
   * both taken modulo 65521.
   */
  lemma {:induction false} AdlerMatchesDefinition(data: seq<byte>)
    ensures AdlerState(data) == ((1 + SumBytes(data)) % AdlerBase, SumOfRunningA(data) % AdlerBase)
    decreases |data|
  {
    if |data| > 0 {
      var prefix := data[..|data| - 1];
      var x := data[|data| - 1];
      AdlerMatchesDefinition(prefix);
      ModAdd(1 + SumBytes(prefix), x as int);
      var a := (1 + SumBytes(data)) % AdlerBase;
      ModAdd(SumOfRunningA(prefix), a);
      ModAdd(1 + SumBytes(data), SumOfRunningA(prefix));
    }
  }

  /** Reducing a summand first does not change the sum's residue. */
  lemma ModAdd(u: int, v: int)
    ensures (u % AdlerBase + v) % AdlerBase == (u + v) % AdlerBase
    ensures (v + u % AdlerBase) % AdlerBase == (u + v) % AdlerBase
  {
  }
}
