/**
 * Byte strings as the icon script writes them with Node's `Buffer`: unsigned bytes and
 * the fixed-width integer encodings `writeUInt32BE` and `writeUInt16LE`.
 */
module Bytes {
  type byte = b: int | 0 <= b < 256

  const TwoTo16: int := 0x1_0000
  const TwoTo32: int := 0x1_0000_0000

  /** `writeUInt32BE(n)`: four bytes, most significant first. */
  function BE32(n: int): (r: seq<byte>)
    requires 0 <= n < TwoTo32
    ensures |r| == 4
    ensures ReadBE32(r) == n
  {
    var q1 := n / 256;
    var q2 := q1 / 256;
    var q3 := q2 / 256;
    DivStep(n, 0x100_0000);
    DivStep(q1, 0x1_0000);
    DivStep(q2, 256);
    [q3, q2 % 256, q1 % 256, n % 256]
  }

  /** Dividing by 256 drops the last base-256 digit. */
  lemma DivStep(x: int, k: int)
    requires 0 <= x < 256 * k
    ensures 0 <= x / 256 < k && x == x / 256 * 256 + x % 256
  {
  }

  /** Reads four bytes as a big-endian unsigned integer. */
  function ReadBE32(s: seq<byte>): (r: int)
    requires |s| == 4
    ensures 0 <= r < TwoTo32
  {
    var b0, b1, b2, b3 := s[0] as int, s[1] as int, s[2] as int, s[3] as int;
    ((b0 * 256 + b1) * 256 + b2) * 256 + b3
  }

  /** Four bytes are determined by the integer they encode. */
  lemma ReadBE32Injective(s: seq<byte>, t: seq<byte>)
    requires |s| == 4 && |t| == 4
    requires ReadBE32(s) == ReadBE32(t)
    ensures s == t
  {
    var s0, s1, s2, s3 := s[0] as int, s[1] as int, s[2] as int, s[3] as int;
    var t0, t1, t2, t3 := t[0] as int, t[1] as int, t[2] as int, t[3] as int;
    LowByte((s0 * 256 + s1) * 256 + s2, s3);
    LowByte((t0 * 256 + t1) * 256 + t2, t3);
    LowByte(s0 * 256 + s1, s2);
    LowByte(t0 * 256 + t1, t2);
    LowByte(s0, s1);
    LowByte(t0, t1);
  }

  /** The last digit and the rest of a base-256 number. */
  lemma LowByte(q: int, r: int)
    requires 0 <= r < 256
    ensures (q * 256 + r) % 256 == r && (q * 256 + r) / 256 == q
  {
  }

  /** Encoding then reading gives back the bytes: `BE32` is the only encoding of `n`. */
  lemma BE32OfRead(s: seq<byte>)
    requires |s| == 4
    ensures BE32(ReadBE32(s)) == s
  {
    ReadBE32Injective(BE32(ReadBE32(s)), s);
  }

  /** `writeUInt16LE(n)`: two bytes, least significant first. */
  function LE16(n: int): (r: seq<byte>)
    requires 0 <= n < TwoTo16
    ensures |r| == 2
    ensures ReadLE16(r) == n
  {
    [n % 256, n / 256]
  }

  function ReadLE16(s: seq<byte>): (r: int)
    requires |s| == 2
    ensures 0 <= r < TwoTo16
  {
    s[0] as int + 256 * s[1] as int
  }

  /** The bytes of an ASCII string such as a chunk type. */
  function Ascii(s: string): (r: seq<byte>)
    requires forall i :: 0 <= i < |s| ==> s[i] as int < 128
    ensures |r| == |s|
    ensures forall i :: 0 <= i < |s| ==> r[i] == s[i] as int
  {
    seq(|s|, i requires 0 <= i < |s| => s[i] as int)
  }
}
