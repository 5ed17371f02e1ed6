/**
 * The `deflateRaw` helper of the icon script's PNG encoder (scripts/generate-icons.mjs):
 * a zlib stream (RFC 1950) whose DEFLATE data (RFC 1951) is made of stored, uncompressed
 * blocks of at most 65535 bytes, followed by the Adler-32 of the input.
 * `Inflate` is an independent reader for such streams, used to state the round trip.
 */
module Zlib {
  import opened Options
  import opened Bytes
  import opened Checksums

  /** The largest payload a stored block can carry (its LEN field is sixteen bits). */
  const MaxBlock: int := 65535

  /** CMF = 0x78 (method 8, 32K window), FLG = 0x01 (no preset dictionary, check bits). */
  const StreamHeader: seq<byte> := [0x78, 0x01]

  /**
   * One stored block: a header byte with BFINAL in bit 0 and BTYPE = 00, then LEN and its
   * ones' complement NLEN, both little-endian, then the bytes themselves. NLEN is written
   * `len ^ 0xffff` in the script, which is `65535 - len` for a sixteen-bit `len` (`OnesComplement`).
   */
  function StoredBlock(block: seq<byte>, isLast: bool): (r: seq<byte>)
    requires |block| <= MaxBlock
    ensures |r| == 5 + |block|
    ensures r[5..] == block
  {
    [if isLast then 1 else 0] + LE16(|block|) + LE16(MaxBlock - |block|) + block
  }

  lemma OnesComplement(len: bv16)
    ensures len ^ 0xFFFF == 0xFFFF - len
  {
  }

  function Min(a: int, b: int): int
  {
    if a <= b then a else b
  }

  /** The blocks for `input[i..]`: one every 65535 bytes, the one reaching the end marked last. */
  function StoredBlocksFrom(input: seq<byte>, i: nat): seq<byte>
    decreases |input| - i
  {
    if i >= |input| then []
    else
      var end := Min(i + MaxBlock, |input|);
      StoredBlock(input[i..end], end == |input|) + StoredBlocksFrom(input, end)
  }

  /** The whole stream `deflateRaw` returns for `input`. */
  function Deflate(input: seq<byte>): (r: seq<byte>)
    ensures |r| >= 6 && r[..2] == StreamHeader && r[|r| - 4..] == BE32(Adler32(input))
  {
    var r := StreamHeader + StoredBlocksFrom(input, 0) + BE32(Adler32(input));
    assert r[|r| - 4..] == BE32(Adler32(input));
    r
  }

  /** `deflateRaw`: the block loop, stepping `i` by 65535, then the Adler-32 trailer. */
  method DeflateRaw(input: seq<byte>) returns (out: seq<byte>)
    ensures out == Deflate(input)
  {
    ghost var blocks := StoredBlocksFrom(input, 0);
    out := StreamHeader;
    var i := 0;
    while i < |input|
      invariant 0 <= i
      invariant out + StoredBlocksFrom(input, i) == StreamHeader + blocks
      decreases |input| - i
    {
      var end := Min(i + MaxBlock, |input|);
      var block := input[i..end];
      var isLast := end == |input|;
      var header := [if isLast then 1 else 0] + LE16(|block|) + LE16(MaxBlock - |block|);
      ghost var later := StoredBlocksFrom(input, end);
      assert StoredBlocksFrom(input, i) == header + block + later;
      Regroup(out, header, block, later);
      out := out + header + block;
      i := i + MaxBlock;
    }
    assert out == StreamHeader + blocks;
    var adler := ComputeAdler32(input);
    out := out + BE32(adler);
  }

  lemma Regroup(a: seq<byte>, b: seq<byte>, c: seq<byte>, d: seq<byte>)
    ensures a + b + c + d == a + (b + c + d)
  {
  }

  /** The number of stored blocks for `n` input bytes. */
  function BlockCount(n: nat): nat
  {
    (n + MaxBlock - 1) / MaxBlock
  }

  /** Each block adds five bytes of framing to its share of the input. */
  lemma {:induction false} StoredBlocksLength(input: seq<byte>, i: nat)
    requires i <= |input|
    ensures |StoredBlocksFrom(input, i)| == (|input| - i) + 5 * BlockCount(|input| - i)
    decreases |input| - i
  {
    if i < |input| {
      var end := Min(i + MaxBlock, |input|);
      StoredBlocksLength(input, end);
      if end < |input| {
        assert BlockCount(|input| - i) == 1 + BlockCount(|input| - end);
      } else {
        assert BlockCount(|input| - i) == 1;
      }
    }
  }

  /** The stream is the input plus six bytes of header and trailer plus five per block. */
  lemma DeflateLength(input: seq<byte>)
    ensures |Deflate(input)| == |input| + 6 + 5 * BlockCount(|input|)
  {
    StoredBlocksLength(input, 0);
  }

  // ---------------------------------------------------------------------
  // Reading the stream back
  // ---------------------------------------------------------------------

  /**
   * The two-byte zlib header is acceptable (section 2.2 of RFC 1950): method 8, window at
   * most 32K, check bits making CMF * 256 + FLG a multiple of 31, no preset dictionary.
   */
  predicate ValidHeader(cmf: byte, flg: byte)
  {
    cmf % 16 == 8 && cmf / 16 <= 7 && (cmf * 256 + flg) % 31 == 0 && (flg / 32) % 2 == 0
  }

  /** A parsed stored block: its BFINAL bit, its contents and the bytes after it. */
  datatype Block = Block(final: bool, data: seq<byte>, tail: seq<byte>)

  /**
   * Reads one block header and its contents from `rest` (section 3.2.4 of RFC 1951): the
   * header byte's low bit is BFINAL and the next two bits BTYPE, which must be 00 (stored);
   * LEN and NLEN follow, NLEN must be the ones' complement of LEN, and LEN bytes must remain.
   */
  function ParseBlock(rest: seq<byte>): (r: Option<Block>)
    ensures r.Some? ==> |r.value.tail| < |rest| && rest == rest[..|rest| - |r.value.tail|] + r.value.tail
  {
    if |rest| < 5 then None
    else
      var len := ReadLE16(rest[1..3]);
      if (rest[0] / 2) % 4 != 0 || ReadLE16(rest[3..5]) != MaxBlock - len || |rest| < 5 + len then None
      else
        assert rest == rest[..5 + len] + rest[5 + len..];
        Some(Block(rest[0] % 2 == 1, rest[5..5 + len], rest[5 + len..]))
  }

  /**
   * Reads a zlib stream whose DEFLATE data is made only of stored blocks. Gives the
   * decompressed bytes when the header is valid, every block is well formed, and the last
   * block is followed by exactly the four-byte Adler-32 of the output.
   */
  function Inflate(z: seq<byte>): Option<seq<byte>>
  {
    if |z| < 2 || !ValidHeader(z[0], z[1]) then None
    else InflateBlocks(z[2..], [])
  }

  /** Reads stored blocks from `rest`, appending their contents to `out`. */
  function InflateBlocks(rest: seq<byte>, out: seq<byte>): Option<seq<byte>>
    decreases |rest|
  {
    match ParseBlock(rest)
    case None => None
    case Some(b) =>
      if !b.final then InflateBlocks(b.tail, out + b.data)
      else if |b.tail| == 4 && ReadBE32(b.tail) == Adler32(out + b.data) then Some(out + b.data)
      else None
  }

  /** Whatever a reader accepts ends in the Adler-32 of what it returns. */
  lemma {:induction false} InflateBlocksChecksAdler(rest: seq<byte>, out: seq<byte>)
    requires InflateBlocks(rest, out).Some?
    ensures |rest| >= 4 && ReadBE32(rest[|rest| - 4..]) == Adler32(InflateBlocks(rest, out).value)
    decreases |rest|
  {
    var b := ParseBlock(rest).value;
    var n := |rest| - |b.tail|;
    assert rest[n..] == b.tail;
    if !b.final {
      InflateBlocksChecksAdler(b.tail, out + b.data);
      SuffixOfSuffix(rest, n, 4);
    }
  }

  /** The last `k` bytes of a suffix are the last `k` bytes of the whole. */
  lemma SuffixOfSuffix(s: seq<byte>, n: nat, k: nat)
    requires n <= |s| && k <= |s| - n
    ensures s[|s| - k..] == s[n..][|s| - n - k..]
  {
  }

  lemma InflateChecksAdler(z: seq<byte>)
    requires Inflate(z).Some?
    ensures |z| >= 6 && ReadBE32(z[|z| - 4..]) == Adler32(Inflate(z).value)
  {
    InflateBlocksChecksAdler(z[2..], []);
    assert z[2..][|z| - 2 - 4..] == z[|z| - 4..];
  }

  /** The header `deflateRaw` writes is one a reader accepts. */
  lemma StreamHeaderValid()
    ensures ValidHeader(StreamHeader[0], StreamHeader[1])
  {
  }

  /** A reader takes a stored block apart exactly as `StoredBlock` put it together. */
  lemma ReadStoredBlock(block: seq<byte>, isLast: bool, rest: seq<byte>)
    requires |block| <= MaxBlock
    ensures ParseBlock(StoredBlock(block, isLast) + rest) == Some(Block(isLast, block, rest))
  {
    var whole := StoredBlock(block, isLast) + rest;
    assert whole[0] == if isLast then 1 else 0;
    assert whole[1..3] == LE16(|block|);
    assert whole[3..5] == LE16(MaxBlock - |block|);
    assert whole[5..5 + |block|] == block;
    assert whole[5 + |block|..] == rest;
  }

  /** Reading the blocks from position `i` on gives back the rest of the input. */
  lemma {:induction false} BlocksRoundTrip(input: seq<byte>, i: nat)
    requires i < |input|
    ensures InflateBlocks(StoredBlocksFrom(input, i) + BE32(Adler32(input)), input[..i]) == Some(input)
    decreases |input| - i
  {
    var end := Min(i + MaxBlock, |input|);
    var block := input[i..end];
    var trailer := BE32(Adler32(input));
    var later := StoredBlocksFrom(input, end);
    assert StoredBlocksFrom(input, i) + trailer == StoredBlock(block, end == |input|) + (later + trailer);
    ReadStoredBlock(block, end == |input|, later + trailer);
    assert input[..i] + block == input[..end];
    if end == |input| {
      assert input[..end] == input;
    } else {
      BlocksRoundTrip(input, end);
    }
  }

  /** Every non-empty input comes back from its stream. */
  lemma RoundTrip(input: seq<byte>)
    requires |input| > 0
    ensures Inflate(Deflate(input)) == Some(input)
  {
    var body := StoredBlocksFrom(input, 0) + BE32(Adler32(input));
    var z := StreamHeader + body;
    assert Deflate(input) == z;
    assert z[0] == 0x78 && z[1] == 0x01 && z[2..] == body;
    StreamHeaderValid();
    BlocksRoundTrip(input, 0);
    assert input[..0] == [];
  }

  /**
   * The empty input yields a header and a trailer with no block between them, so the stream
   * has no final block and a reader rejects it. The script never deflates an empty image.
   */
  lemma EmptyInputHasNoFinalBlock()
    ensures Deflate([]) == StreamHeader + BE32(1)
    ensures Inflate(Deflate([])) == None
  {
  }
}
