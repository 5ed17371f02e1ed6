/**
 * The PNG writer of the icon script (`encodePng` in scripts/generate-icons.mjs): RGBA pixels
 * become filter-free scanlines, the scanlines one zlib stream, and the file the signature
 * followed by an IHDR, an IDAT and an IEND chunk, each with its length and CRC-32.
 * `DecodePng` reads such files back and is used to state the round trip.
 */
module Png {
  import opened Options
  import opened Bytes
  import opened Checksums
  import opened Zlib

  /** The eight bytes every PNG file starts with. */
  const Signature: seq<byte> := [137, 80, 78, 71, 13, 10, 26, 10]

  /** Chunk types, as ASCII: "IHDR", "IDAT", "IEND". */
  const KindIhdr: seq<byte> := [73, 72, 68, 82]
  const KindIdat: seq<byte> := [73, 68, 65, 84]
  const KindIend: seq<byte> := [73, 69, 78, 68]

  /** The chunk types are the ASCII bytes of their names. */
  lemma KindsAreAscii()
    ensures KindIhdr == Ascii("IHDR") && KindIdat == Ascii("IDAT") && KindIend == Ascii("IEND")
  {
  }

  /** Bit depth 8, colour type 6 (RGBA), compression 0, filter method 0, no interlace. */
  const IhdrTail: seq<byte> := [8, 6, 0, 0, 0]

  // ---------------------------------------------------------------------
  // Chunks
  // ---------------------------------------------------------------------

  /** `makeChunk`: length, type, data, and the CRC-32 of type and data. */
  function Chunk(kind: seq<byte>, data: seq<byte>): (r: seq<byte>)
    requires |kind| == 4 && |data| < TwoTo32
    ensures |r| == 12 + |data|
  {
    BE32(|data|) + kind + data + BE32(Crc32(kind + data))
  }

  /** `makeChunk` with the CRC computed by the script's loop. */
  method MakeChunk(kind: seq<byte>, data: seq<byte>) returns (r: seq<byte>)
    requires |kind| == 4 && |data| < TwoTo32
    ensures r == Chunk(kind, data)
  {
    var crc := ComputeCrc32(kind + data);
    r := BE32(|data|) + kind + data + BE32(crc);
  }

  /** A chunk taken apart: its type, its data and what follows it. */
  datatype Parsed = Parsed(kind: seq<byte>, data: seq<byte>, rest: seq<byte>)

  /** Reads one chunk, rejecting it when it is cut short or its CRC-32 does not match. */
  function ReadChunk(s: seq<byte>): (r: Option<Parsed>)
    ensures r.Some? ==> |r.value.kind| == 4 && |r.value.data| < TwoTo32
  {
    if |s| < 12 then None
    else
      var len := ReadBE32(s[..4]);
      if |s| < 12 + len then None
      else
        var kind := s[4..8];
        var data := s[8..8 + len];
        if ReadBE32(s[8 + len..12 + len]) != Crc32(kind + data) then None
        else Some(Parsed(kind, data, s[12 + len..]))
  }

  /** A reader takes a chunk apart exactly as `Chunk` put it together. */
  lemma ReadWrittenChunk(kind: seq<byte>, data: seq<byte>, rest: seq<byte>)
    requires |kind| == 4 && |data| < TwoTo32
    ensures ReadChunk(Chunk(kind, data) + rest) == Some(Parsed(kind, data, rest))
  {
    Pieces(BE32(|data|), kind, data, BE32(Crc32(kind + data)), rest);
  }

  /** The pieces of a chunk-shaped concatenation, by position. */
  lemma Pieces(a: seq<byte>, b: seq<byte>, c: seq<byte>, d: seq<byte>, e: seq<byte>)
    requires |a| == 4 && |b| == 4 && |d| == 4
    ensures var s := a + b + c + d + e;
      s[..4] == a && s[4..8] == b && s[8..8 + |c|] == c && s[8 + |c|..12 + |c|] == d && s[12 + |c|..] == e
  {
  }

  /** A chunk whose data no longer matches its stored CRC-32 is rejected. */
  lemma CorruptedChunkRejected(kind: seq<byte>, data: seq<byte>, other: seq<byte>, rest: seq<byte>)
    requires |kind| == 4 && |data| < TwoTo32 && |other| == |data|
    requires Crc32(kind + other) != Crc32(kind + data)
    ensures ReadChunk(BE32(|data|) + kind + other + BE32(Crc32(kind + data)) + rest) == None
  {
    Pieces(BE32(|data|), kind, other, BE32(Crc32(kind + data)), rest);
  }

  /** The IHDR data: width and height, big-endian, then the fixed format bytes. */
  function Ihdr(width: int, height: int): (r: seq<byte>)
    requires 0 <= width < TwoTo32 && 0 <= height < TwoTo32
    ensures |r| == 13
  {
    BE32(width) + BE32(height) + IhdrTail
  }

  // ---------------------------------------------------------------------
  // Scanlines
  // ---------------------------------------------------------------------

  /**
   * The first `rows` scanlines of an image whose rows are `stride` bytes long: each row is
   * the filter-type byte 0 ("none") followed by the row's bytes unchanged.
   */
  function Scanlines(pixels: seq<byte>, stride: nat, rows: nat): (r: seq<byte>)
    requires rows * stride <= |pixels|
    ensures |r| == rows * (1 + stride)
    decreases rows
  {
    if rows == 0 then []
    else
      MulSucc(rows - 1, stride);
      MulSucc(rows - 1, 1 + stride);
      Scanlines(pixels, stride, rows - 1) + [0] + pixels[(rows - 1) * stride..rows * stride]
  }

  lemma MulSucc(a: nat, b: nat)
    ensures (a + 1) * b == a * b + b
  {
  }

  /** Byte by byte: every row starts with filter type 0 and then repeats the pixel row. */
  lemma {:induction false} ScanlinesLayout(pixels: seq<byte>, stride: nat, rows: nat, y: nat, k: nat)
    requires rows * stride <= |pixels|
    requires y < rows && k < stride
    ensures y * stride + k < rows * stride
    ensures y * (1 + stride) + 1 + k < rows * (1 + stride)
    ensures Scanlines(pixels, stride, rows)[y * (1 + stride)] == 0
    ensures Scanlines(pixels, stride, rows)[y * (1 + stride) + 1 + k] == pixels[y * stride + k]
    decreases rows
  {
    MulSucc(rows - 1, stride);
    MulSucc(rows - 1, 1 + stride);
    var before := Scanlines(pixels, stride, rows - 1);
    var row := pixels[(rows - 1) * stride..rows * stride];
    assert Scanlines(pixels, stride, rows) == before + [0] + row;
    if y < rows - 1 {
      ScanlinesLayout(pixels, stride, rows - 1, y, k);
    } else {
      assert y * (1 + stride) == |before|;
      assert y * stride + k == (rows - 1) * stride + k;
    }
  }

  lemma MulMono(a: nat, b: nat, c: nat)
    requires a <= b
    ensures a * c <= b * c
  {
  }

  /** The scanline loop of `encodePng`: per row the filter byte, then the four bytes of each pixel. */
  method RawRows(pixels: seq<byte>, width: nat, height: nat) returns (raw: seq<byte>)
    requires |pixels| == height * (4 * width)
    ensures raw == Scanlines(pixels, 4 * width, height)
  {
    raw := [];
    var y := 0;
    while y < height
      invariant 0 <= y <= height
      invariant raw == Scanlines(pixels, 4 * width, y)
    {
      MulSucc(y, 4 * width);
      MulMono(y + 1, height, 4 * width);
      raw := PushRow(raw, pixels, width, y);
      y := y + 1;
    }
  }

  /** One pass of the row loop: the filter byte 0, then row `y`'s pixels in order. */
  method PushRow(done: seq<byte>, pixels: seq<byte>, width: nat, y: nat) returns (raw: seq<byte>)
    requires (y + 1) * (4 * width) <= |pixels|
    ensures raw == done + [0] + pixels[y * (4 * width)..(y + 1) * (4 * width)]
  {
    MulSucc(y, 4 * width);
    ghost var rowStart := y * (4 * width);
    raw := done + [0];
    var x := 0;
    while x < width
      invariant 0 <= x <= width
      invariant raw == done + [0] + pixels[rowStart..rowStart + 4 * x]
    {
      var idx := (y * width + x) * 4;
      PixelOffset(y, width, x);
      assert idx == rowStart + 4 * x && idx + 4 <= |pixels|;
      raw := raw + [pixels[idx], pixels[idx + 1], pixels[idx + 2], pixels[idx + 3]];
      assert pixels[rowStart..rowStart + 4 * x] + pixels[idx..idx + 4] == pixels[rowStart..rowStart + 4 * (x + 1)];
      x := x + 1;
    }
  }

  lemma PixelOffset(y: nat, width: nat, x: nat)
    ensures (y * width + x) * 4 == y * (4 * width) + 4 * x
  {
  }

  /** Reads scanlines back into pixel rows, accepting only filter type 0. */
  function Unfilter(raw: seq<byte>, stride: nat, rows: nat): (r: Option<seq<byte>>)
    requires |raw| == rows * (1 + stride)
    ensures r.Some? ==> |r.value| == rows * stride
    decreases rows
  {
    if rows == 0 then Some([])
    else
      MulSucc(rows - 1, 1 + stride);
      MulSucc(rows - 1, stride);
      var k := (rows - 1) * (1 + stride);
      if raw[k] != 0 then None
      else
        match Unfilter(raw[..k], stride, rows - 1)
        case None => None
        case Some(p) => Some(p + raw[k + 1..])
  }

  /** Undoing the scanline layout gives back the pixels. */
  lemma {:induction false} UnfilterScanlines(pixels: seq<byte>, stride: nat, rows: nat)
    requires rows * stride == |pixels|
    ensures Unfilter(Scanlines(pixels, stride, rows), stride, rows) == Some(pixels)
    decreases rows
  {
    if rows > 0 {
      MulSucc(rows - 1, stride);
      MulSucc(rows - 1, 1 + stride);
      var last := pixels[(rows - 1) * stride..];
      var front := pixels[..(rows - 1) * stride];
      var raw := Scanlines(pixels, stride, rows);
      var k := (rows - 1) * (1 + stride);
      assert raw[..k] == Scanlines(pixels, stride, rows - 1);
      assert raw[k] == 0;
      assert raw[k + 1..] == last;
      ScanlinesOfPrefix(pixels, front, stride, rows - 1);
      UnfilterScanlines(front, stride, rows - 1);
      assert front + last == pixels;
    }
  }

  /** The first rows' scanlines depend only on those rows' pixels. */
  lemma {:induction false} ScanlinesOfPrefix(pixels: seq<byte>, front: seq<byte>, stride: nat, rows: nat)
    requires rows * stride <= |front| <= |pixels| && front == pixels[..|front|]
    ensures Scanlines(pixels, stride, rows) == Scanlines(front, stride, rows)
    decreases rows
  {
    if rows > 0 {
      MulSucc(rows - 1, stride);
      ScanlinesOfPrefix(pixels, front, stride, rows - 1);
      assert pixels[(rows - 1) * stride..rows * stride] == front[(rows - 1) * stride..rows * stride];
    }
  }

  // ---------------------------------------------------------------------
  // The file
  // ---------------------------------------------------------------------

  /**
   * `encodePng`: signature, IHDR, one IDAT holding the deflated scanlines, and an empty IEND.
   * `writeUInt32BE` throws for a width, height or IDAT length of 2^32 or more, which gives `None`.
   */
  function EncodePng(pixels: seq<byte>, width: nat, height: nat): (r: Option<seq<byte>>)
    requires |pixels| == height * (4 * width)
    ensures width >= TwoTo32 || height >= TwoTo32 ==> r.None?
    ensures r.Some? ==> |r.value| > |Signature| && r.value[..|Signature|] == Signature
  {
    if width >= TwoTo32 || height >= TwoTo32 then None
    else
      var idat := Deflate(Scanlines(pixels, 4 * width, height));
      if |idat| >= TwoTo32 then None
      else
        var file := Signature + Chunk(KindIhdr, Ihdr(width, height)) + Chunk(KindIdat, idat) + Chunk(KindIend, []);
        assert file[..|Signature|] == Signature;
        Some(file)
  }

  /** `encodePng` as the script runs it: the scanline loop, `deflateRaw`, then the chunks. */
  method WritePng(pixels: seq<byte>, width: nat, height: nat) returns (r: Option<seq<byte>>)
    requires |pixels| == height * (4 * width)
    ensures r == EncodePng(pixels, width, height)
  {
    if width >= TwoTo32 || height >= TwoTo32 {
      return None;
    }
    var raw := RawRows(pixels, width, height);
    var deflated := DeflateRaw(raw);
    if |deflated| >= TwoTo32 {
      return None;
    }
    var ihdr := MakeChunk(KindIhdr, Ihdr(width, height));
    var idat := MakeChunk(KindIdat, deflated);
    var iend := MakeChunk(KindIend, []);
    r := Some(Signature + ihdr + idat + iend);
  }

  /** A decoded image: its size and its RGBA bytes, row by row. */
  datatype Image = Image(width: nat, height: nat, pixels: seq<byte>)

  /**
   * Reads a file laid out as `encodePng` writes it: the signature, an IHDR for an 8-bit RGBA
   * image, one IDAT whose zlib stream holds filter-free scanlines, and an empty IEND ending
   * the file. Any other layout, a bad CRC-32 or a bad Adler-32 gives `None`.
   */
  function DecodePng(file: seq<byte>): Option<Image>
  {
    if |file| < 8 || file[..8] != Signature then None
    else DecodeChunks(file[8..])
  }

  /** An IHDR chunk for an 8-bit RGBA image without interlacing. */
  predicate IsRgbaHeader(c: Parsed)
  {
    c.kind == KindIhdr && |c.data| == 13 && c.data[8..] == IhdrTail
  }

  /** `s` is exactly one empty IEND chunk. */
  predicate IsLastChunk(s: seq<byte>)
  {
    ReadChunk(s) == Some(Parsed(KindIend, [], []))
  }

  /** Reads the chunks after the signature. */
  function DecodeChunks(s: seq<byte>): Option<Image>
  {
    match ReadChunk(s)
    case None => None
    case Some(ihdr) =>
      if !IsRgbaHeader(ihdr) then None
      else DecodeData(ReadBE32(ihdr.data[..4]), ReadBE32(ihdr.data[4..8]), ihdr.rest)
  }

  /** Reads the IDAT chunk and the IEND after it. */
  function DecodeData(width: nat, height: nat, s: seq<byte>): Option<Image>
  {
    match ReadChunk(s)
    case None => None
    case Some(idat) =>
      if idat.kind != KindIdat || !IsLastChunk(idat.rest) then None
      else DecodeImage(idat.data, width, height)
  }

  /** Inflates the IDAT data and undoes the scanline layout. */
  function DecodeImage(idat: seq<byte>, width: nat, height: nat): Option<Image>
  {
    match Inflate(idat)
    case None => None
    case Some(raw) =>
      if |raw| != height * (1 + 4 * width) then None
      else
        match Unfilter(raw, 4 * width, height)
        case None => None
        case Some(pixels) => Some(Image(width, height, pixels))
  }

  /** A reader finds the size in the IHDR and the image data in the IDAT that `encodePng` wrote. */
  lemma ReadFileLayout(width: nat, height: nat, idat: seq<byte>)
    requires width < TwoTo32 && height < TwoTo32 && |idat| < TwoTo32
    ensures DecodePng(Signature + Chunk(KindIhdr, Ihdr(width, height)) + Chunk(KindIdat, idat) + Chunk(KindIend, []))
      == DecodeImage(idat, width, height)
  {
    var ihdr := Ihdr(width, height);
    var c1, c2, c3 := Chunk(KindIhdr, ihdr), Chunk(KindIdat, idat), Chunk(KindIend, []);
    Regroup(Signature, c1, c2, c3);
    ReadSignature(c1 + (c2 + c3));
    ReadHeaderChunk(width, height, c2 + c3);
    ReadDataChunk(width, height, idat);
  }

  lemma Regroup(a: seq<byte>, b: seq<byte>, c: seq<byte>, d: seq<byte>)
    ensures a + b + c + d == a + (b + (c + d))
  {
  }

  lemma ReadSignature(rest: seq<byte>)
    ensures DecodePng(Signature + rest) == DecodeChunks(rest)
  {
    assert (Signature + rest)[..8] == Signature;
    assert (Signature + rest)[8..] == rest;
  }

  lemma ReadHeaderChunk(width: nat, height: nat, rest: seq<byte>)
    requires width < TwoTo32 && height < TwoTo32
    ensures DecodeChunks(Chunk(KindIhdr, Ihdr(width, height)) + rest) == DecodeData(width, height, rest)
  {
    var ihdr := Ihdr(width, height);
    ReadWrittenChunk(KindIhdr, ihdr, rest);
    assert ihdr[..4] == BE32(width) && ihdr[4..8] == BE32(height) && ihdr[8..] == IhdrTail;
  }

  lemma ReadDataChunk(width: nat, height: nat, idat: seq<byte>)
    requires |idat| < TwoTo32
    ensures DecodeData(width, height, Chunk(KindIdat, idat) + Chunk(KindIend, [])) == DecodeImage(idat, width, height)
  {
    ReadWrittenChunk(KindIdat, idat, Chunk(KindIend, []));
    EndChunkIsLast();
  }

  /** The empty IEND chunk `encodePng` ends with is read as the end of the file. */
  lemma EndChunkIsLast()
    ensures IsLastChunk(Chunk(KindIend, []))
  {
    ReadWrittenChunk(KindIend, [], []);
    assert Chunk(KindIend, []) + [] == Chunk(KindIend, []);
  }

  /** The IDAT data holds the image: inflating it and undoing the scanlines gives the pixels back. */
  lemma ReadImageData(pixels: seq<byte>, width: nat, height: nat)
    requires |pixels| == height * (4 * width) && height > 0
    ensures DecodeImage(Deflate(Scanlines(pixels, 4 * width, height)), width, height) == Some(Image(width, height, pixels))
  {
    var raw := Scanlines(pixels, 4 * width, height);
    MulMono(1, height, 1 + 4 * width);
    RoundTrip(raw);
    UnfilterScanlines(pixels, 4 * width, height);
  }

  /** Every image with at least one row that `encodePng` writes reads back unchanged. */
  lemma DecodeEncode(pixels: seq<byte>, width: nat, height: nat)
    requires |pixels| == height * (4 * width) && height > 0
    requires EncodePng(pixels, width, height).Some?
    ensures DecodePng(EncodePng(pixels, width, height).value) == Some(Image(width, height, pixels))
  {
    ReadFileLayout(width, height, Deflate(Scanlines(pixels, 4 * width, height)));
    ReadImageData(pixels, width, height);
  }
}
