/**
 * `createPngBuffer` of the icon script (scripts/generate-icons.mjs): a `size` by `size`
 * RGBA image holding a dark rounded square on a transparent background, with the letters
 * "GP" in indigo centred on it, encoded as a PNG file.
 */
module Icons {
  import opened Options
  import opened Bytes
  import opened Canvas
  import opened Shape
  import opened Lettering
  import opened Png
  import opened Zlib

  /** `Math.round(size * 0.18)`: the integer nearest to 18% of `size`, halves going up. */
  function Radius(size: nat): (r: nat)
    ensures 100 * r <= 18 * size + 50 < 100 * r + 100
  {
    (18 * size + 50) / 100
  }

  /** `Math.round(size * 0.06)`: the integer nearest to 6% of `size`, halves going up. */
  function Padding(size: nat): (r: nat)
    ensures 100 * r <= 6 * size + 50 < 100 * r + 100
    ensures 2 * r <= size
  {
    (6 * size + 50) / 100
  }

  /** The rounded values are within half a unit of the exact products. */
  lemma RoundingIsNearest(size: nat)
    ensures (Radius(size) as real) - 0.5 <= (size as real) * 0.18 < (Radius(size) as real) + 0.5
    ensures (Padding(size) as real) - 0.5 <= (size as real) * 0.06 < (Padding(size) as real) + 0.5
  {
    var r, p := Radius(size) as real, Padding(size) as real;
    assert 100.0 * r <= 18.0 * (size as real) + 50.0 < 100.0 * r + 100.0;
    assert 100.0 * p <= 6.0 * (size as real) + 50.0 < 100.0 * p + 100.0;
  }

  /**
   * Which corner test draws the square: `AsWritten` is `isInRoundedRect` as the script has it,
   * which cuts the corner bands away; `Corrected` tests each pixel against its own corner.
   */
  datatype CornerTest = AsWritten | Corrected

  /** The pixel lies in the square inset by the padding on every side. */
  predicate OnSquare(size: nat, x: int, y: int)
  {
    var pad := Padding(size);
    InBox(x, y, pad, pad, size - pad * 2, size - pad * 2)
  }

  /** The pixel lies in one of the square's four radius-wide corner squares. */
  predicate InCorners(size: nat, x: int, y: int)
  {
    var pad := Padding(size);
    InCornerBand(x, y, pad, pad, size - pad * 2, size - pad * 2, Radius(size))
  }

  /** The dark square is drawn inside the image, inset by the padding, its corners shaped by `test`. */
  predicate InShape(test: CornerTest, size: nat, x: int, y: int)
  {
    var pad := Padding(size);
    match test
    case AsWritten => InRoundedRectAsWritten(x, y, pad, pad, size - pad * 2, size - pad * 2, Radius(size))
    case Corrected => InRoundedRect(x, y, pad, pad, size - pad * 2, size - pad * 2, Radius(size))
  }

  /**
   * Whichever test shapes the corners, the painted area lies on the padded square and
   * covers all of it away from the corner squares.
   */
  lemma ShapeWithinSquare(test: CornerTest, size: nat, x: int, y: int)
    ensures InShape(test, size, x, y) ==> OnSquare(size, x, y)
    ensures !InCorners(size, x, y) ==> (InShape(test, size, x, y) <==> OnSquare(size, x, y))
  {
  }

  /** `bg`, opaque. */
  const Dark: seq<byte> := [10, 10, 10, 255]

  /** `accent`. */
  const Accent: seq<byte> := [99, 102, 241]

  /** A fresh `Uint8Array` pixel: all four bytes zero. */
  const Blank: seq<byte> := [0, 0, 0, 0]

  /** The pixel the background loop leaves at (x, y) in a fresh buffer. */
  function BackgroundPixel(test: CornerTest, size: nat, x: int, y: int): (p: seq<byte>)
    ensures |p| == 4 && p[3] == (if InShape(test, size, x, y) then 255 else 0)
  {
    if InShape(test, size, x, y) then Dark else Blank
  }

  /** The finished pixel at (x, y): the text's colour where its ink falls, the background elsewhere. */
  function IconPixel(font: map<char, Glyph>, test: CornerTest, size: nat, x: int, y: int): (p: seq<byte>)
    requires WellFormedFont(font)
    ensures |p| == 4
  {
    match GlyphsOf(font, "GP")
    case None => BackgroundPixel(test, size, x, y)
    case Some(gs) =>
      if TextCovers(gs, LayoutOf(gs, size, size), x, y) then Accent + [255] else BackgroundPixel(test, size, x, y)
  }

  /** The whole image, byte by byte, as `createPngBuffer` hands it to `encodePng`. */
  function Icon(font: map<char, Glyph>, test: CornerTest, size: nat): (s: seq<byte>)
    requires WellFormedFont(font)
    ensures |s| == BufferSize(size) == size * (4 * size)
    ensures forall x, y :: 0 <= x < size && 0 <= y < size ==> Pixel(s, size, x, y) == IconPixel(font, test, size, x, y)
  {
    assert size * size * 4 == size * (4 * size);
    Render(size, (x: nat, y: nat) requires WellFormedFont(font) => IconPixel(font, test, size, x, y))
  }

  /** "GP" has both glyphs, eight and seven columns wide: sixteen columns with the gap. */
  lemma GpGlyphs()
    ensures GlyphsOf(Font, "GP") == Some([Font['G'], Font['P']])
    ensures AllWellFormed([Font['G'], Font['P']])
    ensures TotalWidth([Font['G'], Font['P']]) == 16 && |Font['G']| == GlyphHeight
  {
    FontWellFormed();
    var text := "GP";
    assert text[0] == 'G' && text[1] == 'P';
    var gs := [Font['G'], Font['P']];
    var found := GlyphsOf(Font, text).value;
    assert found[0] == gs[0] && found[1] == gs[1];
    assert found == gs;
    assert |Font['G'][0]| == 8 && |Font['P'][0]| == 7;
    assert gs[1..] == [Font['P']] && gs[1..][1..] == [];
    assert Advance(gs[1..][1..]) == 0;
    assert Advance(gs[1..]) == 8;
  }

  /** The 192-pixel icon: scale 6, so the 96 by 48 text block starts at (48, 72). */
  lemma Layout192()
    ensures AllWellFormed([Font['G'], Font['P']])
    ensures LayoutOf([Font['G'], Font['P']], 192, 192) == Layout(6, 48, 72)
  {
    GpGlyphs();
  }

  /** The 512-pixel icon: scale 17, so the 272 by 136 text block starts at (120, 188). */
  lemma Layout512()
    ensures AllWellFormed([Font['G'], Font['P']])
    ensures LayoutOf([Font['G'], Font['P']], 512, 512) == Layout(17, 120, 188)
  {
    GpGlyphs();
  }

  /**
   * Whatever the size, every pixel of the lettering lies on the dark square and outside its
   * corner squares, so either corner test paints it: the text is at most 55% of the icon
   * wide and about half that high.
   */
  lemma TextOnShape(size: nat, x: int, y: int)
    ensures GlyphsOf(Font, "GP").Some? && AllWellFormed(GlyphsOf(Font, "GP").value)
    ensures var gs := GlyphsOf(Font, "GP").value;
      TextCovers(gs, LayoutOf(gs, size, size), x, y) ==>
        && OnSquare(size, x, y) && !InCorners(size, x, y)
        && InShape(AsWritten, size, x, y) && InShape(Corrected, size, x, y)
  {
    TextInMiddleBand(size, x, y);
    var gs := GlyphsOf(Font, "GP").value;
    if TextCovers(gs, LayoutOf(gs, size, size), x, y) {
      var pad, w := Padding(size), size - Padding(size) * 2;
      VersionsAgreeOutsideCorners(x, y, pad, pad, w, w, Radius(size));
    }
  }

  /**
   * The lettering lies between the padding on the left and right, and between the corner
   * squares above and below.
   */
  lemma TextInMiddleBand(size: nat, x: int, y: int)
    ensures GlyphsOf(Font, "GP").Some? && AllWellFormed(GlyphsOf(Font, "GP").value)
    ensures var gs := GlyphsOf(Font, "GP").value;
      TextCovers(gs, LayoutOf(gs, size, size), x, y) ==>
        && Padding(size) <= x < size - Padding(size)
        && Padding(size) + Radius(size) <= y < size - Padding(size) - Radius(size)
  {
    GpGlyphs();
    var gs := GlyphsOf(Font, "GP").value;
    var l := LayoutOf(gs, size, size);
    if TextCovers(gs, l, x, y) {
      TextWithinBlock(gs, l, x, y);
      assert l.scale * 1600 <= 55 * size;
      MiddleBandBounds(size, l.scale, l.startX, l.startY, x, y);
    }
  }

  /** The arithmetic behind `TextInMiddleBand`: a block at most 55% of the icon wide, centred. */
  lemma MiddleBandBounds(size: nat, scale: nat, startX: int, startY: int, x: int, y: int)
    requires scale >= 1 && scale * 1600 <= 55 * size
    requires startX == (size - 16 * scale) / 2 && startY == (size - GlyphHeight * scale) / 2
    requires startX <= x < startX + 16 * scale && startY <= y < startY + GlyphHeight * scale
    ensures Padding(size) <= x < size - Padding(size)
    ensures Padding(size) + Radius(size) <= y < size - Padding(size) - Radius(size)
  {
    var pad, r := Padding(size), Radius(size);
    assert size >= 30;
    assert 2 * startX >= size - 16 * scale - 1 && 2 * startX <= size - 16 * scale;
    assert 2 * startY >= size - 8 * scale - 1 && 2 * startY <= size - 8 * scale;
  }

  /** The icon is opaque exactly on the square its corner test shapes, and transparent black elsewhere. */
  lemma IconAlpha(test: CornerTest, size: nat, x: int, y: int)
    ensures WellFormedFont(Font)
    ensures IconPixel(Font, test, size, x, y)[3] == (if InShape(test, size, x, y) then 255 else 0)
    ensures !InShape(test, size, x, y) ==> IconPixel(Font, test, size, x, y) == Blank
  {
    FontWellFormed();
    TextOnShape(size, x, y);
  }

  /** Away from the corner squares the script's icon and the corrected icon are the same. */
  lemma IconsAgreeOutsideCorners(size: nat, x: int, y: int)
    requires !InCorners(size, x, y)
    ensures WellFormedFont(Font)
    ensures IconPixel(Font, AsWritten, size, x, y) == IconPixel(Font, Corrected, size, x, y)
  {
    FontWellFormed();
  }

  /**
   * From 8 pixels up, the square is wider than three radii, so the script's corner test
   * rejects every pixel of the four corner squares: the icon it writes is transparent
   * there, with square notches where rounded corners were meant.
   */
  lemma AsWrittenIconIsNotched(size: nat, x: int, y: int)
    requires size >= 8 && InCorners(size, x, y)
    ensures WellFormedFont(Font)
    ensures !InShape(AsWritten, size, x, y)
    ensures IconPixel(Font, AsWritten, size, x, y) == Blank
  {
    var pad, r := Padding(size), Radius(size);
    assert size - pad * 2 > 3 * r;
    AsWrittenCutsCornerBands(x, y, pad, pad, size - pad * 2, size - pad * 2, r);
    IconAlpha(AsWritten, size, x, y);
  }

  /**
   * The 192-pixel icon at (46, 46), just inside the top-left corner centre (47, 47): the
   * script leaves it transparent, the corrected test paints it dark.
   */
  lemma CornerPixel192()
    ensures WellFormedFont(Font)
    ensures IconPixel(Font, AsWritten, 192, 46, 46) == Blank
    ensures IconPixel(Font, Corrected, 192, 46, 46) == Dark
  {
    assert Padding(192) == 12 && Radius(192) == 35;
    AsWrittenIconIsNotched(192, 46, 46);
    AsWrittenRejectsCornerPixel();
    TextOnShape(192, 46, 46);
  }

  /**
   * Every icon up to 16384 pixels a side fits the PNG limits, and reading the file back
   * gives the icon's pixels.
   */
  lemma IconRoundTrip(test: CornerTest, size: nat)
    requires 0 < size <= 16384
    ensures WellFormedFont(Font)
    ensures EncodePng(Icon(Font, test, size), size, size).Some?
    ensures DecodePng(EncodePng(Icon(Font, test, size), size, size).value) == Some(Image(size, size, Icon(Font, test, size)))
  {
    FontWellFormed();
    var pixels := Icon(Font, test, size);
    var raw := Scanlines(pixels, 4 * size, size);
    DeflateLength(raw);
    MulLe(size, 16384, 1 + 4 * size);
    MulLe(1 + 4 * size, 65537, 16384);
    assert |raw| <= 16384 * 65537;
    assert BlockCount(|raw|) <= |raw|;
    DecodeEncode(pixels, size, size);
  }

  // ---------------------------------------------------------------------
  // Drawing
  // ---------------------------------------------------------------------

  /** What the background loop makes of pixel (x, y) that held `under`: `bg` inside the shape, alpha 0 outside. */
  function Painted(inside: bool, under: seq<byte>): (p: seq<byte>)
    requires |under| == 4
    ensures |p| == 4 && p[3] == (if inside then 255 else 0)
    ensures !inside ==> p[..3] == under[..3]
  {
    if inside then Dark else under[..3] + [0]
  }

  /** The `isInRoundedRect` call of the background loop, with the padding and radius it is given. */
  method IsInShape(test: CornerTest, size: nat, x: nat, y: nat, padding: nat, radius: nat) returns (inside: bool)
    requires padding == Padding(size) && radius == Radius(size)
    ensures inside == InShape(test, size, x, y)
  {
    if test == AsWritten {
      inside := IsInRoundedRectAsWritten(x, y, padding, padding, size - padding * 2, size - padding * 2, radius);
    } else {
      inside := IsInRoundedRect(x, y, padding, padding, size - padding * 2, size - padding * 2, radius);
    }
  }

  /**
   * One step of the `x` loop: `bg` when the corner test accepts the pixel, otherwise alpha 0.
   * With `AsWritten` the test is the script's `isInRoundedRect`.
   */
  method PaintPixel(a: array<byte>, test: CornerTest, size: nat, x: nat, y: nat, padding: nat, radius: nat)
    requires a.Length == BufferSize(size) && x < size && y < size
    requires padding == Padding(size) && radius == Radius(size)
    modifies a
    ensures Pixel(a[..], size, x, y) == Painted(InShape(test, size, x, y), Pixel(old(a[..]), size, x, y))
    ensures forall qx, qy :: 0 <= qx < size && 0 <= qy < size && (qx, qy) != (x, y) ==>
      Pixel(a[..], size, qx, qy) == Pixel(old(a[..]), size, qx, qy)
  {
    var inRoundedRect := IsInShape(test, size, x, y, padding, radius);
    if inRoundedRect {
      PutPixel(a, size, x, y, Dark);
    } else {
      PutAlpha(a, size, x, y, 0);
    }
  }

  /** The `x` loop of the background: row `y` gets `bg` inside the shape and alpha 0 outside. */
  method FillRow(a: array<byte>, test: CornerTest, size: nat, y: nat, padding: nat, radius: nat)
    requires a.Length == BufferSize(size) && y < size
    requires padding == Padding(size) && radius == Radius(size)
    modifies a
    ensures forall qx :: 0 <= qx < size ==>
      Pixel(a[..], size, qx, y) == Painted(InShape(test, size, qx, y), Pixel(old(a[..]), size, qx, y))
    ensures forall qx, qy :: 0 <= qx < size && 0 <= qy < size && qy != y ==>
      Pixel(a[..], size, qx, qy) == Pixel(old(a[..]), size, qx, qy)
  {
    ghost var before := a[..];
    var x := 0;
    while x < size
      invariant 0 <= x <= size
      invariant forall qx :: 0 <= qx < x ==>
        Pixel(a[..], size, qx, y) == Painted(InShape(test, size, qx, y), Pixel(before, size, qx, y))
      invariant forall qx, qy :: 0 <= qx < size && 0 <= qy < size && (qy != y || qx >= x) ==>
        Pixel(a[..], size, qx, qy) == Pixel(before, size, qx, qy)
    {
      ghost var prev := a[..];
      PaintPixel(a, test, size, x, y, padding, radius);
      PaintedRowStep((qx: nat) => InShape(test, size, qx, y), before, prev, a[..], size, x, y);
      x := x + 1;
    }
  }

  /**
   * One more pixel of row `y` painted: the painted prefix of the row grows by one. `inside`
   * is the shape test along the row.
   */
  lemma PaintedRowStep(inside: nat -> bool, before: seq<byte>, prev: seq<byte>, cur: seq<byte>, size: nat, x: nat, y: nat)
    requires |before| == |prev| == |cur| == BufferSize(size) && x < size && y < size
    requires forall qx :: 0 <= qx < x ==>
      Pixel(prev, size, qx, y) == Painted(inside(qx), Pixel(before, size, qx, y))
    requires Pixel(prev, size, x, y) == Pixel(before, size, x, y)
    requires Pixel(cur, size, x, y) == Painted(inside(x), Pixel(prev, size, x, y))
    requires forall qx, qy :: 0 <= qx < size && 0 <= qy < size && (qx, qy) != (x, y) ==>
      Pixel(cur, size, qx, qy) == Pixel(prev, size, qx, qy)
    ensures forall qx :: 0 <= qx < x + 1 ==>
      Pixel(cur, size, qx, y) == Painted(inside(qx), Pixel(before, size, qx, y))
  {
    forall qx | 0 <= qx < x + 1
      ensures Pixel(cur, size, qx, y) == Painted(inside(qx), Pixel(before, size, qx, y))
    {
      if qx < x {
        assert Pixel(cur, size, qx, y) == Pixel(prev, size, qx, y);
      }
    }
  }

  /** The `y` loop of the background. */
  method FillBackground(a: array<byte>, test: CornerTest, size: nat)
    requires a.Length == BufferSize(size)
    modifies a
    ensures forall x, y :: 0 <= x < size && 0 <= y < size ==>
      Pixel(a[..], size, x, y) == Painted(InShape(test, size, x, y), Pixel(old(a[..]), size, x, y))
  {
    ghost var before := a[..];
    var radius := (18 * size + 50) / 100;
    var padding := (6 * size + 50) / 100;
    var y := 0;
    while y < size
      invariant 0 <= y <= size
      invariant forall qx, qy :: 0 <= qx < size && 0 <= qy < size ==>
        Pixel(a[..], size, qx, qy)
          == if qy >= y then Pixel(before, size, qx, qy) else Painted(InShape(test, size, qx, qy), Pixel(before, size, qx, qy))
    {
      FillRow(a, test, size, y, padding, radius);
      y := y + 1;
    }
  }

  /** The three stages of `createPngBuffer` end on the icon's pixels. */
  lemma DrawnIsIcon(test: CornerTest, zeroed: seq<byte>, filled: seq<byte>, drawn: seq<byte>, size: nat)
    requires |zeroed| == |filled| == |drawn| == BufferSize(size)
    requires forall i :: 0 <= i < |zeroed| ==> zeroed[i] == 0
    requires forall x, y :: 0 <= x < size && 0 <= y < size ==>
      Pixel(filled, size, x, y) == Painted(InShape(test, size, x, y), Pixel(zeroed, size, x, y))
    requires GlyphsOf(Font, "GP").Some? && AllWellFormed(GlyphsOf(Font, "GP").value)
    requires var gs := GlyphsOf(Font, "GP").value;
      forall x, y :: 0 <= x < size && 0 <= y < size ==>
        Pixel(drawn, size, x, y)
          == if TextCovers(gs, LayoutOf(gs, size, size), x, y) then Accent + [255] else Pixel(filled, size, x, y)
    ensures WellFormedFont(Font)
    ensures forall x, y :: 0 <= x < size && 0 <= y < size ==> Pixel(drawn, size, x, y) == IconPixel(Font, test, size, x, y)
  {
    FontWellFormed();
    forall x, y | 0 <= x < size && 0 <= y < size
      ensures Pixel(drawn, size, x, y) == IconPixel(Font, test, size, x, y)
    {
      OffsetInBuffer(size, x, y);
      var o := Offset(size, x, y);
      assert Pixel(zeroed, size, x, y) == [zeroed[o], zeroed[o + 1], zeroed[o + 2], zeroed[o + 3]];
      assert Pixel(filled, size, x, y) == BackgroundPixel(test, size, x, y);
    }
  }

  /**
   * `createPngBuffer(size)`: a fresh zeroed buffer, the background loop, "GP" drawn in the
   * accent colour, then `encodePng` of the buffer. `CreatePngBuffer(size, AsWritten)` is the
   * script's function; `Corrected` gives the icon with rounded corners.
   */
  method CreatePngBuffer(size: nat, test: CornerTest) returns (r: Option<seq<byte>>)
    ensures WellFormedFont(Font) && r == EncodePng(Icon(Font, test, size), size, size)
  {
    FontWellFormed();
    var pixels := new byte[size * size * 4](_ => 0);
    ghost var zeroed := pixels[..];
    FillBackground(pixels, test, size);
    ghost var filled := pixels[..];
    DrawText(pixels, size, "GP", Accent, size, Font);
    DrawnIsIcon(test, zeroed, filled, pixels[..], size);
    PixelsDetermineBuffer(pixels[..], Icon(Font, test, size), size);
    assert size * size * 4 == size * (4 * size);
    r := WritePng(pixels[..], size, size);
  }
}
