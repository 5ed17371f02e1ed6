/**
 * `drawText` of the icon script (scripts/generate-icons.mjs): a bitmap font whose glyphs
 * are rows of characters, a space meaning "no ink", scaled up by a whole factor, centred in
 * the image, and painted into the RGBA buffer; pixels outside the image are skipped.
 */
module Lettering {
  import opened Options
  import opened Bytes
  import opened Canvas

  /** A glyph: its rows from top to bottom; a character other than ' ' is ink. */
  type Glyph = seq<string>

  /** The script's font has eight rows per glyph. */
  const GlyphHeight: nat := 8

  /** `FONT`: the two glyphs the icons need, "G" eight columns wide and "P" seven. */
  const Font: map<char, Glyph> := map[
    'G' := [
      "  ##### ",
      " #     #",
      "#       ",
      "#       ",
      "#  #### ",
      "#     # ",
      " #    # ",
      "  ##### "],
    'P' := [
      "###### ",
      "#     #",
      "#     #",
      "###### ",
      "#      ",
      "#      ",
      "#      ",
      "#      "]
  ]

  /** A rectangular glyph of `GlyphHeight` rows, all as wide as the first and at least one column wide. */
  predicate WellFormedGlyph(g: Glyph)
  {
    |g| == GlyphHeight && |g[0]| > 0 && forall row :: 0 <= row < |g| ==> |g[row]| == |g[0]|
  }

  predicate WellFormedFont(font: map<char, Glyph>)
  {
    forall c :: c in font ==> WellFormedGlyph(font[c])
  }

  lemma FontWellFormed()
    ensures WellFormedFont(Font)
  {
  }

  /** `text.split("").map((c) => FONT[c])`, or `None` when a character has no glyph. */
  function GlyphsOf(font: map<char, Glyph>, text: string): (r: Option<seq<Glyph>>)
    ensures r.None? <==> exists i :: 0 <= i < |text| && text[i] !in font
    ensures r.Some? ==> |r.value| == |text| && forall i :: 0 <= i < |text| ==> r.value[i] == font[text[i]]
  {
    if forall i :: 0 <= i < |text| ==> text[i] in font then Some(seq(|text|, i requires 0 <= i < |text| => font[text[i]]))
    else None
  }

  // ---------------------------------------------------------------------
  // Layout
  // ---------------------------------------------------------------------

  /** `c[0].length`. */
  function Width(g: Glyph): nat
    requires |g| > 0
  {
    |g[0]|
  }

  predicate AllWellFormed(gs: seq<Glyph>)
  {
    forall i :: 0 <= i < |gs| ==> WellFormedGlyph(gs[i])
  }

  /** How far `offsetX` moves past the glyphs `gs`: each glyph's width plus one blank column. */
  function Advance(gs: seq<Glyph>): nat
    requires AllWellFormed(gs)
  {
    if |gs| == 0 then 0 else Width(gs[0]) + 1 + Advance(gs[1..])
  }

  lemma {:induction false} AdvanceAppend(gs: seq<Glyph>, g: Glyph)
    requires AllWellFormed(gs) && WellFormedGlyph(g)
    ensures AllWellFormed(gs + [g])
    ensures Advance(gs + [g]) == Advance(gs) + Width(g) + 1
  {
    if |gs| > 0 {
      assert (gs + [g])[1..] == gs[1..] + [g];
      AdvanceAppend(gs[1..], g);
    } else {
      assert [g][1..] == [];
    }
  }

  /** `totalW`: the glyph widths plus one blank column between neighbours. */
  function TotalWidth(gs: seq<Glyph>): (r: nat)
    requires AllWellFormed(gs) && |gs| > 0
    ensures r > 0
  {
    Advance(gs) - 1
  }

  /** Where the text goes: the scale factor and the top-left corner of the text block. */
  datatype Layout = Layout(scale: nat, startX: int, startY: int)

  /**
   * `scale = Math.floor(size * 0.55 / totalW)`, then the block of `totalW * scale` by
   * `charH * scale` pixels centred with `Math.floor((imgSize - extent) / 2)`.
   */
  function LayoutOf(gs: seq<Glyph>, size: nat, imgSize: nat): (l: Layout)
    requires AllWellFormed(gs) && |gs| > 0
    ensures l.scale * (100 * TotalWidth(gs)) <= 55 * size < (l.scale + 1) * (100 * TotalWidth(gs))
  {
    var totalW := TotalWidth(gs);
    var scale := (55 * size) / (100 * totalW);
    QuotientBounds(55 * size, 100 * totalW);
    Layout(scale, (imgSize - totalW * scale) / 2, (imgSize - |gs[0]| * scale) / 2)
  }

  lemma QuotientBounds(n: nat, d: nat)
    requires d > 0
    ensures (n / d) * d <= n < (n / d + 1) * d
  {
    assert n == (n / d) * d + n % d;
    assert (n / d + 1) * d == (n / d) * d + d;
  }

  /** The text block is centred: the margins on either side differ by at most one pixel. */
  lemma TextCentred(gs: seq<Glyph>, size: nat, imgSize: nat)
    requires AllWellFormed(gs) && |gs| > 0
    ensures var l := LayoutOf(gs, size, imgSize);
      var right := imgSize - (l.startX + TotalWidth(gs) * l.scale);
      var bottom := imgSize - (l.startY + |gs[0]| * l.scale);
      0 <= right - l.startX <= 1 && 0 <= bottom - l.startY <= 1
  {
  }

  /** The text is at most 55% of `size` wide, so when `size` is the image size it is wholly inside the image. */
  lemma TextFitsImage(gs: seq<Glyph>, size: nat)
    requires AllWellFormed(gs) && |gs| > 0
    ensures var l := LayoutOf(gs, size, size);
      l.scale * (100 * TotalWidth(gs)) <= 55 * size
      && 0 <= l.startX && l.startX + TotalWidth(gs) * l.scale <= size
  {
    var l := LayoutOf(gs, size, size);
    assert l.scale * (100 * TotalWidth(gs)) == 100 * (TotalWidth(gs) * l.scale);
  }

  // ---------------------------------------------------------------------
  // Which pixels get ink
  // ---------------------------------------------------------------------

  /** Cell (col, row) of glyph `g` is ink. */
  predicate GlyphInk(g: Glyph, col: int, row: int)
  {
    0 <= row < |g| && 0 <= col < |g[row]| && g[row][col] != ' '
  }

  /** Cell (cx, row) of the text, counting columns across all glyphs and the blank columns between them. */
  predicate InkAt(gs: seq<Glyph>, cx: int, row: int)
    requires AllWellFormed(gs)
  {
    if |gs| == 0 || cx < 0 then false
    else if cx < Width(gs[0]) then GlyphInk(gs[0], cx, row)
    else InkAt(gs[1..], cx - Width(gs[0]) - 1, row)
  }

  /** A glyph appended to the text owns the columns after everything before it. */
  lemma {:induction false} InkAtAppend(gs: seq<Glyph>, g: Glyph, cx: int, row: int)
    requires AllWellFormed(gs) && WellFormedGlyph(g)
    ensures AllWellFormed(gs + [g])
    ensures InkAt(gs + [g], cx, row) <==> InkAt(gs, cx, row) || GlyphInk(g, cx - Advance(gs), row)
    decreases |gs|
  {
    AdvanceAppend(gs, g);
    if |gs| == 0 {
      assert [g][1..] == [];
    } else if cx >= 0 {
      assert (gs + [g])[1..] == gs[1..] + [g];
      InkAtAppend(gs[1..], g, cx - Width(gs[0]) - 1, row);
    }
  }

  /** The cell of pixel (x, y) in a grid of `scale`-pixel squares whose corner is (x0, y0) is ink. */
  predicate GlyphCovers(g: Glyph, x0: int, y0: int, scale: nat, x: int, y: int)
  {
    scale > 0 && x >= x0 && y >= y0 && GlyphInk(g, (x - x0) / scale, (y - y0) / scale)
  }

  /** Pixel (x, y) gets ink: its cell of the scaled text is ink. */
  predicate TextCovers(gs: seq<Glyph>, l: Layout, x: int, y: int)
    requires AllWellFormed(gs)
  {
    l.scale > 0 && x >= l.startX && y >= l.startY && InkAt(gs, (x - l.startX) / l.scale, (y - l.startY) / l.scale)
  }

  /** Ink lies within the text's columns and the glyphs' rows. */
  lemma {:induction false} InkWithinText(gs: seq<Glyph>, cx: int, row: int)
    requires AllWellFormed(gs) && InkAt(gs, cx, row)
    ensures |gs| > 0 && 0 <= cx < TotalWidth(gs) && 0 <= row < GlyphHeight
    decreases |gs|
  {
    if Width(gs[0]) <= cx {
      var rest := gs[1..];
      assert AllWellFormed(rest) by {
        assert forall i :: 0 <= i < |rest| ==> rest[i] == gs[i + 1];
      }
      InkWithinText(rest, cx - Width(gs[0]) - 1, row);
    }
  }

  /** A pixel the text covers lies in the `TotalWidth * scale` by `GlyphHeight * scale` block at the start corner. */
  lemma TextWithinBlock(gs: seq<Glyph>, l: Layout, x: int, y: int)
    requires AllWellFormed(gs) && TextCovers(gs, l, x, y)
    ensures |gs| > 0 && l.scale > 0
    ensures l.startX <= x < l.startX + TotalWidth(gs) * l.scale
    ensures l.startY <= y < l.startY + GlyphHeight * l.scale
  {
    InkWithinText(gs, (x - l.startX) / l.scale, (y - l.startY) / l.scale);
    ShiftCell(x - l.startX, TotalWidth(gs), l.scale);
    ShiftCell(y - l.startY, GlyphHeight, l.scale);
  }

  /** A pixel lies in the `scale`-wide square at (x0, y0) exactly when its cell index is that square's. */
  lemma CellOfPixel(d: int, k: int, scale: nat)
    requires scale > 0 && k >= 0
    ensures k * scale <= d < k * scale + scale <==> d >= 0 && d / scale == k
  {
    if k * scale <= d < k * scale + scale {
      MulLe(0, k, scale);
      DivUnique(d, scale, k);
    }
    if d >= 0 && d / scale == k {
      assert d == k * scale + d % scale;
    }
  }

  /** Shifting a pixel by `k` whole squares shifts its cell index by `k`. */
  lemma ShiftCell(d: int, k: nat, scale: nat)
    requires scale > 0 && d >= 0
    ensures d >= k * scale <==> d / scale >= k
    ensures d >= k * scale ==> (d - k * scale) / scale == d / scale - k
  {
    var q, m := d / scale, d % scale;
    assert d == q * scale + m;
    if q < k {
      assert (q + 1) * scale == q * scale + scale;
      MulLe(q + 1, k, scale);
    } else {
      MulLe(k, q, scale);
      assert d - k * scale == (q - k) * scale + m by {
        assert (q - k) * scale == q * scale - k * scale;
      }
      DivUnique(d - k * scale, scale, q - k);
    }
  }

  /** The ink of the first `ci + 1` glyphs is that of the first `ci`, plus glyph `ci` drawn at column `Advance(gs[..ci])`. */
  lemma TextCoversNext(gs: seq<Glyph>, l: Layout, ci: nat, x: int, y: int)
    requires AllWellFormed(gs) && ci < |gs|
    ensures AllWellFormed(gs[..ci]) && AllWellFormed(gs[..ci + 1])
    ensures TextCovers(gs[..ci + 1], l, x, y) <==>
      TextCovers(gs[..ci], l, x, y) || GlyphCovers(gs[ci], l.startX + Advance(gs[..ci]) * l.scale, l.startY, l.scale, x, y)
  {
    assert gs[..ci + 1] == gs[..ci] + [gs[ci]];
    var adv := Advance(gs[..ci]);
    if l.scale > 0 && x >= l.startX && y >= l.startY {
      var cx := (x - l.startX) / l.scale;
      InkAtAppend(gs[..ci], gs[ci], cx, (y - l.startY) / l.scale);
      ShiftCell(x - l.startX, adv, l.scale);
      assert x - (l.startX + adv * l.scale) == x - l.startX - adv * l.scale;
    } else if l.scale > 0 && y >= l.startY {
      assert x < l.startX + adv * l.scale;
    }
  }

  /** Drawing glyph `ci` over the first `ci` glyphs gives the first `ci + 1`. */
  lemma TextDrawnNext(s: seq<byte>, mid: seq<byte>, before: seq<byte>, n: nat, gs: seq<Glyph>, l: Layout, ci: nat, rgba: seq<byte>)
    requires |s| == BufferSize(n) && |mid| == BufferSize(n) && |before| == BufferSize(n)
    requires AllWellFormed(gs) && ci < |gs|
    requires AllWellFormed(gs[..ci])
    requires forall x, y :: 0 <= x < n && 0 <= y < n ==>
      Pixel(mid, n, x, y) == if TextCovers(gs[..ci], l, x, y) then rgba else Pixel(before, n, x, y)
    requires forall x, y :: 0 <= x < n && 0 <= y < n ==>
      Pixel(s, n, x, y) == if GlyphCovers(gs[ci], l.startX + Advance(gs[..ci]) * l.scale, l.startY, l.scale, x, y) then rgba else Pixel(mid, n, x, y)
    ensures AllWellFormed(gs[..ci + 1])
    ensures forall x, y :: 0 <= x < n && 0 <= y < n ==>
      Pixel(s, n, x, y) == if TextCovers(gs[..ci + 1], l, x, y) then rgba else Pixel(before, n, x, y)
  {
    TextCoversNext(gs, l, ci, 0, 0);
    forall x, y | 0 <= x < n && 0 <= y < n
      ensures Pixel(s, n, x, y) == if TextCovers(gs[..ci + 1], l, x, y) then rgba else Pixel(before, n, x, y)
    {
      TextCoversNext(gs, l, ci, x, y);
    }
  }

  // ---------------------------------------------------------------------
  // Painting
  // ---------------------------------------------------------------------

  /** Pixel (x, y) lies in the `scale` by `scale` square whose top-left pixel is (x0, y0). */
  predicate InSquare(x0: int, y0: int, scale: nat, x: int, y: int)
  {
    x0 <= x < x0 + scale && y0 <= y < y0 + scale
  }

  /** The `sx` loop: row `py` of one square, from `x0` on, skipping pixels outside the image. */
  method PaintSpan(a: array<byte>, n: nat, x0: int, py: int, scale: nat, rgba: seq<byte>)
    requires a.Length == BufferSize(n) && |rgba| == 4
    modifies a
    ensures forall x, y :: 0 <= x < n && 0 <= y < n ==>
      Pixel(a[..], n, x, y) == if y == py && x0 <= x < x0 + scale then rgba else Pixel(old(a[..]), n, x, y)
  {
    ghost var before := a[..];
    var sx := 0;
    while sx < scale
      invariant 0 <= sx <= scale
      invariant forall x, y :: 0 <= x < n && 0 <= y < n ==>
        Pixel(a[..], n, x, y) == if y == py && x0 <= x < x0 + sx then rgba else Pixel(before, n, x, y)
    {
      var px := x0 + sx;
      if px >= 0 && px < n && py >= 0 && py < n {
        PutPixel(a, n, px, py, rgba);
      }
      sx := sx + 1;
    }
  }

  /** The `sy` and `sx` loops: the square of one ink cell, clipped to the image. */
  method PaintCell(a: array<byte>, n: nat, x0: int, y0: int, scale: nat, rgba: seq<byte>)
    requires a.Length == BufferSize(n) && |rgba| == 4
    modifies a
    ensures forall x, y :: 0 <= x < n && 0 <= y < n ==>
      Pixel(a[..], n, x, y) == if InSquare(x0, y0, scale, x, y) then rgba else Pixel(old(a[..]), n, x, y)
  {
    ghost var before := a[..];
    var sy := 0;
    while sy < scale
      invariant 0 <= sy <= scale
      invariant forall x, y :: 0 <= x < n && 0 <= y < n ==>
        Pixel(a[..], n, x, y) == if x0 <= x < x0 + scale && y0 <= y < y0 + sy then rgba else Pixel(before, n, x, y)
    {
      PaintSpan(a, n, x0, y0 + sy, scale, rgba);
      sy := sy + 1;
    }
  }

  /** Cell (col, row) comes before cell (c, r) in the order the row and column loops visit them. */
  predicate Visited(row: int, col: int, r: int, c: int)
  {
    row < r || (row == r && col < c)
  }

  /** The pixel's cell in glyph `g` drawn at (x0, y0) is ink and already visited at loop position (r, c). */
  predicate CoveredSoFar(g: Glyph, x0: int, y0: int, scale: nat, r: int, c: int, x: int, y: int)
  {
    GlyphCovers(g, x0, y0, scale, x, y) && Visited((y - y0) / scale, (x - x0) / scale, r, c)
  }

  /** Painting cell (c, r) of glyph `g` adds exactly the pixels of that cell to those covered so far. */
  lemma CoverCell(g: Glyph, x0: int, y0: int, scale: nat, r: nat, c: nat, x: int, y: int)
    requires scale > 0 && r < |g| && c < |g[r]|
    ensures InSquare(x0 + c * scale, y0 + r * scale, scale, x, y) <==>
      x >= x0 && y >= y0 && (x - x0) / scale == c && (y - y0) / scale == r
    ensures CoveredSoFar(g, x0, y0, scale, r, c + 1, x, y) <==>
      CoveredSoFar(g, x0, y0, scale, r, c, x, y) || (g[r][c] != ' ' && InSquare(x0 + c * scale, y0 + r * scale, scale, x, y))
  {
    CellOfPixel(x - x0, c, scale);
    CellOfPixel(y - y0, r, scale);
  }

  /** Visiting the cells past the end of row `r` or the rows past the glyph adds nothing. */
  lemma CoverRowEnd(g: Glyph, x0: int, y0: int, scale: nat, r: nat, x: int, y: int)
    requires r < |g|
    ensures CoveredSoFar(g, x0, y0, scale, r + 1, 0, x, y) <==> CoveredSoFar(g, x0, y0, scale, r, |g[r]|, x, y)
  {
  }

  /** Once every row is visited, the covered pixels are the glyph's. */
  lemma CoverAll(g: Glyph, x0: int, y0: int, scale: nat, x: int, y: int)
    ensures CoveredSoFar(g, x0, y0, scale, |g|, 0, x, y) <==> GlyphCovers(g, x0, y0, scale, x, y)
  {
  }

  /** One glyph: the row and column loops, painting the square of every ink cell. */
  method DrawGlyph(a: array<byte>, n: nat, g: Glyph, charH: nat, x0: int, y0: int, scale: nat, rgba: seq<byte>)
    requires a.Length == BufferSize(n) && |rgba| == 4 && |g| == charH
    modifies a
    ensures forall x, y :: 0 <= x < n && 0 <= y < n ==>
      Pixel(a[..], n, x, y) == if GlyphCovers(g, x0, y0, scale, x, y) then rgba else Pixel(old(a[..]), n, x, y)
  {
    ghost var before := a[..];
    var row := 0;
    while row < charH
      invariant 0 <= row <= charH
      invariant forall x, y :: 0 <= x < n && 0 <= y < n ==>
        Pixel(a[..], n, x, y) == if CoveredSoFar(g, x0, y0, scale, row, 0, x, y) then rgba else Pixel(before, n, x, y)
    {
      var col := 0;
      while col < |g[row]|
        invariant 0 <= col <= |g[row]|
        invariant forall x, y :: 0 <= x < n && 0 <= y < n ==>
          Pixel(a[..], n, x, y) == if CoveredSoFar(g, x0, y0, scale, row, col, x, y) then rgba else Pixel(before, n, x, y)
      {
        if g[row][col] != ' ' {
          ghost var mid := a[..];
          PaintCell(a, n, x0 + col * scale, y0 + row * scale, scale, rgba);
          forall x, y | 0 <= x < n && 0 <= y < n
            ensures Pixel(a[..], n, x, y) == if CoveredSoFar(g, x0, y0, scale, row, col + 1, x, y) then rgba else Pixel(before, n, x, y)
          {
            if scale > 0 {
              CoverCell(g, x0, y0, scale, row, col, x, y);
            }
          }
        } else {
          forall x, y | 0 <= x < n && 0 <= y < n
            ensures CoveredSoFar(g, x0, y0, scale, row, col + 1, x, y) == CoveredSoFar(g, x0, y0, scale, row, col, x, y)
          {
            if scale > 0 {
              CoverCell(g, x0, y0, scale, row, col, x, y);
            }
          }
        }
        col := col + 1;
      }
      forall x, y | 0 <= x < n && 0 <= y < n
        ensures CoveredSoFar(g, x0, y0, scale, row + 1, 0, x, y) == CoveredSoFar(g, x0, y0, scale, row, |g[row]|, x, y)
      {
        CoverRowEnd(g, x0, y0, scale, row, x, y);
      }
      row := row + 1;
    }
    forall x, y | 0 <= x < n && 0 <= y < n
      ensures CoveredSoFar(g, x0, y0, scale, |g|, 0, x, y) == GlyphCovers(g, x0, y0, scale, x, y)
    {
      CoverAll(g, x0, y0, scale, x, y);
    }
  }

  /**
   * `drawText(pixels, size, text, color, imgSize)`: when every character has a glyph, the
   * pixels of the image whose cell of the scaled, centred text is ink get `color` at full
   * opacity and every other pixel keeps its bytes; otherwise nothing changes.
   */
  method DrawText(a: array<byte>, size: nat, text: string, color: seq<byte>, imgSize: nat, font: map<char, Glyph>)
    requires WellFormedFont(font) && |text| > 0 && |color| == 3
    requires a.Length == BufferSize(imgSize)
    modifies a
    ensures GlyphsOf(font, text).None? ==> a[..] == old(a[..])
    ensures GlyphsOf(font, text).Some? ==>
      var gs := GlyphsOf(font, text).value;
      AllWellFormed(gs) &&
      forall x, y :: 0 <= x < imgSize && 0 <= y < imgSize ==>
        Pixel(a[..], imgSize, x, y)
          == if TextCovers(gs, LayoutOf(gs, size, imgSize), x, y) then color + [255] else Pixel(old(a[..]), imgSize, x, y)
  {
    var found := GlyphsOf(font, text);
    if found.None? {
      return;
    }
    var chars := found.value;
    var charH := |chars[0]|;
    var l := LayoutOf(chars, size, imgSize);
    var scale, startX, startY := l.scale, l.startX, l.startY;
    var rgba := color + [255];

    ghost var before := a[..];
    var offsetX := 0;
    var ci := 0;
    while ci < |chars|
      invariant 0 <= ci <= |chars|
      invariant AllWellFormed(chars[..ci]) && offsetX == Advance(chars[..ci])
      invariant forall x, y :: 0 <= x < imgSize && 0 <= y < imgSize ==>
        Pixel(a[..], imgSize, x, y) == if TextCovers(chars[..ci], l, x, y) then rgba else Pixel(before, imgSize, x, y)
    {
      var charData := chars[ci];
      ghost var mid := a[..];
      DrawGlyph(a, imgSize, charData, charH, startX + offsetX * scale, startY, scale, rgba);
      TextDrawnNext(a[..], mid, before, imgSize, chars, l, ci, rgba);
      AdvanceAppend(chars[..ci], charData);
      assert chars[..ci + 1] == chars[..ci] + [charData];
      offsetX := offsetX + |charData[0]| + 1;
      ci := ci + 1;
    }
    assert chars[..ci] == chars;
  }
}
