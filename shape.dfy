/**
 * `isInRoundedRect` of the icon script (scripts/generate-icons.mjs): the dark rounded square
 * of the icon. `px, py` is the pixel tested, `x, y, w, h` the rectangle and `r` the corner
 * radius; the four corner circles are centred `r` inside each corner.
 */
module Shape {

  /** The pixel lies in `[x, x + w) × [y, y + h)`. */
  predicate InBox(px: int, py: int, x: int, y: int, w: int, h: int)
  {
    x <= px < x + w && y <= py < y + h
  }

  /** The pixel lies in one of the four `r` by `r` corner squares: `inCornerRegion`. */
  predicate InCornerBand(px: int, py: int, x: int, y: int, w: int, h: int, r: int)
  {
    (px < x + r || px >= x + w - r) && (py < y + r || py >= y + h - r)
  }

  /** The corner centres, in the order the script lists them. */
  function Corners(x: int, y: int, w: int, h: int, r: int): (cs: seq<(int, int)>)
    ensures |cs| == 4
  {
    [(x + r, y + r), (x + w - r, y + r), (x + r, y + h - r), (x + w - r, y + h - r)]
  }

  /** `dx * dx + dy * dy <= r * r`: the pixel is within the circle of radius `r` around `c`. */
  predicate WithinRadius(px: int, py: int, c: (int, int), r: int)
  {
    (px - c.0) * (px - c.0) + (py - c.1) * (py - c.1) <= r * r
  }

  // ---------------------------------------------------------------------
  // As written
  // ---------------------------------------------------------------------

  /**
   * The test as the script writes it: inside the box, and, when the pixel is in a corner
   * band, within the radius of every one of the four corner centres, since the band test
   * does not depend on the corner the loop is looking at.
   */
  predicate InRoundedRectAsWritten(px: int, py: int, x: int, y: int, w: int, h: int, r: int)
  {
    InBox(px, py, x, y, w, h)
    && (InCornerBand(px, py, x, y, w, h, r) ==>
          forall k :: 0 <= k < 4 ==> WithinRadius(px, py, Corners(x, y, w, h, r)[k], r))
  }

  /** `isInRoundedRect` with its loop over the corners and its early returns. */
  method IsInRoundedRectAsWritten(px: int, py: int, x: int, y: int, w: int, h: int, r: int)
    returns (inside: bool)
    ensures inside == InRoundedRectAsWritten(px, py, x, y, w, h, r)
    ensures !InBox(px, py, x, y, w, h) ==> !inside
  {
    if px < x || px >= x + w || py < y || py >= y + h {
      return false;
    }
    var corners := Corners(x, y, w, h, r);
    var k := 0;
    while k < 4
      invariant 0 <= k <= 4
      invariant InCornerBand(px, py, x, y, w, h, r) ==>
        forall j :: 0 <= j < k ==> WithinRadius(px, py, corners[j], r)
    {
      var (cx, cy) := corners[k];
      var inCornerRegion := (px < x + r || px >= x + w - r) && (py < y + r || py >= y + h - r);
      if inCornerRegion {
        var dx := px - cx;
        var dy := py - cy;
        if dx * dx + dy * dy > r * r {
          return false;
        }
      }
      k := k + 1;
    }
    return true;
  }

  /** A square exceeds `r * r` once its side exceeds `r`, on either side of 0. */
  lemma SquareExceeds(d: int, r: int)
    requires 0 <= r && (d > r || d < -r)
    ensures d * d > r * r
  {
    if d > r {
      assert d * d > r * d >= r * r;
    } else {
      assert d * d == (-d) * (-d);
      assert (-d) * (-d) > r * (-d) >= r * r;
    }
  }

  /**
   * When the rectangle is wider than three radii, a pixel in any corner band is farther
   * than `r` from the centre on the opposite side, so the test as written rejects every
   * corner-band pixel: the corners come out as square notches instead of rounded ones.
   */
  lemma AsWrittenCutsCornerBands(px: int, py: int, x: int, y: int, w: int, h: int, r: int)
    requires 0 <= r && w > 3 * r
    requires InCornerBand(px, py, x, y, w, h, r)
    ensures !InRoundedRectAsWritten(px, py, x, y, w, h, r)
  {
    var cs := Corners(x, y, w, h, r);
    if px < x + r {
      SquareExceeds(px - cs[1].0, r);
      assert !WithinRadius(px, py, cs[1], r);
    } else {
      SquareExceeds(px - cs[0].0, r);
      assert !WithinRadius(px, py, cs[0], r);
    }
  }

  /**
   * The 192-pixel icon (rectangle at 12, 12 of side 168, radius 35): pixel (46, 46) lies
   * one pixel diagonally inside the top-left corner centre (47, 47), yet the test as
   * written rejects it, while the intended test accepts it.
   */
  lemma AsWrittenRejectsCornerPixel()
    ensures !InRoundedRectAsWritten(46, 46, 12, 12, 168, 168, 35)
    ensures InRoundedRect(46, 46, 12, 12, 168, 168, 35)
  {
    AsWrittenCutsCornerBands(46, 46, 12, 12, 168, 168, 35);
  }

  // ---------------------------------------------------------------------
  // Corrected
  // ---------------------------------------------------------------------

  /** The corner centre of the quadrant the pixel lies in. */
  function NearestCorner(px: int, py: int, x: int, y: int, w: int, h: int, r: int): (int, int)
  {
    (if px < x + r then x + r else x + w - r, if py < y + r then y + r else y + h - r)
  }

  /** The intended test: a corner-band pixel must lie within the circle of its own corner. */
  predicate InRoundedRect(px: int, py: int, x: int, y: int, w: int, h: int, r: int)
  {
    InBox(px, py, x, y, w, h)
    && (InCornerBand(px, py, x, y, w, h, r) ==> WithinRadius(px, py, NearestCorner(px, py, x, y, w, h, r), r))
  }

  /** `isInRoundedRect` checking only the corner whose band holds the pixel. */
  method IsInRoundedRect(px: int, py: int, x: int, y: int, w: int, h: int, r: int)
    returns (inside: bool)
    ensures inside == InRoundedRect(px, py, x, y, w, h, r)
    ensures !InBox(px, py, x, y, w, h) ==> !inside
  {
    if px < x || px >= x + w || py < y || py >= y + h {
      return false;
    }
    var inCornerRegion := (px < x + r || px >= x + w - r) && (py < y + r || py >= y + h - r);
    if inCornerRegion {
      var cx := if px < x + r then x + r else x + w - r;
      var cy := if py < y + r then y + r else y + h - r;
      var dx := px - cx;
      var dy := py - cy;
      if dx * dx + dy * dy > r * r {
        return false;
      }
    }
    return true;
  }

  /** `v` moved into `[lo, hi]`. */
  function ClampTo(v: int, lo: int, hi: int): int
    requires lo <= hi
  {
    if v < lo then lo else if v > hi then hi else v
  }

  /**
   * The shape the corrected test accepts is the rounded rectangle: the pixels of the box
   * within distance `r` of the core rectangle `[x + r, x + w - r] × [y + r, y + h - r]`.
   */
  lemma RoundedRectIsNearCore(px: int, py: int, x: int, y: int, w: int, h: int, r: int)
    requires 0 <= r && 2 * r <= w && 2 * r <= h
    ensures InRoundedRect(px, py, x, y, w, h, r) <==>
      InBox(px, py, x, y, w, h)
      && WithinRadius(px, py, (ClampTo(px, x + r, x + w - r), ClampTo(py, y + r, y + h - r)), r)
  {
    var c := (ClampTo(px, x + r, x + w - r), ClampTo(py, y + r, y + h - r));
    if InBox(px, py, x, y, w, h) {
      if InCornerBand(px, py, x, y, w, h, r) {
        assert c == NearestCorner(px, py, x, y, w, h, r);
      } else if x + r <= px < x + w - r {
        assert c.0 == px;
        SquareAtMost(py - c.1, r);
      } else {
        assert c.1 == py;
        SquareAtMost(px - c.0, r);
      }
    }
  }

  /** A side of at most `r` has a square of at most `r * r`. */
  lemma SquareAtMost(d: int, r: int)
    requires -r <= d <= r
    ensures d * d <= r * r
  {
    if d >= 0 {
      assert d * d <= r * d <= r * r;
    } else {
      assert d * d == (-d) * (-d);
      assert (-d) * (-d) <= r * (-d) <= r * r;
    }
  }

  /** Both versions accept only pixels of the box: the bounds test comes first and returns false. */
  lemma BothVersionsWithinBox(px: int, py: int, x: int, y: int, w: int, h: int, r: int)
    ensures InRoundedRectAsWritten(px, py, x, y, w, h, r) ==> InBox(px, py, x, y, w, h)
    ensures InRoundedRect(px, py, x, y, w, h, r) ==> InBox(px, py, x, y, w, h)
  {
  }

  /** Away from the corner bands both versions are exactly the box test. */
  lemma VersionsAgreeOutsideCorners(px: int, py: int, x: int, y: int, w: int, h: int, r: int)
    requires !InCornerBand(px, py, x, y, w, h, r)
    ensures InRoundedRectAsWritten(px, py, x, y, w, h, r) == InRoundedRect(px, py, x, y, w, h, r) == InBox(px, py, x, y, w, h)
  {
  }
}
