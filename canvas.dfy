/**
 * The square RGBA pixel buffer of the icon script (scripts/generate-icons.mjs): a
 * `Uint8Array` of `n * n * 4` bytes in which pixel (x, y) occupies the four bytes from
 * `(y * n + x) * 4` on, red, green, blue and alpha in that order.
 */
module Canvas {
  import opened Bytes

  /** The number of bytes of an `n` by `n` RGBA buffer. */
  function BufferSize(n: nat): nat
  {
    n * n * 4
  }

  /** Where the four bytes of pixel (x, y) start. */
  function Offset(n: nat, x: nat, y: nat): nat
  {
    (y * n + x) * 4
  }

  /** Every pixel of the image lies inside the buffer. */
  lemma OffsetInBuffer(n: nat, x: nat, y: nat)
    requires x < n && y < n
    ensures Offset(n, x, y) + 4 <= BufferSize(n)
  {
    assert y * n + x + 1 <= y * n + n == (y + 1) * n;
    assert (y + 1) * n <= n * n by {
      MulLe(y + 1, n, n);
    }
  }

  /** Multiplying by a non-negative factor keeps the order. */
  lemma MulLe(a: int, b: int, s: int)
    requires a <= b && s >= 0
    ensures a * s <= b * s
  {
    assert b * s - a * s == (b - a) * s;
  }

  /** The four bytes of pixel (x, y). */
  function Pixel(s: seq<byte>, n: nat, x: nat, y: nat): (r: seq<byte>)
    requires |s| == BufferSize(n) && x < n && y < n
    ensures |r| == 4
  {
    OffsetInBuffer(n, x, y);
    s[Offset(n, x, y)..Offset(n, x, y) + 4]
  }

  /** Two different pixels never share a byte. */
  lemma DistinctPixelsDisjoint(n: nat, x: nat, y: nat, qx: nat, qy: nat)
    requires x < n && y < n && qx < n && qy < n && (x, y) != (qx, qy)
    ensures Offset(n, qx, qy) + 4 <= Offset(n, x, y) || Offset(n, x, y) + 4 <= Offset(n, qx, qy)
  {
    if y < qy {
      Before(n, x, y, qx, qy);
    } else if qy < y {
      Before(n, qx, qy, x, y);
    }
  }

  /** A pixel on an earlier row comes before every pixel of a later one. */
  lemma Before(n: nat, x: nat, y: nat, qx: nat, qy: nat)
    requires x < n && y < qy
    ensures y * n + x < qy * n + qx
  {
    assert y * n + x < y * n + n == (y + 1) * n;
    MulLe(y + 1, qy, n);
  }

  /** Each byte belongs to the pixel `(i / 4) % n, (i / 4) / n`, at position `i % 4`. */
  lemma ByteOwner(n: nat, i: nat)
    requires i < BufferSize(n)
    ensures n > 0 && (i / 4) % n < n && (i / 4) / n < n
    ensures Offset(n, (i / 4) % n, (i / 4) / n) + i % 4 == i
  {
    var q := i / 4;
    assert q < n * n;
    assert n > 0;
    var x, y := q % n, q / n;
    assert q == y * n + x;
    if y >= n {
      MulLe(n, y, n);
    }
  }

  /** Byte `k` of pixel (x, y) is owned by that pixel. */
  lemma PixelOfByte(n: nat, x: nat, y: nat, k: nat)
    requires x < n && y < n && k < 4
    ensures Offset(n, x, y) + k < BufferSize(n)
    ensures (Offset(n, x, y) + k) / 4 == y * n + x && (Offset(n, x, y) + k) % 4 == k
    ensures (y * n + x) % n == x && (y * n + x) / n == y
  {
    OffsetInBuffer(n, x, y);
    var q := y * n + x;
    DivUnique(q * 4 + k, 4, q);
    DivUnique(q, n, y);
    assert q == (q / n) * n + q % n;
  }

  /** `q` is the quotient of `d` by `s` when `d` lies in `[q * s, q * s + s)`. */
  lemma DivUnique(d: int, s: int, q: int)
    requires s > 0 && q * s <= d < q * s + s
    ensures d / s == q
  {
    var p := d / s;
    assert d == p * s + d % s;
    assert (p - q) * s == p * s - q * s;
    UnitMultiple(p - q, s);
  }

  /** The only multiple of `s` strictly between `-s` and `s` is zero. */
  lemma UnitMultiple(t: int, s: int)
    requires s > 0 && -s < t * s < s
    ensures t == 0
  {
    if t >= 1 {
      MulLe(1, t, s);
    } else if t <= -1 {
      MulLe(t, -1, s);
    }
  }

  /** The buffer whose pixel (x, y) is `pixel(x, y)`, filled byte by byte. */
  function Render(n: nat, pixel: (nat, nat) --> seq<byte>): (s: seq<byte>)
    requires forall x: nat, y: nat :: x < n && y < n ==> pixel.requires(x, y) && |pixel(x, y)| == 4
    ensures |s| == BufferSize(n)
    ensures forall x, y :: 0 <= x < n && 0 <= y < n ==> Pixel(s, n, x, y) == pixel(x, y)
  {
    var s := seq(BufferSize(n), i requires 0 <= i < BufferSize(n) =>
      ByteOwner(n, i);
      pixel((i / 4) % n, (i / 4) / n)[i % 4]);
    forall x, y | 0 <= x < n && 0 <= y < n
      ensures Pixel(s, n, x, y) == pixel(x, y)
    {
      OffsetInBuffer(n, x, y);
      forall k | 0 <= k < 4
        ensures s[Offset(n, x, y) + k] == pixel(x, y)[k]
      {
        PixelOfByte(n, x, y, k);
      }
    }
    s
  }

  /** Two buffers that agree on every pixel are equal. */
  lemma PixelsDetermineBuffer(s: seq<byte>, t: seq<byte>, n: nat)
    requires |s| == BufferSize(n) && |t| == BufferSize(n)
    requires forall x, y :: 0 <= x < n && 0 <= y < n ==> Pixel(s, n, x, y) == Pixel(t, n, x, y)
    ensures s == t
  {
    forall i | 0 <= i < |s|
      ensures s[i] == t[i]
    {
      ByteOwner(n, i);
      var x, y := (i / 4) % n, (i / 4) / n;
      assert Pixel(s, n, x, y)[i % 4] == s[i];
      assert Pixel(t, n, x, y)[i % 4] == t[i];
    }
  }

  /** The four assignments `pixels[idx] = …; … pixels[idx + 3] = …` for pixel (x, y). */
  method PutPixel(a: array<byte>, n: nat, x: nat, y: nat, rgba: seq<byte>)
    requires a.Length == BufferSize(n) && x < n && y < n && |rgba| == 4
    modifies a
    ensures Pixel(a[..], n, x, y) == rgba
    ensures forall qx, qy :: 0 <= qx < n && 0 <= qy < n && (qx, qy) != (x, y) ==>
      Pixel(a[..], n, qx, qy) == Pixel(old(a[..]), n, qx, qy)
  {
    var idx := (y * n + x) * 4;
    OffsetInBuffer(n, x, y);
    a[idx] := rgba[0];
    a[idx + 1] := rgba[1];
    a[idx + 2] := rgba[2];
    a[idx + 3] := rgba[3];
    assert a[..][idx..idx + 4] == rgba;
    forall qx, qy | 0 <= qx < n && 0 <= qy < n && (qx, qy) != (x, y)
      ensures Pixel(a[..], n, qx, qy) == Pixel(old(a[..]), n, qx, qy)
    {
      DistinctPixelsDisjoint(n, x, y, qx, qy);
      OffsetInBuffer(n, qx, qy);
    }
  }

  /** `pixels[idx + 3] = alpha` for pixel (x, y): only its alpha byte changes. */
  method PutAlpha(a: array<byte>, n: nat, x: nat, y: nat, alpha: byte)
    requires a.Length == BufferSize(n) && x < n && y < n
    modifies a
    ensures Pixel(a[..], n, x, y) == Pixel(old(a[..]), n, x, y)[..3] + [alpha]
    ensures forall qx, qy :: 0 <= qx < n && 0 <= qy < n && (qx, qy) != (x, y) ==>
      Pixel(a[..], n, qx, qy) == Pixel(old(a[..]), n, qx, qy)
  {
    var idx := (y * n + x) * 4;
    OffsetInBuffer(n, x, y);
    a[idx + 3] := alpha;
    assert a[..][idx..idx + 4] == old(a[..])[idx..idx + 3] + [alpha];
    forall qx, qy | 0 <= qx < n && 0 <= qy < n && (qx, qy) != (x, y)
      ensures Pixel(a[..], n, qx, qy) == Pixel(old(a[..]), n, qx, qy)
    {
      DistinctPixelsDisjoint(n, x, y, qx, qy);
      OffsetInBuffer(n, qx, qy);
    }
  }
}
