/**
 * The flat RGB24 buffer: pixel number p = y * width + x in raster order has its
 * red, green and blue samples at 3 * p, 3 * p + 1 and 3 * p + 2.
 */
module Pixels {
  import opened Palette

  /** `Color::from(&buffer[i..i + 3])` for i = 3 * p. */
  function PixelAt(buf: seq<Byte>, p: nat): (c: Color)
    requires 3 * p + 3 <= |buf|
    ensures Channels(c) == buf[3 * p .. 3 * p + 3]
  {
    FromSlice(buf[3 * p .. 3 * p + 3])
  }

  /** The three stores `buffer[i] = c.r; buffer[i + 1] = c.g; buffer[i + 2] = c.b` for i = 3 * p. */
  function SetPixel(buf: seq<Byte>, p: nat, c: Color): (r: seq<Byte>)
    requires 3 * p + 3 <= |buf|
    ensures |r| == |buf|
  {
    buf[3 * p := c.r][3 * p + 1 := c.g][3 * p + 2 := c.b]
  }

  /** Pixel p then holds c, and every sample outside it is as it was. */
  lemma SetPixelFrame(buf: seq<Byte>, p: nat, c: Color)
    requires 3 * p + 3 <= |buf|
    ensures PixelAt(SetPixel(buf, p, c), p) == c
    ensures SameBelow(SetPixel(buf, p, c), buf, 3 * p)
    ensures SameFrom(SetPixel(buf, p, c), buf, 3 * p + 3)
  {
    var r := SetPixel(buf, p, c);
    assert r[3 * p .. 3 * p + 3] == [c.r, c.g, c.b];
  }

  /** Writing back a pixel's own color changes nothing. */
  lemma SetPixelOwnColor(buf: seq<Byte>, p: nat)
    requires 3 * p + 3 <= |buf|
    ensures SetPixel(buf, p, PixelAt(buf, p)) == buf
  {
    var r := SetPixel(buf, p, PixelAt(buf, p));
    SetPixelFrame(buf, p, PixelAt(buf, p));
    assert Channels(PixelAt(buf, p)) == buf[3 * p .. 3 * p + 3];
    forall i | 0 <= i < |buf|
      ensures r[i] == buf[i]
    {
      if 3 * p <= i < 3 * p + 3 {
        assert buf[i] == buf[3 * p .. 3 * p + 3][i - 3 * p];
      }
    }
  }

  /** Two buffers that agree on the samples of pixel q hold the same color there. */
  lemma PixelAtAgree(a: seq<Byte>, b: seq<Byte>, q: nat)
    requires 3 * q + 3 <= |a| && 3 * q + 3 <= |b|
    requires a[3 * q] == b[3 * q] && a[3 * q + 1] == b[3 * q + 1] && a[3 * q + 2] == b[3 * q + 2]
    ensures PixelAt(a, q) == PixelAt(b, q)
  {
    assert a[3 * q .. 3 * q + 3] == b[3 * q .. 3 * q + 3];
  }

  /** The buffers agree on every sample below `m`. */
  ghost predicate SameBelow(a: seq<Byte>, b: seq<Byte>, m: nat)
  {
    m <= |a| && m <= |b| && forall i | 0 <= i < m :: a[i] == b[i]
  }

  /** The buffers have the same length and agree on every sample from `m` on. */
  ghost predicate SameFrom(a: seq<Byte>, b: seq<Byte>, m: nat)
  {
    |a| == |b| && forall i | m <= i < |a| :: a[i] == b[i]
  }

  lemma SameBelowTrans(a: seq<Byte>, b: seq<Byte>, c: seq<Byte>, m: nat, m2: nat)
    requires SameBelow(a, b, m) && SameBelow(b, c, m2) && m2 <= m
    ensures SameBelow(a, c, m2)
  {
  }

  lemma SameBelowRefl(a: seq<Byte>, m: nat)
    requires m <= |a|
    ensures SameBelow(a, a, m)
  {
  }


  /** Every one of the first `n` pixels is an entry of the palette. */
  ghost predicate AllInPalette(buf: seq<Byte>, palette: seq<Color>, n: nat)
    requires 3 * n <= |buf|
  {
    forall q | 0 <= q < n :: PixelAt(buf, q) in palette
  }

  // ---------------------------------------------------------------------------
  // Raster-order arithmetic
  // ---------------------------------------------------------------------------

  lemma MulLeft(a: int, b: int, c: nat)
    requires a <= b
    ensures a * c <= b * c
  {
  }

  /** Column and row of a pixel number. */
  lemma RowMajor(w: nat, x: nat, y: nat)
    requires x < w
    ensures (y * w + x) / w == y && (y * w + x) % w == x
  {
    var p := y * w + x;
    var q, r := p / w, p % w;
    assert p == q * w + r;
    assert (q - y) * w == x - r;
    if q > y {
      MulLeft(1, q - y, w);
    } else if q < y {
      MulLeft(1, y - q, w);
    }
  }

  /** A pixel inside a width-by-height image has a number below width * height. */
  lemma InImage(w: nat, h: nat, x: nat, y: nat)
    requires x < w && y < h
    ensures y * w + x < w * h
  {
    MulLeft(y + 1, h, w);
  }

  /** The pixel after the last of row y is the first of row y + 1, and it is at most width * height. */
  lemma RowEnd(w: nat, h: nat, y: nat)
    requires y < h
    ensures y * w + w == (y + 1) * w <= w * h
  {
    MulLeft(y + 1, h, w);
  }

  /** The column and row of a pixel number below width * height lie inside the image. */
  lemma RowInImage(w: nat, h: nat, p: nat)
    requires p < w * h
    ensures w > 0 && p / w < h && p % w < w
    ensures (p / w) * w + p % w == p
  {
    if p / w >= h {
      MulLeft(h, p / w, w);
    }
  }

  /** The column of pixel number p in an image w pixels wide. */
  function Column(w: nat, h: nat, p: nat): (x: nat)
    requires p < w * h
    ensures x < w
  {
    RowInImage(w, h, p);
    p % w
  }

  /** The row of pixel number p: together with its column it gives p back. */
  function Row(w: nat, h: nat, p: nat): (y: nat)
    requires p < w * h
    ensures y < h && y * w + Column(w, h, p) == p
  {
    RowInImage(w, h, p);
    p / w
  }

  /** The pixel at (x, y) has number y * w + x, and its column and row are x and y. */
  lemma CoordinatesOf(w: nat, h: nat, x: nat, y: nat)
    requires x < w && y < h
    ensures y * w + x < w * h
    ensures Column(w, h, y * w + x) == x && Row(w, h, y * w + x) == y
  {
    InImage(w, h, x, y);
    RowMajor(w, x, y);
  }

  /** The first x pixels of row y, or all rows when y == h, lie inside the image. */
  lemma RowPrefixInImage(w: nat, h: nat, x: nat, y: nat)
    requires (x <= w && y < h) || (x == 0 && y == h)
    ensures y * w + x <= w * h
  {
    if y < h {
      RowEnd(w, h, y);
    }
  }


  /** Raster order on coordinates is the order of pixel numbers. */
  lemma RasterLater(w: nat, x: nat, y: nat, x2: nat, y2: nat)
    requires x < w && x2 < w
    requires y < y2 || (y == y2 && x < x2)
    ensures y * w + x < y2 * w + x2
  {
    if y < y2 {
      MulLeft(y + 1, y2, w);
    }
  }
}
