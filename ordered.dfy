/**
 * Ordered dithering (`apply_bayer_dithering` in src/dither.rs): every pixel
 * is pushed up or down by the threshold the tiled Bayer matrix holds at its
 * position, then replaced by its nearest palette color. No error travels
 * between pixels, so each pixel's result depends on its own color and
 * position only.
 *
 * The f32 arithmetic of the source is idealised: `v / 255.0 + t - 0.5`,
 * the clamp to [0, 1] and the product with 255 are exact reals, and
 * `as u8` of the result (which lies in [0, 255]) truncates it to its floor.
 */
module OrderedDithering {
  import opened Palette
  import opened Pixels
  import opened DitherTables

  // ---------------------------------------------------------------------------
  // Per-sample arithmetic
  // ---------------------------------------------------------------------------

  /** `clamp(0.0, 1.0)`. */
  function Clamp01(x: real): (r: real)
    ensures 0.0 <= r <= 1.0
    ensures 0.0 <= x <= 1.0 ==> r == x
    ensures x < 0.0 ==> r == 0.0
    ensures 1.0 < x ==> r == 1.0
  {
    if x < 0.0 then 0.0 else if 1.0 < x then 1.0 else x
  }

  /**
   * One sample after ordered dithering with threshold t:
   * `((v / 255 + t - 0.5).clamp(0, 1) * 255) as u8`, on exact rationals.
   * A threshold in [0, 1) moves a sample by at most 128 down and 127 up.
   */
  function Perturb(v: Byte, t: real): (r: Byte)
    ensures 0.0 <= t < 1.0 ==> v - 128 <= r <= v + 127
  {
    var x := v as real / 255.0 + t - 0.5;
    var y := Clamp01(x) * 255.0;
    assert 0.0 <= y <= 255.0;
    assert 0.0 <= x <= 1.0 ==> y == v as real + t * 255.0 - 127.5;
    y.Floor
  }

  /** In the exact-rational model the threshold 0.5 leaves a sample as it is. */
  lemma PerturbMidpoint(v: Byte)
    ensures Perturb(v, 0.5) == v
  {
    assert v as real / 255.0 + 0.5 - 0.5 == v as real / 255.0;
    assert (v as real / 255.0) * 255.0 == v as real;
  }

  /** A threshold below one half never brightens a sample, one above never darkens it. */
  lemma PerturbDirection(v: Byte, t: real)
    ensures t <= 0.5 ==> Perturb(v, t) <= v
    ensures 0.5 <= t ==> v <= Perturb(v, t)
  {
    PerturbMidpoint(v);
    if t <= 0.5 {
      PerturbMonotone(v, v, t, 0.5);
    } else {
      PerturbMonotone(v, v, 0.5, t);
    }
  }

  /** Perturbation is monotone in the sample and in the threshold. */
  lemma PerturbMonotone(v1: Byte, v2: Byte, t1: real, t2: real)
    requires v1 <= v2 && t1 <= t2
    ensures Perturb(v1, t1) <= Perturb(v2, t2)
  {
    var x1 := v1 as real / 255.0 + t1 - 0.5;
    var x2 := v2 as real / 255.0 + t2 - 0.5;
    assert x1 <= x2;
    assert Clamp01(x1) <= Clamp01(x2);
  }

  /**
   * The three samples of a pixel after ordered dithering with threshold t.
   * Each moves by at most 128 down and 127 up, and a sample at 0 stays 0
   * for a threshold up to one half.
   */
  function PerturbColor(c: Color, t: real): (d: Color)
    ensures 0.0 <= t < 1.0 ==> c.r - 128 <= d.r <= c.r + 127 && c.g - 128 <= d.g <= c.g + 127 && c.b - 128 <= d.b <= c.b + 127
    ensures t <= 0.5 && c == Black ==> d == Black
  {
    Color(Perturb(c.r, t), Perturb(c.g, t), Perturb(c.b, t))
  }

  // ---------------------------------------------------------------------------
  // The tiled threshold matrix
  // ---------------------------------------------------------------------------

  /** `matrix[(cy % size) * size + cx % size]`: the matrix tiles the image. */
  function ThresholdAt(m: ThresholdMatrix, x: nat, y: nat): (t: real)
    requires ValidMatrix(m)
    ensures 0.0 <= t < 1.0
  {
    CellIndexBound(m.size, x % m.size, y % m.size);
    assert InUnitRange(m.values, 0, |m.values|);
    Cell(m.values, m.size, x % m.size, y % m.size)
  }

  /** The threshold repeats with the matrix's side along both axes. */
  lemma ThresholdPeriodic(m: ThresholdMatrix, x: nat, y: nat)
    requires ValidMatrix(m)
    ensures ThresholdAt(m, x + m.size, y) == ThresholdAt(m, x, y)
    ensures ThresholdAt(m, x, y + m.size) == ThresholdAt(m, x, y)
  {
    ModPeriodic(x, m.size);
    ModPeriodic(y, m.size);
  }

  lemma ModPeriodic(a: nat, n: nat)
    requires n > 0
    ensures (a + n) % n == a % n
  {
    var q := a / n;
    assert a == q * n + a % n;
    assert a + n == (q + 1) * n + a % n;
    RowMajor(n, a % n, q + 1);
  }

  /** The color ordered dithering gives a pixel of color c at (x, y). */
  function OrderedColor(c: Color, palette: seq<Color>, m: ThresholdMatrix, x: nat, y: nat): (d: Color)
    requires |palette| > 0 && ValidMatrix(m)
    ensures d in palette
  {
    Nearest(PerturbColor(c, ThresholdAt(m, x, y)), palette)
  }

  /** With the monochrome palette a black pixel stays black wherever it is. */
  lemma OrderedBlackStaysBlack(m: ThresholdMatrix, x: nat, y: nat)
    requires ValidMatrix(m)
    ensures OrderedColor(Black, PaletteMonochrome, m, x, y) == Black
  {
    var t := ThresholdAt(m, x, y);
    assert Perturb(0, t) <= 127;
    PerturbMonotone(0, 0, t, 1.0);
    assert Perturb(0, 1.0) == 127;
    NearestMonochromeBySum(PerturbColor(Black, t));
  }

  /**
   * With the monochrome palette a white pixel where the threshold is 0 turns
   * black: 255 / 255 + 0 - 0.5 gives 127.5, truncated to 127, which is nearer
   * to black than to white. Every Bayer matrix has a 0 at its top left cell.
   */
  lemma OrderedWhiteAtZeroTurnsBlack(m: ThresholdMatrix, x: nat, y: nat)
    requires ValidMatrix(m) && ThresholdAt(m, x, y) == 0.0
    ensures OrderedColor(White, PaletteMonochrome, m, x, y) == Black
  {
    assert Perturb(255, 0.0) == 127;
    NearestMonochromeBySum(PerturbColor(White, 0.0));
  }

  // ---------------------------------------------------------------------------
  // The raster scan
  // ---------------------------------------------------------------------------

  /** The body of the pixel loop for pixel number p = cy * w + cx. */
  function OrderStep(buf: seq<Byte>, palette: seq<Color>, m: ThresholdMatrix, w: nat, h: nat, p: nat): (r: seq<Byte>)
    requires |palette| > 0 && ValidMatrix(m)
    requires p < w * h && 3 * (w * h) <= |buf|
    ensures |r| == |buf|
  {
    SetPixel(buf, p, OrderedColor(PixelAt(buf, p), palette, m, Column(w, h, p), Row(w, h, p)))
  }

  /** The buffer after the first n pixels of the scan. */
  function Ordered(buf: seq<Byte>, palette: seq<Color>, m: ThresholdMatrix, w: nat, h: nat, n: nat): (r: seq<Byte>)
    requires |palette| > 0 && ValidMatrix(m)
    requires n <= w * h && 3 * (w * h) <= |buf|
    ensures |r| == |buf|
    decreases n, 1
  {
    if n == 0 then buf
    else OrderedVisited(buf, palette, m, w, h, n - 1)
  }

  /** The buffer once the scan has visited pixel p: the pixel loop's body applied to the pixels before it. */
  function OrderedVisited(buf: seq<Byte>, palette: seq<Color>, m: ThresholdMatrix, w: nat, h: nat, p: nat): (r: seq<Byte>)
    requires |palette| > 0 && ValidMatrix(m)
    requires p < w * h && 3 * (w * h) <= |buf|
    ensures |r| == |buf|
    decreases p + 1, 0
  {
    OrderStep(Ordered(buf, palette, m, w, h, p), palette, m, w, h, p)
  }

  /** One more pixel of the scan. */
  lemma OrderedNext(buf: seq<Byte>, palette: seq<Color>, m: ThresholdMatrix, w: nat, h: nat, p: nat)
    requires |palette| > 0 && ValidMatrix(m)
    requires p < w * h && 3 * (w * h) <= |buf|
    ensures Ordered(buf, palette, m, w, h, p + 1) == OrderStep(Ordered(buf, palette, m, w, h, p), palette, m, w, h, p)
  {
    assert Ordered(buf, palette, m, w, h, p + 1) == OrderedVisited(buf, palette, m, w, h, p);
  }

  /** The pixels from n on are still as they were, and so is everything past the image. */
  lemma {:induction false} OrderedUntouched(buf: seq<Byte>, palette: seq<Color>, m: ThresholdMatrix, w: nat, h: nat, n: nat)
    requires |palette| > 0 && ValidMatrix(m)
    requires n <= w * h && 3 * (w * h) <= |buf|
    ensures SameFrom(Ordered(buf, palette, m, w, h, n), buf, 3 * n)
  {
    if n > 0 {
      var p: nat := n - 1;
      OrderedUntouched(buf, palette, m, w, h, p);
      OrderedStep(buf, palette, m, w, h, p);
    }
  }

  /**
   * The pixel loop's body gives pixel p the ordered color of what it holds,
   * and changes no other sample.
   */
  lemma OrderStepFrame(buf: seq<Byte>, palette: seq<Color>, m: ThresholdMatrix, w: nat, h: nat, p: nat)
    requires |palette| > 0 && ValidMatrix(m)
    requires p < w * h && 3 * (w * h) <= |buf|
    ensures SameBelow(OrderStep(buf, palette, m, w, h, p), buf, 3 * p)
    ensures SameFrom(OrderStep(buf, palette, m, w, h, p), buf, 3 * p + 3)
    ensures PixelAt(OrderStep(buf, palette, m, w, h, p), p) == OrderedColor(PixelAt(buf, p), palette, m, Column(w, h, p), Row(w, h, p))
  {
    SetPixelFrame(buf, p, OrderedColor(PixelAt(buf, p), palette, m, Column(w, h, p), Row(w, h, p)));
  }

  /** The pixel loop's body at (x, y). */
  lemma OrderStepAt(buf: seq<Byte>, palette: seq<Color>, m: ThresholdMatrix, w: nat, h: nat, x: nat, y: nat)
    requires |palette| > 0 && ValidMatrix(m)
    requires x < w && y < h && 3 * (w * h) <= |buf|
    ensures y * w + x < w * h
    ensures OrderStep(buf, palette, m, w, h, y * w + x)
         == SetPixel(buf, y * w + x, OrderedColor(PixelAt(buf, y * w + x), palette, m, x, y))
  {
    CoordinatesOf(w, h, x, y);
  }

  /** Visiting pixel p changes no other pixel. */
  lemma OrderedStep(buf: seq<Byte>, palette: seq<Color>, m: ThresholdMatrix, w: nat, h: nat, p: nat)
    requires |palette| > 0 && ValidMatrix(m)
    requires p < w * h && 3 * (w * h) <= |buf|
    ensures SameBelow(Ordered(buf, palette, m, w, h, p + 1), Ordered(buf, palette, m, w, h, p), 3 * p)
    ensures SameFrom(Ordered(buf, palette, m, w, h, p + 1), Ordered(buf, palette, m, w, h, p), 3 * p + 3)
  {
    OrderedNext(buf, palette, m, w, h, p);
    OrderStepFrame(Ordered(buf, palette, m, w, h, p), palette, m, w, h, p);
  }

  /** Visiting pixel p gives it the ordered color of what it held. */
  lemma OrderedStepPixel(buf: seq<Byte>, palette: seq<Color>, m: ThresholdMatrix, w: nat, h: nat, p: nat)
    requires |palette| > 0 && ValidMatrix(m)
    requires p < w * h && 3 * (w * h) <= |buf|
    ensures PixelAt(Ordered(buf, palette, m, w, h, p + 1), p)
         == OrderedColor(PixelAt(Ordered(buf, palette, m, w, h, p), p), palette, m, Column(w, h, p), Row(w, h, p))
  {
    OrderedNext(buf, palette, m, w, h, p);
    OrderStepFrame(Ordered(buf, palette, m, w, h, p), palette, m, w, h, p);
  }

  /** Once pixel p has been visited, later steps never change it or any pixel before it. */
  lemma {:induction false} OrderedSettles(buf: seq<Byte>, palette: seq<Color>, m: ThresholdMatrix, w: nat, h: nat, n: nat, n2: nat)
    requires |palette| > 0 && ValidMatrix(m)
    requires n <= n2 <= w * h && 3 * (w * h) <= |buf|
    ensures SameBelow(Ordered(buf, palette, m, w, h, n2), Ordered(buf, palette, m, w, h, n), 3 * n)
    decreases n2
  {
    if n2 > n {
      var p: nat := n2 - 1;
      OrderedSettles(buf, palette, m, w, h, n, p);
      OrderedStep(buf, palette, m, w, h, p);
      SameBelowTrans(Ordered(buf, palette, m, w, h, n2), Ordered(buf, palette, m, w, h, p), Ordered(buf, palette, m, w, h, n), 3 * p, 3 * n);
    } else {
      SameBelowRefl(Ordered(buf, palette, m, w, h, n), 3 * n);
    }
  }

  /**
   * The scan is pixelwise: every visited pixel holds the ordered color of its
   * ORIGINAL color at its own position, whatever the other pixels hold.
   */
  lemma OrderedPixel(buf: seq<Byte>, palette: seq<Color>, m: ThresholdMatrix, w: nat, h: nat, p: nat, n: nat)
    requires |palette| > 0 && ValidMatrix(m)
    requires p < n <= w * h && 3 * (w * h) <= |buf|
    ensures PixelAt(Ordered(buf, palette, m, w, h, n), p) == OrderedColor(PixelAt(buf, p), palette, m, Column(w, h, p), Row(w, h, p))
  {
    OrderedUntouched(buf, palette, m, w, h, p);
    PixelAtAgree(Ordered(buf, palette, m, w, h, p), buf, p);
    OrderedStepPixel(buf, palette, m, w, h, p);
    OrderedSettles(buf, palette, m, w, h, p + 1, n);
    PixelAtAgree(Ordered(buf, palette, m, w, h, n), Ordered(buf, palette, m, w, h, p + 1), p);
  }

  /** The same, by coordinates: the result at (x, y) is fixed by the original color at (x, y) and by x and y. */
  lemma OrderedPixelAt(buf: seq<Byte>, palette: seq<Color>, m: ThresholdMatrix, w: nat, h: nat, x: nat, y: nat)
    requires |palette| > 0 && ValidMatrix(m)
    requires x < w && y < h && 3 * (w * h) <= |buf|
    ensures y * w + x < w * h
    ensures PixelAt(Ordered(buf, palette, m, w, h, w * h), y * w + x) == OrderedColor(PixelAt(buf, y * w + x), palette, m, x, y)
  {
    CoordinatesOf(w, h, x, y);
    OrderedPixel(buf, palette, m, w, h, y * w + x, w * h);
  }

  /** Buffers that agree on pixel p are dithered alike there, whatever the other pixels hold. */
  lemma OrderedLocal(a: seq<Byte>, b: seq<Byte>, palette: seq<Color>, m: ThresholdMatrix, w: nat, h: nat, p: nat)
    requires |palette| > 0 && ValidMatrix(m)
    requires p < w * h && 3 * (w * h) <= |a| && 3 * (w * h) <= |b|
    requires PixelAt(a, p) == PixelAt(b, p)
    ensures PixelAt(Ordered(a, palette, m, w, h, w * h), p) == PixelAt(Ordered(b, palette, m, w, h, w * h), p)
  {
    OrderedPixel(a, palette, m, w, h, p, w * h);
    OrderedPixel(b, palette, m, w, h, p, w * h);
  }

  /** After the scan every pixel of the image is a palette color. */
  lemma OrderedAllInPalette(buf: seq<Byte>, palette: seq<Color>, m: ThresholdMatrix, w: nat, h: nat)
    requires |palette| > 0 && ValidMatrix(m)
    requires 3 * (w * h) <= |buf|
    ensures AllInPalette(Ordered(buf, palette, m, w, h, w * h), palette, w * h)
  {
    forall p | 0 <= p < w * h
      ensures PixelAt(Ordered(buf, palette, m, w, h, w * h), p) in palette
    {
      OrderedPixel(buf, palette, m, w, h, p, w * h);
    }
  }

  // ---------------------------------------------------------------------------
  // The in-place implementation
  // ---------------------------------------------------------------------------

  /**
   * The invariant of the pixel loops: the buffer holds the scan of `before`
   * through the rows above row y and the first x pixels of row y.
   */
  ghost predicate OrderedTo(b: seq<Byte>, before: seq<Byte>, palette: seq<Color>, m: ThresholdMatrix, w: nat, h: nat, x: nat, y: nat)
    requires |palette| > 0 && ValidMatrix(m) && 3 * (w * h) <= |before|
  {
    && ((x <= w && y < h) || (x == 0 && y == h))
    && (RowPrefixInImage(w, h, x, y);
        b == Ordered(before, palette, m, w, h, y * w + x))
  }

  /** Visiting pixel (x, y) moves the scan one pixel further along the row. */
  lemma OrderedToStep(b: seq<Byte>, before: seq<Byte>, palette: seq<Color>, m: ThresholdMatrix, w: nat, h: nat, x: nat, y: nat)
    requires |palette| > 0 && ValidMatrix(m) && 3 * (w * h) <= |before|
    requires x < w && y < h && OrderedTo(b, before, palette, m, w, h, x, y)
    ensures y * w + x < w * h
    ensures OrderedTo(OrderStep(b, palette, m, w, h, y * w + x), before, palette, m, w, h, x + 1, y)
  {
    InImage(w, h, x, y);
    OrderedNext(before, palette, m, w, h, y * w + x);
  }

  /** The end of a row is the start of the next. */
  lemma OrderedToNextRow(b: seq<Byte>, before: seq<Byte>, palette: seq<Color>, m: ThresholdMatrix, w: nat, h: nat, y: nat)
    requires |palette| > 0 && ValidMatrix(m) && 3 * (w * h) <= |before|
    requires y < h && OrderedTo(b, before, palette, m, w, h, w, y)
    ensures OrderedTo(b, before, palette, m, w, h, 0, y + 1)
  {
    RowEnd(w, h, y);
  }

  /** Before the scan nothing has changed; after the last row the whole image is scanned. */
  lemma OrderedToEnds(b: seq<Byte>, before: seq<Byte>, palette: seq<Color>, m: ThresholdMatrix, w: nat, h: nat)
    requires |palette| > 0 && ValidMatrix(m) && 3 * (w * h) <= |before|
    ensures OrderedTo(before, before, palette, m, w, h, 0, 0) || h == 0
    ensures OrderedTo(b, before, palette, m, w, h, 0, h) ==> b == Ordered(before, palette, m, w, h, w * h)
  {
  }

  /**
   * One iteration of the pixel loop of `apply_bayer_dithering`, for the pixel
   * at (cx, cy): after it the buffer holds the scan of `before` one pixel further.
   */
  method OrderPixel(buffer: array<Byte>, ghost before: seq<Byte>, palette: seq<Color>, matrix: ThresholdMatrix, cx: nat, cy: nat, width: nat, height: nat)
    requires |palette| > 0 && ValidMatrix(matrix)
    requires cx < width && cy < height && 3 * (width * height) <= |before|
    requires OrderedTo(buffer[..], before, palette, matrix, width, height, cx, cy)
    modifies buffer
    ensures OrderedTo(buffer[..], before, palette, matrix, width, height, cx + 1, cy)
  {
    CoordinatesOf(width, height, cx, cy);
    ghost var p := cy * width + cx;
    ghost var current := buffer[..];
    var i := 3 * (cy * width + cx);
    var matrixX := cx % matrix.size;
    var matrixY := cy % matrix.size;
    CellIndexBound(matrix.size, matrixX, matrixY);
    var threshold := matrix.values[matrixY * matrix.size + matrixX];
    assert threshold == ThresholdAt(matrix, cx, cy);
    var color := FromSlice(buffer[i .. i + 3]);
    assert color == PixelAt(current, p);
    color := PerturbColor(color, threshold);
    var newColor, _ := MapToPalette(color, palette);
    assert newColor == OrderedColor(PixelAt(current, p), palette, matrix, cx, cy);
    buffer[i] := newColor.r;
    buffer[i + 1] := newColor.g;
    buffer[i + 2] := newColor.b;
    assert buffer[..] == SetPixel(current, p, newColor);
    OrderStepAt(current, palette, matrix, width, height, cx, cy);
    OrderedToStep(current, before, palette, matrix, width, height, cx, cy);
  }

  /**
   * `apply_bayer_dithering`: a method without a threshold matrix returns at
   * once; otherwise every pixel of the image is perturbed by the threshold at
   * its position and replaced by its nearest palette color.
   */
  method ApplyBayerDithering(buffer: array<Byte>, ditherType: DitherMethod, palette: seq<Color>, width: nat, height: nat)
    requires |palette| > 0 && 3 * (width * height) <= buffer.Length
    modifies buffer
    ensures !ditherType.IsBayer() ==> buffer[..] == old(buffer[..])
    ensures ditherType.IsBayer() ==>
      buffer[..] == Ordered(old(buffer[..]), palette, MatrixOf(ditherType), width, height, width * height)
  {
    if !ditherType.IsBayer() {
      return;
    }
    var matrix := MatrixOf(ditherType);
    ghost var before := buffer[..];
    OrderedToEnds(before, before, palette, matrix, width, height);
    for cy := 0 to height
      invariant OrderedTo(buffer[..], before, palette, matrix, width, height, 0, cy)
    {
      for cx := 0 to width
        invariant OrderedTo(buffer[..], before, palette, matrix, width, height, cx, cy)
      {
        OrderPixel(buffer, before, palette, matrix, cx, cy, width, height);
      }
      OrderedToNextRow(buffer[..], before, palette, matrix, width, height, cy);
    }
    OrderedToEnds(buffer[..], before, palette, matrix, width, height);
  }
}
