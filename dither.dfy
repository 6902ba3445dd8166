/**
 * The entry point `dither` of src/dither.rs: it selects the palette, then
 * either quantizes every pixel to its nearest palette color (`None`), runs
 * ordered dithering (the Bayer methods) or runs error diffusion (every
 * other method).
 */
module Dither {
  import opened Palette
  import opened Pixels
  import opened DitherTables
  import opened Diffusion
  import opened OrderedDithering

  /** The palette slice `dither` selects. */
  function PaletteOf(sel: ColorPalette): (p: seq<Color>)
    ensures |p| > 0 && Black in p && White in p
    ensures sel == Monochrome ==> p == [Black, White]
  {
    PaletteFacts();
    match sel
    case Monochrome => PaletteMonochrome
    case Color8 => Palette8C
    case Color16 => Palette16C
  }

  // ---------------------------------------------------------------------------
  // Plain quantization (`DitherMethod::None`)
  // ---------------------------------------------------------------------------

  /** The body of the `None` pixel loop for pixel number p. */
  function QuantizeStep(buf: seq<Byte>, palette: seq<Color>, w: nat, h: nat, p: nat): (r: seq<Byte>)
    requires |palette| > 0
    requires p < w * h && 3 * (w * h) <= |buf|
    ensures |r| == |buf|
  {
    SetPixel(buf, p, Nearest(PixelAt(buf, p), palette))
  }

  /** The buffer after the first n pixels of the `None` scan. */
  function Quantized(buf: seq<Byte>, palette: seq<Color>, w: nat, h: nat, n: nat): (r: seq<Byte>)
    requires |palette| > 0
    requires n <= w * h && 3 * (w * h) <= |buf|
    ensures |r| == |buf|
    decreases n, 1
  {
    if n == 0 then buf
    else QuantizedVisited(buf, palette, w, h, n - 1)
  }

  /** The buffer once the `None` scan has visited pixel p. */
  function QuantizedVisited(buf: seq<Byte>, palette: seq<Color>, w: nat, h: nat, p: nat): (r: seq<Byte>)
    requires |palette| > 0
    requires p < w * h && 3 * (w * h) <= |buf|
    ensures |r| == |buf|
    decreases p + 1, 0
  {
    QuantizeStep(Quantized(buf, palette, w, h, p), palette, w, h, p)
  }

  /** One more pixel of the `None` scan. */
  lemma QuantizedNext(buf: seq<Byte>, palette: seq<Color>, w: nat, h: nat, p: nat)
    requires |palette| > 0
    requires p < w * h && 3 * (w * h) <= |buf|
    ensures Quantized(buf, palette, w, h, p + 1) == QuantizeStep(Quantized(buf, palette, w, h, p), palette, w, h, p)
  {
    assert Quantized(buf, palette, w, h, p + 1) == QuantizedVisited(buf, palette, w, h, p);
  }

  /** The `None` pixel step gives pixel p the nearest palette color to what it holds, and changes no other sample. */
  lemma QuantizeStepFrame(buf: seq<Byte>, palette: seq<Color>, w: nat, h: nat, p: nat)
    requires |palette| > 0
    requires p < w * h && 3 * (w * h) <= |buf|
    ensures SameBelow(QuantizeStep(buf, palette, w, h, p), buf, 3 * p)
    ensures SameFrom(QuantizeStep(buf, palette, w, h, p), buf, 3 * p + 3)
    ensures PixelAt(QuantizeStep(buf, palette, w, h, p), p) == Nearest(PixelAt(buf, p), palette)
  {
    SetPixelFrame(buf, p, Nearest(PixelAt(buf, p), palette));
  }

  /** Visiting pixel p of the `None` scan changes no other pixel. */
  lemma QuantizedStep(buf: seq<Byte>, palette: seq<Color>, w: nat, h: nat, p: nat)
    requires |palette| > 0
    requires p < w * h && 3 * (w * h) <= |buf|
    ensures SameBelow(Quantized(buf, palette, w, h, p + 1), Quantized(buf, palette, w, h, p), 3 * p)
    ensures SameFrom(Quantized(buf, palette, w, h, p + 1), Quantized(buf, palette, w, h, p), 3 * p + 3)
    ensures PixelAt(Quantized(buf, palette, w, h, p + 1), p) == Nearest(PixelAt(Quantized(buf, palette, w, h, p), p), palette)
  {
    QuantizedNext(buf, palette, w, h, p);
    QuantizeStepFrame(Quantized(buf, palette, w, h, p), palette, w, h, p);
  }

  /** The pixels from n on are still as they were, and so is everything past the image. */
  lemma {:induction false} QuantizedUntouched(buf: seq<Byte>, palette: seq<Color>, w: nat, h: nat, n: nat)
    requires |palette| > 0
    requires n <= w * h && 3 * (w * h) <= |buf|
    ensures SameFrom(Quantized(buf, palette, w, h, n), buf, 3 * n)
  {
    if n > 0 {
      var p: nat := n - 1;
      QuantizedUntouched(buf, palette, w, h, p);
      QuantizedStep(buf, palette, w, h, p);
    }
  }

  /** Once pixel p has been visited, later steps never change it or any pixel before it. */
  lemma {:induction false} QuantizedSettles(buf: seq<Byte>, palette: seq<Color>, w: nat, h: nat, n: nat, n2: nat)
    requires |palette| > 0
    requires n <= n2 <= w * h && 3 * (w * h) <= |buf|
    ensures SameBelow(Quantized(buf, palette, w, h, n2), Quantized(buf, palette, w, h, n), 3 * n)
    decreases n2
  {
    if n2 > n {
      var p: nat := n2 - 1;
      QuantizedSettles(buf, palette, w, h, n, p);
      QuantizedStep(buf, palette, w, h, p);
      SameBelowTrans(Quantized(buf, palette, w, h, n2), Quantized(buf, palette, w, h, p), Quantized(buf, palette, w, h, n), 3 * p, 3 * n);
    } else {
      SameBelowRefl(Quantized(buf, palette, w, h, n), 3 * n);
    }
  }

  /** `None` is pixelwise: every pixel ends up as the nearest palette color to its original color. */
  lemma QuantizedPixel(buf: seq<Byte>, palette: seq<Color>, w: nat, h: nat, p: nat)
    requires |palette| > 0
    requires p < w * h && 3 * (w * h) <= |buf|
    ensures PixelAt(Quantized(buf, palette, w, h, w * h), p) == Nearest(PixelAt(buf, p), palette)
  {
    QuantizedUntouched(buf, palette, w, h, p);
    PixelAtAgree(Quantized(buf, palette, w, h, p), buf, p);
    QuantizedStep(buf, palette, w, h, p);
    QuantizedSettles(buf, palette, w, h, p + 1, w * h);
    PixelAtAgree(Quantized(buf, palette, w, h, w * h), Quantized(buf, palette, w, h, p + 1), p);
  }

  /** A pixel that already holds a palette color is left as it is, and so is the rest of the buffer. */
  lemma QuantizeStepOfMember(buf: seq<Byte>, palette: seq<Color>, w: nat, h: nat, p: nat)
    requires |palette| > 0
    requires p < w * h && 3 * (w * h) <= |buf|
    requires PixelAt(buf, p) in palette
    ensures QuantizeStep(buf, palette, w, h, p) == buf
  {
    NearestOfMember(PixelAt(buf, p), palette);
    SetPixelOwnColor(buf, p);
  }

  /** An image made only of palette colors is left as it is. */
  lemma {:induction false} QuantizedFixedPoint(buf: seq<Byte>, palette: seq<Color>, w: nat, h: nat, n: nat)
    requires |palette| > 0
    requires n <= w * h && 3 * (w * h) <= |buf|
    requires AllInPalette(buf, palette, w * h)
    ensures Quantized(buf, palette, w, h, n) == buf
  {
    if n > 0 {
      var p: nat := n - 1;
      QuantizedFixedPoint(buf, palette, w, h, p);
      QuantizedNext(buf, palette, w, h, p);
      QuantizeStepOfMember(buf, palette, w, h, p);
    }
  }

  // ---------------------------------------------------------------------------
  // The entry point
  // ---------------------------------------------------------------------------

  /** What `dither` leaves in a buffer, by method. */
  function Dithered(buf: seq<Byte>, m: DitherMethod, sel: ColorPalette, w: nat, h: nat): (r: seq<Byte>)
    requires 3 * (w * h) <= |buf|
    ensures |r| == |buf|
  {
    var palette := PaletteOf(sel);
    if m.None? then Quantized(buf, palette, w, h, w * h)
    else if m.IsBayer() then Ordered(buf, palette, MatrixOf(m), w, h, w * h)
    else Diffused(buf, palette, KernelOf(m), w, h, w * h)
  }

  /** Every method leaves every pixel of the image a color of the selected palette. */
  lemma DitheredAllInPalette(buf: seq<Byte>, m: DitherMethod, sel: ColorPalette, w: nat, h: nat)
    requires 3 * (w * h) <= |buf|
    ensures AllInPalette(Dithered(buf, m, sel, w, h), PaletteOf(sel), w * h)
  {
    var palette := PaletteOf(sel);
    if m.None? {
      forall p | 0 <= p < w * h
        ensures PixelAt(Quantized(buf, palette, w, h, w * h), p) in palette
      {
        QuantizedPixel(buf, palette, w, h, p);
      }
    } else if m.IsBayer() {
      OrderedAllInPalette(buf, palette, MatrixOf(m), w, h);
    } else {
      DiffusedAllInPalette(buf, palette, KernelOf(m), w, h, w * h);
    }
  }

  /** With the monochrome palette every pixel of the image ends up black or white. */
  lemma DitheredMonochrome(buf: seq<Byte>, m: DitherMethod, w: nat, h: nat, p: nat)
    requires 3 * (w * h) <= |buf| && p < w * h
    ensures PixelAt(Dithered(buf, m, Monochrome, w, h), p) in {Black, White}
  {
    DitheredAllInPalette(buf, m, Monochrome, w, h);
  }

  /** No method writes a sample past the image. */
  lemma DitheredTail(buf: seq<Byte>, m: DitherMethod, sel: ColorPalette, w: nat, h: nat)
    requires 3 * (w * h) <= |buf|
    ensures SameFrom(Dithered(buf, m, sel, w, h), buf, 3 * (w * h))
  {
    var palette := PaletteOf(sel);
    if m.None? {
      QuantizedUntouched(buf, palette, w, h, w * h);
    } else if m.IsBayer() {
      OrderedUntouched(buf, palette, MatrixOf(m), w, h, w * h);
    } else {
      DiffusedTail(buf, palette, KernelOf(m), w, h, w * h);
    }
  }

  /**
   * Quantization and error diffusion leave an image of palette colors as it
   * is, so dithering twice with them is dithering once. (Ordered dithering
   * does not: see DitherBayerMovesWhite.)
   */
  lemma DitheredIdempotent(buf: seq<Byte>, m: DitherMethod, sel: ColorPalette, w: nat, h: nat)
    requires 3 * (w * h) <= |buf| && !m.IsBayer()
    ensures Dithered(Dithered(buf, m, sel, w, h), m, sel, w, h) == Dithered(buf, m, sel, w, h)
  {
    var palette := PaletteOf(sel);
    var once := Dithered(buf, m, sel, w, h);
    DitheredAllInPalette(buf, m, sel, w, h);
    if m.None? {
      QuantizedFixedPoint(once, palette, w, h, w * h);
    } else {
      DiffusedFixedPoint(once, palette, KernelOf(m), w, h, w * h);
    }
  }

  /** Unit-test scenario: `None` with the monochrome palette turns grey 128 white and grey 64 black. */
  lemma DitherNoneScenario(buf: seq<Byte>)
    requires buf == [128, 128, 128, 64, 64, 64]
    ensures Dithered(buf, None, Monochrome, 2, 1) == [255, 255, 255, 0, 0, 0]
  {
    var r := Dithered(buf, None, Monochrome, 2, 1);
    assert PixelAt(buf, 0) == Color(128, 128, 128);
    assert PixelAt(buf, 1) == Color(64, 64, 64);
    NearestMonochromeBySum(Color(128, 128, 128));
    NearestMonochromeBySum(Color(64, 64, 64));
    QuantizedPixel(buf, PaletteMonochrome, 2, 1, 0);
    QuantizedPixel(buf, PaletteMonochrome, 2, 1, 1);
    TwoPixels(r);
  }

  /** A buffer of two pixels is the samples of its two colors. */
  lemma TwoPixels(r: seq<Byte>)
    requires |r| == 6
    ensures r == Channels(PixelAt(r, 0)) + Channels(PixelAt(r, 1))
  {
    assert r == r[0 .. 3] + r[3 .. 6];
  }

  /** Every method changes a buffer in which some pixel of the image is not a palette color. */
  lemma DitheredChanges(buf: seq<Byte>, m: DitherMethod, sel: ColorPalette, w: nat, h: nat, p: nat)
    requires 3 * (w * h) <= |buf| && p < w * h
    requires PixelAt(buf, p) !in PaletteOf(sel)
    ensures Dithered(buf, m, sel, w, h) != buf
  {
    DitheredAllInPalette(buf, m, sel, w, h);
    assert PixelAt(Dithered(buf, m, sel, w, h), p) in PaletteOf(sel);
  }

  /** Unit-test scenario: Floyd-Steinberg with the 8-color palette changes a two-pixel buffer. */
  lemma DitherModifiesScenario(buf: seq<Byte>)
    requires buf == [100, 150, 200, 50, 75, 25]
    ensures Dithered(buf, FloydSteinberg, Color8, 2, 1) != buf
  {
    assert PixelAt(buf, 0) == Color(100, 150, 200);
    assert Color(100, 150, 200) !in Palette8C;
    DitheredChanges(buf, FloydSteinberg, Color8, 2, 1, 0);
  }

  /**
   * A one-pixel white image under 2x2 Bayer dithering with the monochrome
   * palette turns black: the threshold at (0, 0) is 0. Ordered dithering
   * therefore does not leave an image of palette colors as it is.
   */
  lemma DitherBayerMovesWhite()
    ensures Dithered([255, 255, 255], Bayer2x2, Monochrome, 1, 1) == [0, 0, 0]
  {
    var buf: seq<Byte> := [255, 255, 255];
    var m := MatrixOf(Bayer2x2);
    var r := Dithered(buf, Bayer2x2, Monochrome, 1, 1);
    OrderedPixel(buf, PaletteMonochrome, m, 1, 1, 0, 1);
    assert PixelAt(buf, 0) == White;
    assert Column(1, 1, 0) == 0 && Row(1, 1, 0) == 0;
    assert ThresholdAt(m, 0, 0) == 0.0;
    OrderedWhiteAtZeroTurnsBlack(m, 0, 0);
    assert r[0 .. 3] == [0, 0, 0];
  }

  // ---------------------------------------------------------------------------
  // The in-place implementation
  // ---------------------------------------------------------------------------

  /**
   * The invariant of the `None` pixel loops: the buffer holds the scan of
   * `before` through the rows above row y and the first x pixels of row y.
   */
  ghost predicate QuantizedTo(b: seq<Byte>, before: seq<Byte>, palette: seq<Color>, w: nat, h: nat, x: nat, y: nat)
    requires |palette| > 0 && 3 * (w * h) <= |before|
  {
    && ((x <= w && y < h) || (x == 0 && y == h))
    && (RowPrefixInImage(w, h, x, y);
        b == Quantized(before, palette, w, h, y * w + x))
  }

  /** Visiting pixel (x, y) moves the `None` scan one pixel further along the row. */
  lemma QuantizedToStep(b: seq<Byte>, before: seq<Byte>, palette: seq<Color>, w: nat, h: nat, x: nat, y: nat)
    requires |palette| > 0 && 3 * (w * h) <= |before|
    requires x < w && y < h && QuantizedTo(b, before, palette, w, h, x, y)
    ensures y * w + x < w * h
    ensures QuantizedTo(QuantizeStep(b, palette, w, h, y * w + x), before, palette, w, h, x + 1, y)
  {
    InImage(w, h, x, y);
    QuantizedNext(before, palette, w, h, y * w + x);
  }

  /** The end of a row is the start of the next. */
  lemma QuantizedToNextRow(b: seq<Byte>, before: seq<Byte>, palette: seq<Color>, w: nat, h: nat, y: nat)
    requires |palette| > 0 && 3 * (w * h) <= |before|
    requires y < h && QuantizedTo(b, before, palette, w, h, w, y)
    ensures QuantizedTo(b, before, palette, w, h, 0, y + 1)
  {
    RowEnd(w, h, y);
  }

  /** Before the scan nothing has changed; after the last row the whole image is scanned. */
  lemma QuantizedToEnds(b: seq<Byte>, before: seq<Byte>, palette: seq<Color>, w: nat, h: nat)
    requires |palette| > 0 && 3 * (w * h) <= |before|
    ensures QuantizedTo(before, before, palette, w, h, 0, 0) || h == 0
    ensures QuantizedTo(b, before, palette, w, h, 0, h) ==> b == Quantized(before, palette, w, h, w * h)
  {
  }

  /** One iteration of the `None` pixel loop, for the pixel at (cx, cy). */
  method QuantizePixel(buffer: array<Byte>, ghost before: seq<Byte>, palette: seq<Color>, cx: nat, cy: nat, width: nat, height: nat)
    requires |palette| > 0
    requires cx < width && cy < height && 3 * (width * height) <= |before|
    requires QuantizedTo(buffer[..], before, palette, width, height, cx, cy)
    modifies buffer
    ensures QuantizedTo(buffer[..], before, palette, width, height, cx + 1, cy)
  {
    CoordinatesOf(width, height, cx, cy);
    ghost var p := cy * width + cx;
    ghost var current := buffer[..];
    var i := 3 * (cy * width + cx);
    var origColor := FromSlice(buffer[i .. i + 3]);
    assert origColor == PixelAt(current, p);
    var newColor, _ := MapToPalette(origColor, palette);
    buffer[i] := newColor.r;
    buffer[i + 1] := newColor.g;
    buffer[i + 2] := newColor.b;
    assert buffer[..] == SetPixel(current, p, newColor);
    QuantizedToStep(current, before, palette, width, height, cx, cy);
  }

  /** The `None` branch of `dither`: every pixel in raster order is replaced by its nearest palette color. */
  method Quantize(buffer: array<Byte>, palette: seq<Color>, width: nat, height: nat)
    requires |palette| > 0 && 3 * (width * height) <= buffer.Length
    modifies buffer
    ensures buffer[..] == Quantized(old(buffer[..]), palette, width, height, width * height)
  {
    ghost var before := buffer[..];
    QuantizedToEnds(before, before, palette, width, height);
    for cy := 0 to height
      invariant QuantizedTo(buffer[..], before, palette, width, height, 0, cy)
    {
      for cx := 0 to width
        invariant QuantizedTo(buffer[..], before, palette, width, height, cx, cy)
      {
        QuantizePixel(buffer, before, palette, cx, cy, width, height);
      }
      QuantizedToNextRow(buffer[..], before, palette, width, height, cy);
    }
    QuantizedToEnds(buffer[..], before, palette, width, height);
  }

  /**
   * `dither`: select the palette, then quantize every pixel in raster order
   * (`None`), or run ordered dithering or error diffusion.
   */
  method Dither(buffer: array<Byte>, ditherType: DitherMethod, colorPalette: ColorPalette, width: nat, height: nat)
    requires 3 * (width * height) <= buffer.Length
    modifies buffer
    ensures buffer[..] == Dithered(old(buffer[..]), ditherType, colorPalette, width, height)
  {
    var palette := PaletteOf(colorPalette);
    match ditherType
    case None =>
      Quantize(buffer, palette, width, height);
    case Bayer2x2 | Bayer4x4 | Bayer8x8 =>
      ApplyBayerDithering(buffer, ditherType, palette, width, height);
    case _ =>
      ApplyErrorDiffusion(buffer, ditherType, palette, width, height);
  }
}
