/**
 * Error diffusion (`apply_error_diffusion` in src/dither.rs): pixels are
 * visited in raster order, each is replaced by its nearest palette color and
 * the quantization error is spread over the later neighbours the kernel
 * covers.
 *
 * The f32 arithmetic of the source is idealised: the error is exact (it is an
 * integer below 256 in magnitude), the product with the kernel weight is a
 * real, and `round().clamp(0.0, 255.0) as u8` is rounding half away from zero
 * followed by clamping to a byte.
 */
module Diffusion {
  import opened Palette
  import opened Pixels
  import opened DitherTables

  // ---------------------------------------------------------------------------
  // Per-sample arithmetic
  // ---------------------------------------------------------------------------

  /** `f32::round`: the nearest integer, halfway cases away from zero. */
  function RoundHalfAway(x: real): (n: int)
    ensures x - 0.5 <= n as real <= x + 0.5
    ensures 0.0 <= x ==> x - 0.5 < n as real
    ensures x < 0.0 ==> n as real < x + 0.5
  {
    if 0.0 <= x then (x + 0.5).Floor else -((0.5 - x).Floor)
  }

  /** Rounding commutes with negation (the halfway cases go away from zero on both sides). */
  lemma RoundHalfAwayOdd(x: real)
    ensures RoundHalfAway(-x) == -RoundHalfAway(x)
  {
    if x == 0.0 {
      assert -x == 0.0;
    }
  }

  /** Rounding an integer gives it back. */
  lemma RoundHalfAwayOfInt(n: int)
    ensures RoundHalfAway(n as real) == n
  {
  }

  /** `clamp(0.0, 255.0) as u8` on an integral value. */
  function ClampByte(n: int): (b: Byte)
    ensures 0 <= n <= 0xff ==> b == n
    ensures n < 0 ==> b == 0
    ensures 0xff < n ==> b == 0xff
  {
    if n < 0 then 0 else if 0xff < n then 0xff else n
  }

  /** One sample of a neighbour after receiving `w` of the error `e`. */
  function DiffuseChannel(v: Byte, e: int, w: real): (r: Byte)
    ensures e == 0 ==> r == v
    ensures 0.0 <= w && 0 <= e ==> v <= r
    ensures 0.0 <= w && e <= 0 ==> r <= v
  {
    var x := v as real + e as real * w;
    assert 0.0 <= w && 0 <= e ==> v as real <= x;
    assert 0.0 <= w && e <= 0 ==> x <= v as real;
    ClampByte(RoundHalfAway(x))
  }

  /**
   * A neighbour after receiving `w` of the error `qe`: a zero error leaves it
   * as it is, and with a non-negative weight each sample moves toward the
   * sign of its error.
   */
  function DiffuseColor(c: Color, qe: QuantizationError, w: real): (d: Color)
    ensures qe == NoError ==> d == c
    ensures 0.0 <= w ==> (0 <= qe.r ==> c.r <= d.r) && (qe.r <= 0 ==> d.r <= c.r)
    ensures 0.0 <= w ==> (0 <= qe.g ==> c.g <= d.g) && (qe.g <= 0 ==> d.g <= c.g)
    ensures 0.0 <= w ==> (0 <= qe.b ==> c.b <= d.b) && (qe.b <= 0 ==> d.b <= c.b)
  {
    Color(DiffuseChannel(c.r, qe.r, w), DiffuseChannel(c.g, qe.g, w), DiffuseChannel(c.b, qe.b, w))
  }

  // ---------------------------------------------------------------------------
  // Spreading the error of pixel (cx, cy) over the kernel's cells
  // ---------------------------------------------------------------------------

  /** Column offset of the neighbour that kernel cell `ki` targets. */
  function TargetX(k: Kernel, ki: nat, cx: nat): (x: int)
    requires k.width > 0
    ensures cx - k.xOffset <= x < cx - k.xOffset + k.width
  {
    cx + ki % k.width - k.xOffset
  }

  /** Row of the neighbour that kernel cell `ki` targets: the kernel's first row is the current row. */
  function TargetY(k: Kernel, ki: nat, cy: nat): (y: nat)
    requires k.width > 0
    ensures ki < k.width <==> y == cy
    ensures ki < k.width * k.height ==> y < cy + k.height
  {
    RowOfCell(k, ki);
    cy + ki / k.width
  }

  lemma RowOfCell(k: Kernel, ki: nat)
    requires k.width > 0
    ensures ki < k.width * k.height ==> ki / k.width < k.height
  {
    if ki < k.width * k.height {
      RowInImage(k.width, k.height, ki);
    }
  }

  /**
   * Kernel cell `ki` is applied from pixel (cx, cy): its weight is non-zero,
   * it is not the current pixel and its target lies inside the image.
   */
  predicate Applies(k: Kernel, ki: nat, cx: nat, cy: nat, w: nat, h: nat): (applied: bool)
    requires WellFormedKernel(k) && ki < |k.weights|
    ensures applied ==> k.weights[ki] != 0.0 && 0 <= TargetX(k, ki, cx) < w && TargetY(k, ki, cy) < h
    ensures ki <= k.xOffset ==> !applied
  {
    var nx, ny := TargetX(k, ki, cx), TargetY(k, ki, cy);
    && k.weights[ki] != 0.0
    && !(nx == cx && ny == cy)
    && 0 <= nx < w && ny < h
  }

  /** Every applied cell targets a pixel after (cx, cy) in raster order and inside the image. */
  lemma AppliedTargetIsLater(k: Kernel, ki: nat, cx: nat, cy: nat, w: nat, h: nat)
    requires WellFormedKernel(k) && ki < |k.weights| && cx < w && cy < h
    requires Applies(k, ki, cx, cy, w, h)
    ensures cy * w + cx < TargetY(k, ki, cy) * w + TargetX(k, ki, cx) < w * h
  {
    var nx, ny := TargetX(k, ki, cx), TargetY(k, ki, cy);
    if ki < k.width {
      assert ki / k.width == 0 && ki % k.width == ki;
      assert k.xOffset < ki;
      RasterLater(w, cx, cy, nx, ny);
    } else {
      assert ki / k.width > 0;
      RasterLater(w, cx, cy, nx, ny);
    }
    InImage(w, h, nx, ny);
  }

  /** The neighbour update for kernel cell `ki`: the three stores of one loop iteration. */
  function SpreadCell(buf: seq<Byte>, k: Kernel, ki: nat, cx: nat, cy: nat, qe: QuantizationError, w: nat, h: nat): (r: seq<Byte>)
    requires WellFormedKernel(k) && ki < |k.weights|
    requires cx < w && cy < h && 3 * (w * h) <= |buf|
    ensures |r| == |buf|
  {
    InImage(w, h, cx, cy);
    if Applies(k, ki, cx, cy, w, h) then
      var t: nat := TargetY(k, ki, cy) * w + TargetX(k, ki, cx);
      AppliedTargetIsLater(k, ki, cx, cy, w, h);
      SetPixel(buf, t, DiffuseColor(PixelAt(buf, t), qe, k.weights[ki]))
    else
      buf
  }

  /** Kernel cells 0 .. n - 1 applied in row-major order. */
  function SpreadCells(buf: seq<Byte>, k: Kernel, cx: nat, cy: nat, qe: QuantizationError, w: nat, h: nat, n: nat): (r: seq<Byte>)
    requires WellFormedKernel(k) && n <= |k.weights|
    requires cx < w && cy < h && 3 * (w * h) <= |buf|
    ensures |r| == |buf|
  {
    if n == 0 then buf
    else SpreadCell(SpreadCells(buf, k, cx, cy, qe, w, h, n - 1), k, n - 1, cx, cy, qe, w, h)
  }

  /** A cell changes only a pixel after (cx, cy) inside the image. */
  lemma SpreadCellFrame(buf: seq<Byte>, k: Kernel, ki: nat, cx: nat, cy: nat, qe: QuantizationError, w: nat, h: nat)
    requires WellFormedKernel(k) && ki < |k.weights|
    requires cx < w && cy < h && 3 * (w * h) <= |buf|
    ensures cy * w + cx < w * h
    ensures SameBelow(SpreadCell(buf, k, ki, cx, cy, qe, w, h), buf, 3 * (cy * w + cx + 1))
    ensures SameFrom(SpreadCell(buf, k, ki, cx, cy, qe, w, h), buf, 3 * (w * h))
  {
    InImage(w, h, cx, cy);
    if Applies(k, ki, cx, cy, w, h) {
      AppliedTargetIsLater(k, ki, cx, cy, w, h);
      var t: nat := TargetY(k, ki, cy) * w + TargetX(k, ki, cx);
      SetPixelFrame(buf, t, DiffuseColor(PixelAt(buf, t), qe, k.weights[ki]));
    }
  }

  /** Spreading the error of (cx, cy) changes only pixels after it inside the image. */
  lemma {:induction false} SpreadCellsFrame(buf: seq<Byte>, k: Kernel, cx: nat, cy: nat, qe: QuantizationError, w: nat, h: nat, n: nat)
    requires WellFormedKernel(k) && n <= |k.weights|
    requires cx < w && cy < h && 3 * (w * h) <= |buf|
    ensures cy * w + cx < w * h
    ensures SameBelow(SpreadCells(buf, k, cx, cy, qe, w, h, n), buf, 3 * (cy * w + cx + 1))
    ensures SameFrom(SpreadCells(buf, k, cx, cy, qe, w, h, n), buf, 3 * (w * h))
  {
    InImage(w, h, cx, cy);
    if n > 0 {
      var ki: nat := n - 1;
      var prev := SpreadCells(buf, k, cx, cy, qe, w, h, ki);
      SpreadCellsFrame(buf, k, cx, cy, qe, w, h, ki);
      SpreadCellFrame(prev, k, ki, cx, cy, qe, w, h);
      Compose(buf, prev, SpreadCell(prev, k, ki, cx, cy, qe, w, h), 3 * (cy * w + cx + 1), 3 * (w * h));
    }
  }

  lemma Compose(a: seq<Byte>, b: seq<Byte>, c: seq<Byte>, lo: nat, hi: nat)
    requires SameBelow(b, a, lo) && SameFrom(b, a, hi)
    requires SameBelow(c, b, lo) && SameFrom(c, b, hi)
    ensures SameBelow(c, a, lo) && SameFrom(c, a, hi)
  {
  }

  lemma SameBelowShorter(a: seq<Byte>, b: seq<Byte>, m: nat, m2: nat)
    requires SameBelow(a, b, m) && m2 <= m
    ensures SameBelow(a, b, m2)
  {
  }

  lemma SameFromShorter(a: seq<Byte>, b: seq<Byte>, m: nat, m2: nat)
    requires SameFrom(a, b, m) && m <= m2
    ensures SameFrom(a, b, m2)
  {
  }

  /** A cell spreading a zero error changes nothing. */
  lemma SpreadCellNoError(buf: seq<Byte>, k: Kernel, ki: nat, cx: nat, cy: nat, w: nat, h: nat)
    requires WellFormedKernel(k) && ki < |k.weights|
    requires cx < w && cy < h && 3 * (w * h) <= |buf|
    ensures SpreadCell(buf, k, ki, cx, cy, NoError, w, h) == buf
  {
    if Applies(k, ki, cx, cy, w, h) {
      var t: nat := TargetY(k, ki, cy) * w + TargetX(k, ki, cx);
      AppliedTargetIsLater(k, ki, cx, cy, w, h);
      SetPixelOwnColor(buf, t);
    }
  }

  /** Spreading a zero error changes nothing. */
  lemma {:induction false} SpreadNoError(buf: seq<Byte>, k: Kernel, cx: nat, cy: nat, w: nat, h: nat, n: nat)
    requires WellFormedKernel(k) && n <= |k.weights|
    requires cx < w && cy < h && 3 * (w * h) <= |buf|
    ensures SpreadCells(buf, k, cx, cy, NoError, w, h, n) == buf
  {
    if n > 0 {
      var ki: nat := n - 1;
      SpreadNoError(buf, k, cx, cy, w, h, ki);
      SpreadCellsNext(buf, k, cx, cy, NoError, w, h, ki);
      SpreadCellNoError(buf, k, ki, cx, cy, w, h);
    }
  }

  // ---------------------------------------------------------------------------
  // The raster scan
  // ---------------------------------------------------------------------------

  /** The body of the pixel loop for pixel number p = cy * w + cx. */
  function PixelStep(buf: seq<Byte>, palette: seq<Color>, k: Kernel, w: nat, h: nat, p: nat): (r: seq<Byte>)
    requires |palette| > 0 && WellFormedKernel(k)
    requires p < w * h && 3 * (w * h) <= |buf|
    ensures |r| == |buf|
  {
    var orig := PixelAt(buf, p);
    var chosen := Nearest(orig, palette);
    SpreadCells(SetPixel(buf, p, chosen), k, Column(w, h, p), Row(w, h, p), Residual(orig, chosen), w, h, |k.weights|)
  }

  /** The pixel loop's body leaves the pixels before p alone and writes nothing past the image. */
  lemma PixelStepFrame(buf: seq<Byte>, palette: seq<Color>, k: Kernel, w: nat, h: nat, p: nat)
    requires |palette| > 0 && WellFormedKernel(k)
    requires p < w * h && 3 * (w * h) <= |buf|
    ensures SameBelow(PixelStep(buf, palette, k, w, h, p), buf, 3 * p)
    ensures SameFrom(PixelStep(buf, palette, k, w, h, p), buf, 3 * (w * h))
  {
    var x, y := Column(w, h, p), Row(w, h, p);
    var orig := PixelAt(buf, p);
    var chosen := Nearest(orig, palette);
    var s := SetPixel(buf, p, chosen);
    var r := SpreadCells(s, k, x, y, Residual(orig, chosen), w, h, |k.weights|);
    assert r == PixelStep(buf, palette, k, w, h, p);
    assert SameBelow(s, buf, 3 * p) && SameFrom(s, buf, 3 * (w * h)) by {
      SetPixelFrame(buf, p, chosen);
      SameFromShorter(s, buf, 3 * p + 3, 3 * (w * h));
    }
    assert SameBelow(r, s, 3 * p) && SameFrom(r, s, 3 * (w * h)) by {
      SpreadCellsFrame(s, k, x, y, Residual(orig, chosen), w, h, |k.weights|);
      assert 3 * (y * w + x + 1) == 3 * p + 3;
      SameBelowShorter(r, s, 3 * p + 3, 3 * p);
    }
    Compose(buf, s, r, 3 * p, 3 * (w * h));
  }

  /** The pixel loop's body gives pixel p its nearest palette color: the error goes only to later pixels. */
  lemma PixelStepColor(buf: seq<Byte>, palette: seq<Color>, k: Kernel, w: nat, h: nat, p: nat)
    requires |palette| > 0 && WellFormedKernel(k)
    requires p < w * h && 3 * (w * h) <= |buf|
    ensures PixelAt(PixelStep(buf, palette, k, w, h, p), p) == Nearest(PixelAt(buf, p), palette)
  {
    var x, y := Column(w, h, p), Row(w, h, p);
    var orig := PixelAt(buf, p);
    var chosen := Nearest(orig, palette);
    var s := SetPixel(buf, p, chosen);
    var r := SpreadCells(s, k, x, y, Residual(orig, chosen), w, h, |k.weights|);
    assert r == PixelStep(buf, palette, k, w, h, p);
    assert PixelAt(s, p) == chosen by {
      SetPixelFrame(buf, p, chosen);
    }
    assert PixelAt(r, p) == PixelAt(s, p) by {
      SpreadCellsFrame(s, k, x, y, Residual(orig, chosen), w, h, |k.weights|);
      assert 3 * (y * w + x + 1) == 3 * p + 3;
      PixelAtAgree(r, s, p);
    }
  }

  /** The buffer after the first n pixels of the scan. */
  function Diffused(buf: seq<Byte>, palette: seq<Color>, k: Kernel, w: nat, h: nat, n: nat): (r: seq<Byte>)
    requires |palette| > 0 && WellFormedKernel(k)
    requires n <= w * h && 3 * (w * h) <= |buf|
    ensures |r| == |buf|
    decreases n, 1
  {
    if n == 0 then buf
    else Visited(buf, palette, k, w, h, n - 1)
  }

  /** The buffer once the scan has visited pixel p: the pixel loop's body applied to the pixels before it. */
  function Visited(buf: seq<Byte>, palette: seq<Color>, k: Kernel, w: nat, h: nat, p: nat): (r: seq<Byte>)
    requires |palette| > 0 && WellFormedKernel(k)
    requires p < w * h && 3 * (w * h) <= |buf|
    ensures |r| == |buf|
    decreases p + 1, 0
  {
    PixelStep(Diffused(buf, palette, k, w, h, p), palette, k, w, h, p)
  }

  /** One more pixel of the scan. */
  lemma DiffusedNext(buf: seq<Byte>, palette: seq<Color>, k: Kernel, w: nat, h: nat, p: nat, n: nat)
    requires |palette| > 0 && WellFormedKernel(k)
    requires n == p + 1 <= w * h && 3 * (w * h) <= |buf|
    ensures Diffused(buf, palette, k, w, h, n) == PixelStep(Diffused(buf, palette, k, w, h, p), palette, k, w, h, p)
  {
    assert Diffused(buf, palette, k, w, h, n) == Visited(buf, palette, k, w, h, p);
  }

  /** The scan writes nothing past the image. */
  lemma {:induction false} DiffusedTail(buf: seq<Byte>, palette: seq<Color>, k: Kernel, w: nat, h: nat, n: nat)
    requires |palette| > 0 && WellFormedKernel(k)
    requires n <= w * h && 3 * (w * h) <= |buf|
    ensures SameFrom(Diffused(buf, palette, k, w, h, n), buf, 3 * (w * h))
  {
    if n > 0 {
      var p: nat := n - 1;
      DiffusedTail(buf, palette, k, w, h, p);
      DiffusedStep(buf, palette, k, w, h, p, n);
    }
  }

  /** Once pixel p has been visited, later steps never change it or any pixel before it. */
  lemma {:induction false} DiffusedSettles(buf: seq<Byte>, palette: seq<Color>, k: Kernel, w: nat, h: nat, n: nat, m: nat)
    requires |palette| > 0 && WellFormedKernel(k)
    requires n <= m <= w * h && 3 * (w * h) <= |buf|
    ensures SameBelow(Diffused(buf, palette, k, w, h, m), Diffused(buf, palette, k, w, h, n), 3 * n)
    decreases m
  {
    if m > n {
      var m1: nat := m - 1;
      DiffusedSettles(buf, palette, k, w, h, n, m1);
      DiffusedStep(buf, palette, k, w, h, m1, m);
      SameBelowTrans(Diffused(buf, palette, k, w, h, m), Diffused(buf, palette, k, w, h, m1), Diffused(buf, palette, k, w, h, n), 3 * m1, 3 * n);
    } else {
      SameBelowRefl(Diffused(buf, palette, k, w, h, n), 3 * n);
    }
  }

  /** Visiting pixel m1 quantizes it, and changes neither the pixels before it nor anything past the image. */
  lemma DiffusedStep(buf: seq<Byte>, palette: seq<Color>, k: Kernel, w: nat, h: nat, m1: nat, m: nat)
    requires |palette| > 0 && WellFormedKernel(k)
    requires m == m1 + 1 <= w * h && 3 * (w * h) <= |buf|
    ensures SameBelow(Diffused(buf, palette, k, w, h, m), Diffused(buf, palette, k, w, h, m1), 3 * m1)
    ensures SameFrom(Diffused(buf, palette, k, w, h, m), Diffused(buf, palette, k, w, h, m1), 3 * (w * h))
    ensures PixelAt(Diffused(buf, palette, k, w, h, m), m1) == Nearest(PixelAt(Diffused(buf, palette, k, w, h, m1), m1), palette)
  {
    DiffusedNext(buf, palette, k, w, h, m1, m);
    PixelStepFrame(Diffused(buf, palette, k, w, h, m1), palette, k, w, h, m1);
    PixelStepColor(Diffused(buf, palette, k, w, h, m1), palette, k, w, h, m1);
  }

  /** Every visited pixel holds the nearest palette color to what it held when it was visited. */
  lemma DiffusedPixel(buf: seq<Byte>, palette: seq<Color>, k: Kernel, w: nat, h: nat, p: nat, n: nat)
    requires |palette| > 0 && WellFormedKernel(k)
    requires p < n <= w * h && 3 * (w * h) <= |buf|
    ensures PixelAt(Diffused(buf, palette, k, w, h, n), p)
         == Nearest(PixelAt(Diffused(buf, palette, k, w, h, p), p), palette)
  {
    DiffusedStep(buf, palette, k, w, h, p, p + 1);
    DiffusedSettles(buf, palette, k, w, h, p + 1, n);
    PixelAtAgree(Diffused(buf, palette, k, w, h, n), Diffused(buf, palette, k, w, h, p + 1), p);
  }

  /** The first pixel is quantized from its original color: no error has reached it. */
  lemma DiffusedFirstPixel(buf: seq<Byte>, palette: seq<Color>, k: Kernel, w: nat, h: nat)
    requires |palette| > 0 && WellFormedKernel(k)
    requires 0 < w * h && 3 * (w * h) <= |buf|
    ensures PixelAt(Diffused(buf, palette, k, w, h, w * h), 0) == Nearest(PixelAt(buf, 0), palette)
  {
    DiffusedPixel(buf, palette, k, w, h, 0, w * h);
  }

  /** After the first n pixels are visited, each of them is a palette color. */
  lemma DiffusedAllInPalette(buf: seq<Byte>, palette: seq<Color>, k: Kernel, w: nat, h: nat, n: nat)
    requires |palette| > 0 && WellFormedKernel(k)
    requires n <= w * h && 3 * (w * h) <= |buf|
    ensures AllInPalette(Diffused(buf, palette, k, w, h, n), palette, n)
  {
    forall p | 0 <= p < n
      ensures PixelAt(Diffused(buf, palette, k, w, h, n), p) in palette
    {
      DiffusedPixel(buf, palette, k, w, h, p, n);
    }
  }

  /** A pixel that already holds a palette color is left as it is, and so is the rest of the image. */
  lemma PixelStepOfMember(buf: seq<Byte>, palette: seq<Color>, k: Kernel, w: nat, h: nat, p: nat)
    requires |palette| > 0 && WellFormedKernel(k)
    requires p < w * h && 3 * (w * h) <= |buf|
    requires PixelAt(buf, p) in palette
    ensures PixelStep(buf, palette, k, w, h, p) == buf
  {
    var orig := PixelAt(buf, p);
    NearestOfMember(orig, palette);
    assert Residual(orig, orig) == NoError;
    SetPixelOwnColor(buf, p);
    SpreadNoError(buf, k, Column(w, h, p), Row(w, h, p), w, h, |k.weights|);
  }

  /** An image made only of palette colors is left as it is: every error is zero. */
  lemma {:induction false} DiffusedFixedPoint(buf: seq<Byte>, palette: seq<Color>, k: Kernel, w: nat, h: nat, n: nat)
    requires |palette| > 0 && WellFormedKernel(k)
    requires n <= w * h && 3 * (w * h) <= |buf|
    requires AllInPalette(buf, palette, w * h)
    ensures Diffused(buf, palette, k, w, h, n) == buf
  {
    if n > 0 {
      var p: nat := n - 1;
      DiffusedFixedPoint(buf, palette, k, w, h, p);
      DiffusedNext(buf, palette, k, w, h, p, n);
      PixelStepOfMember(buf, palette, k, w, h, p);
    }
  }

  // ---------------------------------------------------------------------------
  // The in-place implementation
  // ---------------------------------------------------------------------------

  /** Cell (kx, ky) of a kernel is weight number ky * width + kx. */
  lemma KernelCellIndex(k: Kernel, kx: nat, ky: nat)
    requires WellFormedKernel(k) && kx < k.width && ky < k.height
    ensures ky * k.width + kx < |k.weights|
    ensures (ky * k.width + kx) % k.width == kx && (ky * k.width + kx) / k.width == ky
  {
    MulLeft(ky + 1, k.height, k.width);
    RowMajor(k.width, kx, ky);
  }

  /** One more kernel cell applied. */
  lemma SpreadCellsNext(buf: seq<Byte>, k: Kernel, cx: nat, cy: nat, qe: QuantizationError, w: nat, h: nat, ki: nat)
    requires WellFormedKernel(k) && ki < |k.weights|
    requires cx < w && cy < h && 3 * (w * h) <= |buf|
    ensures SpreadCells(buf, k, cx, cy, qe, w, h, ki + 1)
         == SpreadCell(SpreadCells(buf, k, cx, cy, qe, w, h, ki), k, ki, cx, cy, qe, w, h)
  {
  }

  /** A cell that is not applied leaves the buffer as it is. */
  lemma SkippedCell(buf: seq<Byte>, k: Kernel, ki: nat, cx: nat, cy: nat, qe: QuantizationError, w: nat, h: nat)
    requires WellFormedKernel(k) && ki < |k.weights|
    requires cx < w && cy < h && 3 * (w * h) <= |buf|
    requires !Applies(k, ki, cx, cy, w, h)
    ensures SpreadCell(buf, k, ki, cx, cy, qe, w, h) == buf
  {
  }

  /** An applied cell rewrites its target pixel (nx, ny) and nothing else. */
  lemma AppliedCell(buf: seq<Byte>, k: Kernel, ki: nat, cx: nat, cy: nat, qe: QuantizationError, w: nat, h: nat, nx: nat, ny: nat)
    requires WellFormedKernel(k) && ki < |k.weights|
    requires cx < w && cy < h && 3 * (w * h) <= |buf|
    requires Applies(k, ki, cx, cy, w, h)
    requires nx == TargetX(k, ki, cx) && ny == TargetY(k, ki, cy)
    ensures ny * w + nx < w * h
    ensures SpreadCell(buf, k, ki, cx, cy, qe, w, h)
         == SetPixel(buf, ny * w + nx, DiffuseColor(PixelAt(buf, ny * w + nx), qe, k.weights[ki]))
  {
    AppliedTargetIsLater(k, ki, cx, cy, w, h);
  }

  /**
   * One iteration of the kernel loops: cell (kx, ky) adds its share of the
   * error to its target, unless its weight is zero, the target is the current
   * pixel or the target lies outside the image.
   */
  method DiffuseCell(buffer: array<Byte>, kernel: Kernel, kx: nat, ky: nat, cx: nat, cy: nat, qe: QuantizationError, width: nat, height: nat)
    requires WellFormedKernel(kernel) && kx < kernel.width && ky < kernel.height
    requires cx < width && cy < height && 3 * (width * height) <= buffer.Length
    modifies buffer
    ensures ky * kernel.width + kx < |kernel.weights|
    ensures buffer[..] == SpreadCell(old(buffer[..]), kernel, ky * kernel.width + kx, cx, cy, qe, width, height)
  {
    var ki := ky * kernel.width + kx;
    KernelCellIndex(kernel, kx, ky);
    ghost var current := buffer[..];
    if kernel.weights[ki] == 0.0 {
      SkippedCell(current, kernel, ki, cx, cy, qe, width, height);
      return;
    }
    var nx: int := cx + kx - kernel.xOffset;
    var ny: int := cy + ky;
    assert nx == TargetX(kernel, ki, cx) && ny == TargetY(kernel, ki, cy);
    if nx == cx && ny == cy {
      SkippedCell(current, kernel, ki, cx, cy, qe, width, height);
      return;
    }
    if nx < 0 || nx >= width || ny < 0 || ny >= height {
      SkippedCell(current, kernel, ki, cx, cy, qe, width, height);
      return;
    }
    AppliedCell(current, kernel, ki, cx, cy, qe, width, height, nx, ny);
    var ni := 3 * (ny * width + nx);
    MulLeft(0, ny, width);
    assert 0 <= ni && ni + 3 <= 3 * (width * height) <= buffer.Length;
    var neighbour := FromSlice(buffer[ni .. ni + 3]);
    buffer[ni] := DiffuseChannel(buffer[ni], qe.r, kernel.weights[ki]);
    buffer[ni + 1] := DiffuseChannel(buffer[ni + 1], qe.g, kernel.weights[ki]);
    buffer[ni + 2] := DiffuseChannel(buffer[ni + 2], qe.b, kernel.weights[ki]);
    assert buffer[..] == SetPixel(current, ny * width + nx, DiffuseColor(neighbour, qe, kernel.weights[ki]));
  }

  /** The kernel loops of `apply_error_diffusion` for the pixel at (cx, cy). */
  method SpreadError(buffer: array<Byte>, kernel: Kernel, cx: nat, cy: nat, qe: QuantizationError, width: nat, height: nat)
    requires WellFormedKernel(kernel)
    requires cx < width && cy < height && 3 * (width * height) <= buffer.Length
    modifies buffer
    ensures buffer[..] == SpreadCells(old(buffer[..]), kernel, cx, cy, qe, width, height, |kernel.weights|)
  {
    ghost var before := buffer[..];
    for ky := 0 to kernel.height
      invariant buffer[..] == SpreadCells(before, kernel, cx, cy, qe, width, height, ky * kernel.width)
    {
      MulLeft(ky + 1, kernel.height, kernel.width);
      assert ky * kernel.width + kernel.width <= kernel.height * kernel.width == |kernel.weights|;
      for kx := 0 to kernel.width
        invariant buffer[..] == SpreadCells(before, kernel, cx, cy, qe, width, height, ky * kernel.width + kx)
      {
        DiffuseCell(buffer, kernel, kx, ky, cx, cy, qe, width, height);
        SpreadCellsNext(before, kernel, cx, cy, qe, width, height, ky * kernel.width + kx);
      }
      assert ky * kernel.width + kernel.width == (ky + 1) * kernel.width;
    }
    assert kernel.height * kernel.width == |kernel.weights|;
  }

  /**
   * The invariant of the pixel loops: the buffer holds the scan of `before`
   * through the rows above row y and the first x pixels of row y.
   */
  ghost predicate ScannedTo(b: seq<Byte>, before: seq<Byte>, palette: seq<Color>, k: Kernel, w: nat, h: nat, x: nat, y: nat)
    requires |palette| > 0 && WellFormedKernel(k) && 3 * (w * h) <= |before|
  {
    && ((x <= w && y < h) || (x == 0 && y == h))
    && (RowPrefixInImage(w, h, x, y);
        b == Diffused(before, palette, k, w, h, y * w + x))
  }

  /** The pixel loop's body at (x, y), given the color chosen for the pixel and its residual. */
  lemma PixelStepOf(buf: seq<Byte>, palette: seq<Color>, k: Kernel, w: nat, h: nat, x: nat, y: nat, chosen: Color, qe: QuantizationError)
    requires |palette| > 0 && WellFormedKernel(k)
    requires x < w && y < h && 3 * (w * h) <= |buf|
    requires y * w + x < w * h
    requires chosen == palette[NearestIndex(PixelAt(buf, y * w + x), palette)]
    requires qe == Residual(PixelAt(buf, y * w + x), chosen)
    ensures PixelStep(buf, palette, k, w, h, y * w + x)
         == SpreadCells(SetPixel(buf, y * w + x, chosen), k, x, y, qe, w, h, |k.weights|)
  {
    CoordinatesOf(w, h, x, y);
  }

  /** Visiting pixel (x, y) moves the scan one pixel further along the row. */
  lemma ScannedStep(b: seq<Byte>, before: seq<Byte>, palette: seq<Color>, k: Kernel, w: nat, h: nat, x: nat, y: nat)
    requires |palette| > 0 && WellFormedKernel(k) && 3 * (w * h) <= |before|
    requires x < w && y < h && ScannedTo(b, before, palette, k, w, h, x, y)
    ensures y * w + x < w * h
    ensures ScannedTo(PixelStep(b, palette, k, w, h, y * w + x), before, palette, k, w, h, x + 1, y)
  {
    InImage(w, h, x, y);
    DiffusedNext(before, palette, k, w, h, y * w + x, y * w + x + 1);
  }

  /** The end of a row is the start of the next. */
  lemma ScannedNextRow(b: seq<Byte>, before: seq<Byte>, palette: seq<Color>, k: Kernel, w: nat, h: nat, y: nat)
    requires |palette| > 0 && WellFormedKernel(k) && 3 * (w * h) <= |before|
    requires y < h && ScannedTo(b, before, palette, k, w, h, w, y)
    ensures ScannedTo(b, before, palette, k, w, h, 0, y + 1)
  {
    RowEnd(w, h, y);
  }

  /** Before the scan nothing has changed; after the last row the whole image is scanned. */
  lemma ScannedEnds(b: seq<Byte>, before: seq<Byte>, palette: seq<Color>, k: Kernel, w: nat, h: nat)
    requires |palette| > 0 && WellFormedKernel(k) && 3 * (w * h) <= |before|
    ensures ScannedTo(before, before, palette, k, w, h, 0, 0) || h == 0
    ensures ScannedTo(b, before, palette, k, w, h, 0, h) ==> b == Diffused(before, palette, k, w, h, w * h)
  {
  }

  /**
   * One iteration of the pixel loop of `apply_error_diffusion`, for the pixel
   * at (cx, cy): after it the buffer holds the scan of `before` one pixel further.
   */
  method DiffusePixel(buffer: array<Byte>, ghost before: seq<Byte>, palette: seq<Color>, kernel: Kernel, cx: nat, cy: nat, width: nat, height: nat)
    requires |palette| > 0 && WellFormedKernel(kernel)
    requires cx < width && cy < height && 3 * (width * height) <= |before|
    requires ScannedTo(buffer[..], before, palette, kernel, width, height, cx, cy)
    modifies buffer
    ensures ScannedTo(buffer[..], before, palette, kernel, width, height, cx + 1, cy)
  {
    InImage(width, height, cx, cy);
    ghost var p := cy * width + cx;
    ghost var current := buffer[..];
    var i := 3 * (cy * width + cx);
    var origColor := FromSlice(buffer[i .. i + 3]);
    var newColor, qe := MapToPalette(origColor, palette);
    assert origColor == PixelAt(current, p);
    PixelStepOf(current, palette, kernel, width, height, cx, cy, newColor, qe);
    buffer[i] := newColor.r;
    buffer[i + 1] := newColor.g;
    buffer[i + 2] := newColor.b;
    assert buffer[..] == SetPixel(current, p, newColor);
    SpreadError(buffer, kernel, cx, cy, qe, width, height);
    ScannedStep(current, before, palette, kernel, width, height, cx, cy);
  }

  /**
   * `apply_error_diffusion`: a method without a kernel (`None` or a Bayer
   * method) returns at once; otherwise every pixel of the image is visited.
   */
  method ApplyErrorDiffusion(buffer: array<Byte>, ditherType: DitherMethod, palette: seq<Color>, width: nat, height: nat)
    requires |palette| > 0 && 3 * (width * height) <= buffer.Length
    modifies buffer
    ensures !ditherType.IsDiffusion() ==> buffer[..] == old(buffer[..])
    ensures ditherType.IsDiffusion() ==>
      buffer[..] == Diffused(old(buffer[..]), palette, KernelOf(ditherType), width, height, width * height)
  {
    if !ditherType.IsDiffusion() {
      return;
    }
    var kernel := KernelOf(ditherType);
    ghost var before := buffer[..];
    ScannedEnds(before, before, palette, kernel, width, height);
    for cy := 0 to height
      invariant ScannedTo(buffer[..], before, palette, kernel, width, height, 0, cy)
    {
      for cx := 0 to width
        invariant ScannedTo(buffer[..], before, palette, kernel, width, height, cx, cy)
      {
        DiffusePixel(buffer, before, palette, kernel, cx, cy, width, height);
      }
      ScannedNextRow(buffer[..], before, palette, kernel, width, height, cy);
    }
    ScannedEnds(buffer[..], before, palette, kernel, width, height);
  }
}
