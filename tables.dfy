/** The dithering methods and their constant tables (src/dither.rs). */
module DitherTables {

  /** The dithering method; `FloydSteinberg` is its default. */
  datatype DitherMethod =
    | None
    | FloydSteinberg
    | Simple2D
    | Jarvis
    | Atkinson
    | Stucki
    | Burkes
    | Sierra
    | TwoRowSierra
    | SierraLite
    | Bayer2x2
    | Bayer4x4
    | Bayer8x8
  {
    predicate IsBayer() {
      Bayer2x2? || Bayer4x4? || Bayer8x8?
    }

    /** Every method that is neither `None` nor Bayer is an error-diffusion method. */
    predicate IsDiffusion() {
      !None? && !IsBayer()
    }
  }

  // ---------------------------------------------------------------------------
  // Error-diffusion kernels: weights row by row, the source's f32 values as exact rationals
  // ---------------------------------------------------------------------------

  const FloydSteinbergWeights: seq<real> :=
      [0.0, 0.0, 7.0 / 16.0]
    + [3.0 / 16.0, 5.0 / 16.0, 1.0 / 16.0]

  const JarvisWeights: seq<real> :=
      [0.0, 0.0, 0.0, 7.0 / 48.0, 5.0 / 48.0]
    + [3.0 / 48.0, 5.0 / 48.0, 7.0 / 48.0, 5.0 / 48.0, 3.0 / 48.0]
    + [1.0 / 48.0, 3.0 / 48.0, 5.0 / 48.0, 3.0 / 48.0, 1.0 / 48.0]

  const Simple2DWeights: seq<real> :=
      [0.0, 0.5]
    + [0.5, 0.0]

  const AtkinsonWeights: seq<real> :=
      [0.0, 0.0, 1.0 / 8.0, 1.0 / 8.0]
    + [1.0 / 8.0, 1.0 / 8.0, 1.0 / 8.0, 0.0]
    + [0.0, 1.0 / 8.0, 0.0, 0.0]

  const StuckiWeights: seq<real> :=
      [0.0, 0.0, 0.0, 8.0 / 42.0, 4.0 / 42.0]
    + [2.0 / 42.0, 4.0 / 42.0, 8.0 / 42.0, 4.0 / 42.0, 2.0 / 42.0]
    + [1.0 / 42.0, 2.0 / 42.0, 4.0 / 42.0, 2.0 / 42.0, 1.0 / 42.0]

  const BurkesWeights: seq<real> :=
      [0.0, 0.0, 0.0, 8.0 / 32.0, 4.0 / 32.0]
    + [2.0 / 32.0, 4.0 / 32.0, 8.0 / 32.0, 4.0 / 32.0, 2.0 / 32.0]

  const SierraWeights: seq<real> :=
      [0.0, 0.0, 0.0, 5.0 / 32.0, 3.0 / 32.0]
    + [2.0 / 32.0, 4.0 / 32.0, 5.0 / 32.0, 4.0 / 32.0, 2.0 / 32.0]
    + [0.0, 2.0 / 32.0, 3.0 / 32.0, 2.0 / 32.0, 0.0]

  const TwoRowSierraWeights: seq<real> :=
      [0.0, 0.0, 0.0, 4.0 / 16.0, 3.0 / 16.0]
    + [1.0 / 16.0, 2.0 / 16.0, 3.0 / 16.0, 2.0 / 16.0, 1.0 / 16.0]

  const SierraLiteWeights: seq<real> :=
      [0.0, 0.0, 2.0 / 4.0]
    + [1.0 / 4.0, 1.0 / 4.0, 0.0]

  /**
   * A kernel: `width * height` weights row by row; the current pixel sits in
   * row 0 at column `xOffset`.
   */
  datatype Kernel = Kernel(weights: seq<real>, width: nat, height: nat, xOffset: nat)

  /**
   * Every non-zero cell of row 0 lies right of the current pixel, so every
   * cell that is applied targets a pixel later in raster order. It implies
   * that the current pixel's own cell is zero.
   */
  ghost predicate Causal(k: Kernel)
  {
    forall ki | 0 <= ki < k.width && ki < |k.weights| :: k.weights[ki] != 0.0 ==> k.xOffset < ki
  }

  ghost predicate WellFormedKernel(k: Kernel)
  {
    && k.width > 0
    && |k.weights| == k.width * k.height
    && k.xOffset < k.width
    && (forall ki | 0 <= ki < |k.weights| :: 0.0 <= k.weights[ki])
    && Causal(k)
  }

  /** The `(kernel, kernel_width, kernel_height, kernel_x_offset)` selected by `apply_error_diffusion`. */
  function KernelOf(m: DitherMethod): (k: Kernel)
    requires m.IsDiffusion()
    ensures WellFormedKernel(k)
  {
    match m
    case FloydSteinberg => FloydSteinbergWellFormed(); Kernel(FloydSteinbergWeights, 3, 2, 1)
    case Simple2D => Simple2DWellFormed(); Kernel(Simple2DWeights, 2, 2, 0)
    case Jarvis => JarvisWellFormed(); Kernel(JarvisWeights, 5, 3, 2)
    case Atkinson => AtkinsonWellFormed(); Kernel(AtkinsonWeights, 4, 3, 1)
    case Stucki => StuckiWellFormed(); Kernel(StuckiWeights, 5, 3, 2)
    case Burkes => BurkesWellFormed(); Kernel(BurkesWeights, 5, 2, 2)
    case Sierra => SierraWellFormed(); Kernel(SierraWeights, 5, 3, 2)
    case TwoRowSierra => TwoRowSierraWellFormed(); Kernel(TwoRowSierraWeights, 5, 2, 2)
    case SierraLite => SierraLiteWellFormed(); Kernel(SierraLiteWeights, 3, 2, 1)
  }

  // Each kernel table is well formed.

  lemma FloydSteinbergWellFormed()
    ensures WellFormedKernel(Kernel(FloydSteinbergWeights, 3, 2, 1))
  {
  }

  lemma Simple2DWellFormed()
    ensures WellFormedKernel(Kernel(Simple2DWeights, 2, 2, 0))
  {
  }

  lemma JarvisWellFormed()
    ensures WellFormedKernel(Kernel(JarvisWeights, 5, 3, 2))
  {
  }

  lemma AtkinsonWellFormed()
    ensures WellFormedKernel(Kernel(AtkinsonWeights, 4, 3, 1))
  {
  }

  lemma StuckiWellFormed()
    ensures WellFormedKernel(Kernel(StuckiWeights, 5, 3, 2))
  {
  }

  lemma BurkesWellFormed()
    ensures WellFormedKernel(Kernel(BurkesWeights, 5, 2, 2))
  {
  }

  lemma SierraWellFormed()
    ensures WellFormedKernel(Kernel(SierraWeights, 5, 3, 2))
  {
  }

  lemma TwoRowSierraWellFormed()
    ensures WellFormedKernel(Kernel(TwoRowSierraWeights, 5, 2, 2))
  {
  }

  lemma SierraLiteWellFormed()
    ensures WellFormedKernel(Kernel(SierraLiteWeights, 3, 2, 1))
  {
  }

  function Sum(s: seq<real>): real
  {
    if s == [] then 0.0 else s[0] + Sum(s[1..])
  }

  /** The sum of a concatenation is the sum of the sums. */
  lemma {:induction false} SumConcat(a: seq<real>, b: seq<real>)
    ensures Sum(a + b) == Sum(a) + Sum(b)
  {
    if a != [] {
      assert (a + b)[1..] == a[1..] + b;
      SumConcat(a[1..], b);
    } else {
      assert a + b == b;
    }
  }

  /** The sum of a kernel given as two or three rows is the sum of its row sums. */
  lemma SumRows(r0: seq<real>, r1: seq<real>, r2: seq<real>)
    ensures Sum(r0 + r1) == Sum(r0) + Sum(r1)
    ensures Sum(r0 + r1 + r2) == Sum(r0) + Sum(r1) + Sum(r2)
  {
    SumConcat(r0, r1);
    SumConcat(r0 + r1, r2);
  }

  /**
   * Every kernel spreads the whole error except Atkinson's, which spreads
   * six eighths of it.
   */
  lemma KernelWeightSums(m: DitherMethod)
    requires m.IsDiffusion()
    ensures Sum(KernelOf(m).weights) == if m == Atkinson then 6.0 / 8.0 else 1.0
  {
    match m
    case FloydSteinberg => FloydSteinbergSum();
    case Simple2D => Simple2DSum();
    case Jarvis => JarvisSum();
    case Atkinson => AtkinsonSum();
    case Stucki => StuckiSum();
    case Burkes => BurkesSum();
    case Sierra => SierraSum();
    case TwoRowSierra => TwoRowSierraSum();
    case SierraLite => SierraLiteSum();
  }

  lemma FloydSteinbergSum()
    ensures Sum(FloydSteinbergWeights) == 1.0
  {
    SumRows([0.0, 0.0, 7.0 / 16.0],
            [3.0 / 16.0, 5.0 / 16.0, 1.0 / 16.0],
            []);
  }

  lemma Simple2DSum()
    ensures Sum(Simple2DWeights) == 1.0
  {
    SumRows([0.0, 0.5],
            [0.5, 0.0],
            []);
  }

  lemma JarvisSum()
    ensures Sum(JarvisWeights) == 1.0
  {
    SumRows([0.0, 0.0, 0.0, 7.0 / 48.0, 5.0 / 48.0],
            [3.0 / 48.0, 5.0 / 48.0, 7.0 / 48.0, 5.0 / 48.0, 3.0 / 48.0],
            [1.0 / 48.0, 3.0 / 48.0, 5.0 / 48.0, 3.0 / 48.0, 1.0 / 48.0]);
  }

  lemma AtkinsonSum()
    ensures Sum(AtkinsonWeights) == 6.0 / 8.0
  {
    SumRows([0.0, 0.0, 1.0 / 8.0, 1.0 / 8.0],
            [1.0 / 8.0, 1.0 / 8.0, 1.0 / 8.0, 0.0],
            [0.0, 1.0 / 8.0, 0.0, 0.0]);
  }

  lemma StuckiSum()
    ensures Sum(StuckiWeights) == 1.0
  {
    SumRows([0.0, 0.0, 0.0, 8.0 / 42.0, 4.0 / 42.0],
            [2.0 / 42.0, 4.0 / 42.0, 8.0 / 42.0, 4.0 / 42.0, 2.0 / 42.0],
            [1.0 / 42.0, 2.0 / 42.0, 4.0 / 42.0, 2.0 / 42.0, 1.0 / 42.0]);
  }

  lemma BurkesSum()
    ensures Sum(BurkesWeights) == 1.0
  {
    SumRows([0.0, 0.0, 0.0, 8.0 / 32.0, 4.0 / 32.0],
            [2.0 / 32.0, 4.0 / 32.0, 8.0 / 32.0, 4.0 / 32.0, 2.0 / 32.0],
            []);
  }

  lemma SierraSum()
    ensures Sum(SierraWeights) == 1.0
  {
    SumRows([0.0, 0.0, 0.0, 5.0 / 32.0, 3.0 / 32.0],
            [2.0 / 32.0, 4.0 / 32.0, 5.0 / 32.0, 4.0 / 32.0, 2.0 / 32.0],
            [0.0, 2.0 / 32.0, 3.0 / 32.0, 2.0 / 32.0, 0.0]);
  }

  lemma TwoRowSierraSum()
    ensures Sum(TwoRowSierraWeights) == 1.0
  {
    SumRows([0.0, 0.0, 0.0, 4.0 / 16.0, 3.0 / 16.0],
            [1.0 / 16.0, 2.0 / 16.0, 3.0 / 16.0, 2.0 / 16.0, 1.0 / 16.0],
            []);
  }

  lemma SierraLiteSum()
    ensures Sum(SierraLiteWeights) == 1.0
  {
    SumRows([0.0, 0.0, 2.0 / 4.0],
            [1.0 / 4.0, 1.0 / 4.0, 0.0],
            []);
  }

  // ---------------------------------------------------------------------------
  // Bayer threshold matrices
  // ---------------------------------------------------------------------------

  const Bayer2x2Values: seq<real> := [0.0, 2.0 / 4.0, 3.0 / 4.0, 1.0 / 4.0]

  const Bayer4x4Values: seq<real> := [
    0.0, 8.0 / 16.0, 2.0 / 16.0, 10.0 / 16.0,
    12.0 / 16.0, 4.0 / 16.0, 14.0 / 16.0, 6.0 / 16.0,
    3.0 / 16.0, 11.0 / 16.0, 1.0 / 16.0, 9.0 / 16.0,
    15.0 / 16.0, 7.0 / 16.0, 13.0 / 16.0, 5.0 / 16.0
  ]

  const Bayer8x8Values: seq<real> :=
      [0.0, 32.0 / 64.0, 8.0 / 64.0, 40.0 / 64.0, 2.0 / 64.0, 34.0 / 64.0, 10.0 / 64.0, 42.0 / 64.0]
    + [48.0 / 64.0, 16.0 / 64.0, 56.0 / 64.0, 24.0 / 64.0, 50.0 / 64.0, 18.0 / 64.0, 58.0 / 64.0, 26.0 / 64.0]
    + [12.0 / 64.0, 44.0 / 64.0, 4.0 / 64.0, 36.0 / 64.0, 14.0 / 64.0, 46.0 / 64.0, 6.0 / 64.0, 38.0 / 64.0]
    + [60.0 / 64.0, 28.0 / 64.0, 52.0 / 64.0, 20.0 / 64.0, 62.0 / 64.0, 30.0 / 64.0, 54.0 / 64.0, 22.0 / 64.0]
    + [3.0 / 64.0, 35.0 / 64.0, 11.0 / 64.0, 43.0 / 64.0, 1.0 / 64.0, 33.0 / 64.0, 9.0 / 64.0, 41.0 / 64.0]
    + [51.0 / 64.0, 19.0 / 64.0, 59.0 / 64.0, 27.0 / 64.0, 49.0 / 64.0, 17.0 / 64.0, 57.0 / 64.0, 25.0 / 64.0]
    + [15.0 / 64.0, 47.0 / 64.0, 7.0 / 64.0, 39.0 / 64.0, 13.0 / 64.0, 45.0 / 64.0, 5.0 / 64.0, 37.0 / 64.0]
    + [63.0 / 64.0, 31.0 / 64.0, 55.0 / 64.0, 23.0 / 64.0, 61.0 / 64.0, 29.0 / 64.0, 53.0 / 64.0, 21.0 / 64.0]

  /** A square threshold matrix of side `size`, row by row. */
  datatype ThresholdMatrix = ThresholdMatrix(values: seq<real>, size: nat)

  /** Every entry of `s` from `lo` to `hi` is a threshold in [0, 1). */
  ghost predicate InUnitRange(s: seq<real>, lo: nat, hi: nat)
    requires lo <= hi <= |s|
  {
    forall i | lo <= i < hi :: 0.0 <= s[i] < 1.0
  }

  ghost predicate ValidMatrix(t: ThresholdMatrix)
  {
    && t.size > 0
    && |t.values| == t.size * t.size
    && InUnitRange(t.values, 0, |t.values|)
  }

  /** The 8x8 thresholds lie in [0, 1), checked a quarter at a time. */
  lemma Bayer8x8InRange()
    ensures InUnitRange(Bayer8x8Values, 0, 64)
  {
    assert InUnitRange(Bayer8x8Values, 0, 16);
    assert InUnitRange(Bayer8x8Values, 16, 32);
    assert InUnitRange(Bayer8x8Values, 32, 48);
    assert InUnitRange(Bayer8x8Values, 48, 64);
  }

  /** The `(matrix, matrix_size)` selected by `apply_bayer_dithering`. */
  function MatrixOf(m: DitherMethod): (t: ThresholdMatrix)
    requires m.IsBayer()
    ensures ValidMatrix(t)
  {
    match m
    case Bayer2x2 => ThresholdMatrix(Bayer2x2Values, 2)
    case Bayer4x4 => ThresholdMatrix(Bayer4x4Values, 4)
    case Bayer8x8 => Bayer8x8InRange(); ThresholdMatrix(Bayer8x8Values, 8)
  }

  lemma CellIndexBound(n: nat, x: nat, y: nat)
    requires x < n && y < n
    ensures y * n + x < n * n
  {
    assert y * n <= (n - 1) * n;
  }

  /** Cell (x, y) of a square matrix of side n stored row by row. */
  function Cell(t: seq<real>, n: nat, x: nat, y: nat): real
    requires |t| == n * n && x < n && y < n
  {
    CellIndexBound(n, x, y);
    t[y * n + x]
  }

  // The tables are the standard recursive Bayer matrices: in ranks (a value
  // times the number of cells), each quadrant of the matrix of side 2n is four
  // times the matrix of side n plus 0 (top left), 2 (top right), 3 (bottom
  // left) or 1 (bottom right).

  /** The rank of cell (x, y): its value times the number of cells. */
  function Rank(t: seq<real>, n: nat, x: nat, y: nat): real
    requires |t| == n * n && x < n && y < n
  {
    Cell(t, n, x, y) * (n * n) as real
  }

  /** The copies of cell (x, y) of `small` (side n) in the top left and top right quadrants of `big`. */
  ghost predicate UpperRecurrenceAt(big: seq<real>, small: seq<real>, n: nat, x: nat, y: nat)
    requires |big| == (2 * n) * (2 * n) && |small| == n * n && x < n && y < n
  {
    && Rank(big, 2 * n, x, y) == 4.0 * Rank(small, n, x, y)
    && Rank(big, 2 * n, x + n, y) == 4.0 * Rank(small, n, x, y) + 2.0
  }

  /** The copies of cell (x, y) of `small` in the bottom left and bottom right quadrants of `big`. */
  ghost predicate LowerRecurrenceAt(big: seq<real>, small: seq<real>, n: nat, x: nat, y: nat)
    requires |big| == (2 * n) * (2 * n) && |small| == n * n && x < n && y < n
  {
    && Rank(big, 2 * n, x, y + n) == 4.0 * Rank(small, n, x, y) + 3.0
    && Rank(big, 2 * n, x + n, y + n) == 4.0 * Rank(small, n, x, y) + 1.0
  }

  /** The four copies of cell (x, y) of `small` (side n) in `big` (side 2n) follow the recurrence. */
  ghost predicate RecurrenceAt(big: seq<real>, small: seq<real>, n: nat, x: nat, y: nat)
    requires |big| == (2 * n) * (2 * n) && |small| == n * n && x < n && y < n
  {
    UpperRecurrenceAt(big, small, n, x, y) && LowerRecurrenceAt(big, small, n, x, y)
  }

  /** The 2x2 ranks are the quadrant offsets themselves: the recurrence from the 1x1 matrix [0]. */
  lemma Bayer2x2FromBayer1x1()
    ensures RecurrenceAt(Bayer2x2Values, [0.0], 1, 0, 0)
  {
  }

  lemma Bayer4x4FromBayer2x2()
    ensures forall x: nat, y: nat | x < 2 && y < 2 :: RecurrenceAt(Bayer4x4Values, Bayer2x2Values, 2, x, y)
  {
    assert forall x: nat | x < 2 :: RecurrenceAt(Bayer4x4Values, Bayer2x2Values, 2, x, 0);
    assert forall x: nat | x < 2 :: RecurrenceAt(Bayer4x4Values, Bayer2x2Values, 2, x, 1);
    forall x: nat, y: nat | x < 2 && y < 2
      ensures RecurrenceAt(Bayer4x4Values, Bayer2x2Values, 2, x, y)
    {
      if y == 0 {
      } else {
      }
    }
  }

  lemma Bayer8x8FromBayer4x4()
    ensures forall x: nat, y: nat | x < 4 && y < 4 :: RecurrenceAt(Bayer8x8Values, Bayer4x4Values, 4, x, y)
  {
    Bayer8x8UpperRow0();
    Bayer8x8LowerRow0();
    Bayer8x8UpperRow1();
    Bayer8x8LowerRow1();
    Bayer8x8UpperRow2();
    Bayer8x8LowerRow2();
    Bayer8x8UpperRow3();
    Bayer8x8LowerRow3();
    forall x: nat, y: nat | x < 4 && y < 4
      ensures RecurrenceAt(Bayer8x8Values, Bayer4x4Values, 4, x, y)
    {
      if y == 0 {
      } else if y == 1 {
      } else if y == 2 {
      } else {
      }
    }
  }

  // Each row of the 4x4 matrix and its four copies in the 8x8 matrix, upper and lower half apart.

  lemma Bayer8x8UpperRow0()
    ensures forall x: nat | x < 4 :: UpperRecurrenceAt(Bayer8x8Values, Bayer4x4Values, 4, x, 0)
  {
  }

  lemma Bayer8x8LowerRow0()
    ensures forall x: nat | x < 4 :: LowerRecurrenceAt(Bayer8x8Values, Bayer4x4Values, 4, x, 0)
  {
  }

  lemma Bayer8x8UpperRow1()
    ensures forall x: nat | x < 4 :: UpperRecurrenceAt(Bayer8x8Values, Bayer4x4Values, 4, x, 1)
  {
  }

  lemma Bayer8x8LowerRow1()
    ensures forall x: nat | x < 4 :: LowerRecurrenceAt(Bayer8x8Values, Bayer4x4Values, 4, x, 1)
  {
  }

  lemma Bayer8x8UpperRow2()
    ensures forall x: nat | x < 4 :: UpperRecurrenceAt(Bayer8x8Values, Bayer4x4Values, 4, x, 2)
  {
  }

  lemma Bayer8x8LowerRow2()
    ensures forall x: nat | x < 4 :: LowerRecurrenceAt(Bayer8x8Values, Bayer4x4Values, 4, x, 2)
  {
  }

  lemma Bayer8x8UpperRow3()
    ensures forall x: nat | x < 4 :: UpperRecurrenceAt(Bayer8x8Values, Bayer4x4Values, 4, x, 3)
  {
  }

  lemma Bayer8x8LowerRow3()
    ensures forall x: nat | x < 4 :: LowerRecurrenceAt(Bayer8x8Values, Bayer4x4Values, 4, x, 3)
  {
  }
}
