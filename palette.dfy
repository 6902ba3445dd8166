/** Colors, the three fixed palettes and the nearest-color mapper (src/palette.rs). */
module Palette {

  /** An unsigned 8-bit sample (Rust `u8`). */
  type Byte = x: int | 0 <= x < 0x100

  /** The argument of `Color::from(u32)`. */
  type U32 = x: int | 0 <= x < 0x1_0000_0000

  /** The palette selector; `Monochrome` is its default. */
  datatype ColorPalette = Monochrome | Color8 | Color16

  datatype Color = Color(r: Byte, g: Byte, b: Byte)

  /**
   * The per-channel residual "original minus chosen". The source stores it in
   * `f32`; it is a difference of two bytes, so it is an exact integer.
   */
  datatype QuantizationError = QuantizationError(r: int, g: int, b: int)

  const NoError := QuantizationError(0, 0, 0)

  const Black := Color(0x00, 0x00, 0x00)
  const White := Color(0xff, 0xff, 0xff)

  // ---------------------------------------------------------------------------
  // Construction of colors
  // ---------------------------------------------------------------------------

  /** The packed form 0xRRGGBB of a color. */
  function Pack(c: Color): (v: U32)
    ensures v < 0x100_0000
  {
    c.r * 0x1_0000 + c.g * 0x100 + c.b
  }

  /**
   * `Color::from(u32)`: red is bits 16..23, green bits 8..15, blue bits 0..7;
   * bits 24..31 are dropped. On a non-negative value a right shift is a
   * division by a power of two and `& 0xFF` is `% 0x100`. Packing the color
   * again gives back the low 24 bits of the value.
   */
  function FromU32(v: U32): (c: Color)
    ensures Pack(c) == v % 0x100_0000
  {
    var q, s := v / 0x1_0000, v % 0x1_0000;
    assert v == q * 0x1_0000 + s;
    assert v / 0x100 == q * 0x100 + s / 0x100;
    assert (v / 0x100) % 0x100 == s / 0x100;
    assert v % 0x100 == s % 0x100;
    assert v % 0x100_0000 == (q % 0x100) * 0x1_0000 + s;
    Color((v / 0x1_0000) % 0x100, (v / 0x100) % 0x100, v % 0x100)
  }

  /** Unpacking a packed color gives the color back. */
  lemma FromU32OfPack(c: Color)
    ensures FromU32(Pack(c)) == c
  {
    var v := Pack(c);
    var hi := c.r * 0x100 + c.g;
    assert v == hi * 0x100 + c.b;
    assert v / 0x100 == hi;
    assert hi % 0x100 == c.g && hi / 0x100 == c.r;
    assert v / 0x1_0000 == c.r;
    assert v % 0x100 == c.b;
  }

  /** 0xFF8000 reads as orange: red 255, green 128, blue 0. */
  lemma FromU32Orange()
    ensures FromU32(0xFF8000) == Color(255, 128, 0)
  {
    FromU32OfPack(Color(255, 128, 0));
  }

  /** The channels of a color in buffer order R, G, B. */
  function Channels(c: Color): seq<Byte>
  {
    [c.r, c.g, c.b]
  }

  /** `Color::from(&[u8])`: the first three samples are R, G, B; fewer than three panics. */
  function FromSlice(v: seq<Byte>): (c: Color)
    requires |v| >= 3
    ensures Channels(c) == v[..3]
  {
    Color(v[0], v[1], v[2])
  }

  lemma FromSliceOfChannels(c: Color)
    ensures FromSlice(Channels(c)) == c
  {
  }

  // ---------------------------------------------------------------------------
  // The fixed palettes
  // ---------------------------------------------------------------------------

  const PaletteMonochrome: seq<Color> := [Color(0x00, 0x00, 0x00), Color(0xff, 0xff, 0xff)]

  const Palette8C: seq<Color> := [
    Color(0x00, 0x00, 0x00),
    Color(0xcc, 0x35, 0x00),
    Color(0x5e, 0xc8, 0x09),
    Color(0x1d, 0x28, 0x6f),
    Color(0x00, 0xc4, 0xff),
    Color(0x8e, 0x8e, 0x8e),
    Color(0xff, 0xe0, 0x52),
    Color(0xff, 0xff, 0xff)
  ]

  const Palette16C: seq<Color> := [
    Color(0x00, 0x00, 0x00),
    Color(0x9d, 0x9d, 0x9d),
    Color(0xff, 0xff, 0xff),
    Color(0xbe, 0x26, 0x33),
    Color(0xe0, 0x6f, 0x8b),
    Color(0x49, 0x3c, 0x2b),
    Color(0xa4, 0x64, 0x22),
    Color(0xeb, 0x89, 0x31),
    Color(0xf7, 0xe2, 0x6b),
    Color(0x2f, 0x48, 0x4e),
    Color(0x44, 0x89, 0x1a),
    Color(0xa3, 0xce, 0x27),
    Color(0x1b, 0x26, 0x32),
    Color(0x00, 0x57, 0x84),
    Color(0x31, 0xa2, 0xf2),
    Color(0xb2, 0xdc, 0xef)
  ]

  /** The same palettes as packed 0xRRGGBB values, the form `Color::from(u32)` reads. */
  const PackedMonochrome: seq<U32> := [0x000000, 0xffffff]
  const Packed8C: seq<U32> := [0x000000, 0xcc3500, 0x5ec809, 0x1d286f, 0x00c4ff, 0x8e8e8e, 0xffe052, 0xffffff]
  const Packed16C: seq<U32> := [
    0x000000, 0x9d9d9d, 0xffffff, 0xbe2633, 0xe06f8b, 0x493c2b, 0xa46422, 0xeb8931,
    0xf7e26b, 0x2f484e, 0x44891a, 0xa3ce27, 0x1b2632, 0x005784, 0x31a2f2, 0xb2dcef
  ]

  /** Each palette table is its packed list read entry by entry with `Color::from(u32)`. */
  lemma PalettesArePacked()
    ensures |PaletteMonochrome| == |PackedMonochrome| && |Palette8C| == |Packed8C| && |Palette16C| == |Packed16C|
    ensures forall i | 0 <= i < |PaletteMonochrome| :: PaletteMonochrome[i] == FromU32(PackedMonochrome[i])
    ensures forall i | 0 <= i < |Palette8C| :: Palette8C[i] == FromU32(Packed8C[i])
    ensures forall i | 0 <= i < |Palette16C| :: Palette16C[i] == FromU32(Packed16C[i])
  {
    forall i | 0 <= i < |PaletteMonochrome|
      ensures PaletteMonochrome[i] == FromU32(PackedMonochrome[i])
    {
      assert Pack(PaletteMonochrome[i]) == PackedMonochrome[i];
      FromU32OfPack(PaletteMonochrome[i]);
    }
    forall i | 0 <= i < |Palette8C|
      ensures Palette8C[i] == FromU32(Packed8C[i])
    {
      assert Pack(Palette8C[i]) == Packed8C[i];
      FromU32OfPack(Palette8C[i]);
    }
    forall i | 0 <= i < |Palette16C|
      ensures Palette16C[i] == FromU32(Packed16C[i])
    {
      assert Pack(Palette16C[i]) == Packed16C[i];
      FromU32OfPack(Palette16C[i]);
    }
  }

  /** Sizes 2, 8 and 16; the 8- and 16-color palettes contain black and white. */
  lemma PaletteFacts()
    ensures |PaletteMonochrome| == 2 && |Palette8C| == 8 && |Palette16C| == 16
    ensures PaletteMonochrome == [Black, White]
    ensures Black in Palette8C && White in Palette8C
    ensures Black in Palette16C && White in Palette16C
  {
    assert Palette8C[0] == Black && Palette8C[7] == White;
    assert Palette16C[0] == Black && Palette16C[2] == White;
  }

  // ---------------------------------------------------------------------------
  // Distance and residual
  // ---------------------------------------------------------------------------

  /** Every distance lies below this value; it stands for `f32::INFINITY`, the initial minimum. */
  const Infinity: nat := 3 * 255 * 255 + 1

  function Square(x: int): (s: nat)
    ensures s == 0 <==> x == 0
    ensures -255 <= x <= 255 ==> s <= 255 * 255
  {
    SquareBound(x);
    x * x
  }

  lemma SquareBound(x: int)
    ensures x * x >= 0
    ensures x * x == 0 <==> x == 0
    ensures -255 <= x <= 255 ==> x * x <= 255 * 255
  {
    if x < 0 {
      assert x * x == (-x) * (-x);
      ProductBound(-x, -x);
    } else {
      ProductBound(x, x);
    }
  }

  /** A product of two positive factors up to 255 is positive and at most 255 * 255. */
  lemma ProductBound(a: nat, b: nat)
    ensures a * b >= 0
    ensures a * b == 0 <==> a == 0 || b == 0
    ensures a <= 255 && b <= 255 ==> a * b <= 255 * 255
  {
    if a <= 255 && b <= 255 {
      assert a * b <= 255 * b;
    }
  }

  /**
   * Squared Euclidean distance in RGB space (no square root). The source
   * computes it in `f32`, where every such value is exact.
   */
  function Distance(a: Color, b: Color): (d: nat)
    ensures d < Infinity
    ensures d == 0 <==> a == b
  {
    Square(a.r - b.r) + Square(a.g - b.g) + Square(a.b - b.b)
  }

  /** The quantization error of replacing `orig` by `chosen`. */
  function Residual(orig: Color, chosen: Color): (e: QuantizationError)
    ensures -255 <= e.r <= 255 && -255 <= e.g <= 255 && -255 <= e.b <= 255
    ensures e == NoError <==> orig == chosen
    ensures orig.r == chosen.r + e.r && orig.g == chosen.g + e.g && orig.b == chosen.b + e.b
  {
    QuantizationError(orig.r - chosen.r, orig.g - chosen.g, orig.b - chosen.b)
  }

  // ---------------------------------------------------------------------------
  // Nearest color: specification
  // ---------------------------------------------------------------------------

  /**
   * Among the first `n` entries of `p`, entry `k` is at least distance from `c`
   * and every entry before it is strictly farther.
   */
  ghost predicate FirstNearestAmong(c: Color, p: seq<Color>, n: nat, k: int)
    requires n <= |p|
  {
    && 0 <= k < n
    && (forall j | 0 <= j < n :: Distance(c, p[k]) <= Distance(c, p[j]))
    && (forall j | 0 <= j < k :: Distance(c, p[k]) < Distance(c, p[j]))
  }

  ghost predicate IsFirstNearest(c: Color, p: seq<Color>, k: int)
  {
    FirstNearestAmong(c, p, |p|, k)
  }

  /** The index the scan holds after the first `n` entries. */
  function NearestPrefix(c: Color, p: seq<Color>, n: nat): (k: nat)
    requires 0 < n <= |p|
    ensures k < n
    ensures Distance(c, p[k]) <= Distance(c, p[0]) && Distance(c, p[k]) <= Distance(c, p[n - 1])
  {
    if n == 1 then 0
    else
      var k := NearestPrefix(c, p, n - 1);
      if Distance(c, p[n - 1]) < Distance(c, p[k]) then n - 1 else k
  }

  /** The scan keeps the first entry of least distance seen so far. */
  lemma {:induction false} NearestPrefixIsFirstNearest(c: Color, p: seq<Color>, n: nat)
    requires 0 < n <= |p|
    ensures FirstNearestAmong(c, p, n, NearestPrefix(c, p, n))
  {
    if n > 1 {
      NearestPrefixIsFirstNearest(c, p, n - 1);
    }
  }

  function NearestIndex(c: Color, p: seq<Color>): (k: nat)
    requires |p| > 0
    ensures k < |p|
  {
    NearestPrefix(c, p, |p|)
  }

  /** The palette entry `map_to_palette` chooses for `c`. */
  function Nearest(c: Color, p: seq<Color>): (chosen: Color)
    requires |p| > 0
    ensures chosen in p
  {
    p[NearestIndex(c, p)]
  }

  /** The first-minimum index exists and is unique: ties go to the lowest index. */
  lemma NearestIndexIsUnique(c: Color, p: seq<Color>, k: int)
    requires |p| > 0
    ensures NearestIndex(c, p) == k <==> IsFirstNearest(c, p, k)
  {
    NearestPrefixIsFirstNearest(c, p, |p|);
  }

  /** No palette entry is nearer to `c` than the chosen one. */
  lemma NearestIsClosest(c: Color, p: seq<Color>)
    requires |p| > 0
    ensures forall j | 0 <= j < |p| :: Distance(c, Nearest(c, p)) <= Distance(c, p[j])
  {
    NearestPrefixIsFirstNearest(c, p, |p|);
  }

  // ---------------------------------------------------------------------------
  // Nearest color: the linear scan of map_to_palette
  // ---------------------------------------------------------------------------

  /**
   * `map_to_palette`: a linear scan that keeps the first entry of least
   * distance (strict `<` against the running minimum), then the residual.
   * The source panics on an empty palette (it reads `palette[0]`).
   */
  method MapToPalette(origColor: Color, palette: seq<Color>) returns (color: Color, qe: QuantizationError)
    requires |palette| > 0
    ensures color == palette[NearestIndex(origColor, palette)]
    ensures qe == Residual(origColor, color)
  {
    var minDistance: int := Infinity;
    color := palette[0];
    for i := 0 to |palette|
      invariant i == 0 ==> color == palette[0] && minDistance == Infinity
      invariant i > 0 ==> color == palette[NearestPrefix(origColor, palette, i)]
      invariant i > 0 ==> minDistance == Distance(origColor, color)
    {
      var c := palette[i];
      var distance := Distance(origColor, c);
      if distance < minDistance {
        color := c;
        minDistance := distance;
      }
    }
    qe := Residual(origColor, color);
  }

  // ---------------------------------------------------------------------------
  // Properties of the mapper
  // ---------------------------------------------------------------------------

  /** A color that is a palette entry maps to itself with zero error. */
  lemma NearestOfMember(c: Color, p: seq<Color>)
    requires c in p
    ensures Nearest(c, p) == c
    ensures Residual(c, Nearest(c, p)) == NoError
  {
    var j :| 0 <= j < |p| && p[j] == c;
    NearestIsClosest(c, p);
    assert Distance(c, Nearest(c, p)) <= Distance(c, p[j]) == 0;
  }

  /** Mapping is idempotent: a chosen entry maps to itself. */
  lemma NearestIdempotent(c: Color, p: seq<Color>)
    requires |p| > 0
    ensures Nearest(Nearest(c, p), p) == Nearest(c, p)
  {
    NearestOfMember(Nearest(c, p), p);
  }

  /** With the monochrome palette every color maps to black or white. */
  lemma NearestMonochrome(c: Color)
    ensures Nearest(c, PaletteMonochrome) == Black || Nearest(c, PaletteMonochrome) == White
  {
    PaletteFacts();
  }

  /** Unit-test scenario: reddish (200, 30, 10) maps to 0xcc3500 in the 8-color palette. */
  lemma NearestReddishIn8C()
    ensures Nearest(Color(200, 30, 10), Palette8C) == Color(0xcc, 0x35, 0x00)
  {
    var c, p := Color(200, 30, 10), Palette8C;
    var d := Distance(c, p[1]);
    assert d == 4 * 4 + 23 * 23 + 10 * 10;
    forall j | 0 <= j < |p|
      ensures d <= Distance(c, p[j])
    {
    }
    NearestIndexIsUnique(c, p, 1);
  }

  /**
   * With the monochrome palette a color maps to black exactly when its
   * channels sum to at most 382, that is when it is strictly nearer to black
   * than to white (the two distances differ by an even number from an odd
   * one, so they never tie).
   */
  lemma NearestMonochromeBySum(c: Color)
    ensures Nearest(c, PaletteMonochrome) == (if c.r + c.g + c.b <= 382 then Black else White)
  {
    var p := PaletteMonochrome;
    PaletteFacts();
    SquareFromTop(c.r);
    SquareFromTop(c.g);
    SquareFromTop(c.b);
    assert Distance(c, White) == Distance(c, Black) + 3 * 255 * 255 - 510 * (c.r + c.g + c.b);
    if c.r + c.g + c.b <= 382 {
      assert Distance(c, p[0]) < Distance(c, p[1]);
      NearestIndexIsUnique(c, p, 0);
    } else {
      assert Distance(c, p[1]) < Distance(c, p[0]);
      NearestIndexIsUnique(c, p, 1);
    }
  }

  lemma SquareFromTop(v: int)
    ensures Square(v - 255) == Square(v) - 510 * v + 255 * 255
  {
  }

  /** Greys map to the nearer of black and white: 128 is strictly nearer to 255. */
  lemma NearestGreysInMonochrome()
    ensures Nearest(Color(128, 128, 128), PaletteMonochrome) == White
    ensures Nearest(Color(127, 127, 127), PaletteMonochrome) == Black
  {
    NearestMonochromeBySum(Color(128, 128, 128));
    NearestMonochromeBySum(Color(127, 127, 127));
  }
}
