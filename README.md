# dithers — a verified model of the dithering engine

`dithers` reduces an RGB24 image to a small fixed palette. The image is a flat
byte buffer: pixel `(x, y)` of a `width`-by-`height` image has its red, green and
blue samples at `3 * (y * width + x)`, `+ 1` and `+ 2`. This project models the
engine in Dafny:

- **Palette** (`palette.dfy`). It models:
  - the `Color` record and the two conversions into it (from a packed `u32` and from a byte slice);
  - the three constant palettes (monochrome, 8 and 16 colours);
  - `map_to_palette`, a linear scan for the entry at the least squared RGB distance. Ties go to the first such entry. The scan also returns the per-channel quantisation error.
- **Pixels** (`pixels.dfy`). Addressing helpers: reading and writing one pixel of the buffer, and the raster-order arithmetic that links a pixel number to its column and row.
- **DitherTables** (`tables.dfy`). It models:
  - the `DitherMethod` enumeration;
  - the nine error-diffusion kernels, each with its width, height and x-offset;
  - the three Bayer threshold matrices.
- **Diffusion** (`diffusion.dfy`). `apply_error_diffusion`: it quantises every pixel in raster order, then spreads the error over the later pixels that the kernel reaches.
- **OrderedDithering** (`ordered.dfy`). `apply_bayer_dithering`: each pixel is moved by its tiled threshold, then quantised.
- **Dither** (`dither.rs`'s `dither`, in `dither.dfy`). The dispatcher. It picks the palette and routes the request to plain quantisation (`None`), to Bayer dithering or to error diffusion.

The structure of the model:

- **Buffer and methods.** The buffer is an `array<Byte>`. Each imperative operation is a `method` with the source's loops. The method ensures that the final buffer equals a specification function of the initial one: `Quantized`, `Ordered`, `Diffused` and `Dithered`.
- **Lemmas about the specification functions.** Each pixel ends as a palette entry. Diffusion never writes a pixel once it has been quantised. Bayer output at a pixel depends only on that pixel and its position. A buffer already in the palette is a fixed point of `None` and of every diffusion kernel.
- **Kernel tables.** Each kernel has `width * height` weights. The weights sum to 1, except Atkinson's, which sum to 6/8. Every non-zero weight targets a later pixel.
- **Bayer matrices.** The matrices follow the recurrence documented above them in `dither.rs`.

**Arithmetic.** Distances and quantisation errors are differences of bytes, so they are exact integers. The source stores them in `f32`.

The two genuinely fractional steps are modelled on `real`:

- **Diffusion write.** Add `error * weight`, round half away from zero, then clamp to 0..255.
- **Bayer perturbation.** Compute `clamp01(v / 255 + t - 0.5) * 255`, truncated towards zero. The value is non-negative there, so truncation is `Floor`.

**Consequence of the Bayer perturbation.** The perturbation is centred on `t = 0.5` and the matrices start at `t = 0`. So a pure white pixel at a zero-threshold cell becomes 127 and is then quantised to black in the monochrome palette (`OrderedDithering.OrderedWhiteAtZeroTurnsBlack`, `Dither.DitherBayerMovesWhite`).

**Buffer length.** The code indexes only the first `3 * width * height` bytes and leaves any tail alone. A shorter buffer panics on an out-of-range index: the slice reads at src/dither.rs:245, 279, 330 or, for diffusion, the neighbour stores at src/dither.rs:305-307 (Floyd–Steinberg on a 2x1 image with a 3-byte buffer reads pixel 0 and then stores at byte 3). The model's `requires 3 * (width * height) <= buffer.Length` excludes these cases; `Dither.DitheredTail` proves that the tail is untouched. A zero width or height runs no loop iteration, in the code and in the model.

## Model

| member | source | states |
|---|---|---|
| Palette.FromU32OfPack | src/palette.rs:27-35 | unpacking a packed colour (`r << 16 \| g << 8 \| b`) gives r from bits 16–23, g from bits 8–15 and b from bits 0–7 back |
| Palette.FromU32 | src/palette.rs:27-35 | `Color::from(u32)`: packing the colour read from a `u32` gives back its low 24 bits, so r, g, b are bits 16–23, 8–15, 0–7 and bits 24–31 are dropped |
| Palette.FromU32Orange | src/palette.rs:115-120 | 0xFF8000 gives (255, 128, 0) |
| Palette.FromSlice | src/palette.rs:37-41 | the colour's channels are elements 0, 1, 2 of a slice of at least three bytes |
| Palette.FromSliceOfChannels | src/palette.rs:37-41 | reading a colour back from its own three channel bytes gives the colour |
| Palette.PalettesArePacked | src/palette.rs:70-103 | every entry of the three palettes is the colour of the packed hex value at the same index |
| Palette.PaletteFacts | src/palette.rs:131-146 | the palettes have 2, 8 and 16 entries; monochrome is [black, white]; the 8- and 16-colour palettes contain black and white (also src/palette.rs:180-195) |
| Palette.Square | src/palette.rs:55 | `powi(2)` of a channel difference is zero exactly when the difference is, and at most 255² for a byte difference |
| Palette.Distance | src/palette.rs:52-55 | the squared RGB distance is below the initial `INFINITY` and is zero exactly when the colours are equal |
| Palette.Residual | src/palette.rs:61-65 | the error is original minus chosen per channel, each in [-255, 255], and zero exactly when the colours agree |
| Palette.NearestPrefix | src/palette.rs:49-60 | the index the scan holds after n entries is one of those n, and its entry is no farther than the first and the last entry scanned; `Palette.NearestPrefixIsFirstNearest` states which index it is |
| Palette.NearestPrefixIsFirstNearest | src/palette.rs:49-60 | after scanning n entries, the selected index has the least distance among them and is the first to reach it (strict `<`) |
| Palette.NearestIndex | src/palette.rs:49-60 | the index the full scan selects is inside the palette; `Palette.NearestIndexIsUnique` fixes it as the first of least distance |
| Palette.NearestIndexIsUnique | src/palette.rs:56-59 | the selected index is k if and only if k is the first index of least distance: the tie-break is fixed |
| Palette.Nearest | src/palette.rs:46-68 | the chosen colour is an entry of the (non-empty) palette |
| Palette.NearestIsClosest | src/palette.rs:51-59 | no palette entry is strictly closer than the chosen one |
| Palette.MapToPalette | src/palette.rs:46-68 | the loop returns the first nearest entry and the residual original minus chosen |
| Palette.NearestOfMember | src/palette.rs:149-159 | a colour that is a palette entry maps to itself with zero error |
| Palette.NearestIdempotent | src/palette.rs:46-68 | mapping a mapped colour again changes nothing |
| Palette.NearestMonochrome | src/palette.rs:161-168 | in the monochrome palette every colour maps to black or white |
| Palette.NearestMonochromeBySum | src/palette.rs:46-68 | in the monochrome palette a colour maps to black exactly when r + g + b <= 382; the two distances never tie |
| Palette.NearestGreysInMonochrome | src/palette.rs:161-177 | grey 128 maps to white and grey 127 to black |
| Palette.NearestReddishIn8C | src/palette.rs:197-207 | (200, 30, 10) maps to 0xcc3500 in the 8-colour palette |
| Pixels.PixelAt | src/dither.rs:244-245 | the pixel read at p holds the bytes 3p, 3p+1, 3p+2 |
| Pixels.SetPixel | src/dither.rs:246-248 | the three byte stores of a pixel (also src/dither.rs:280-282, 336-338) keep the buffer length; what they write and keep is `Pixels.SetPixelFrame` |
| Pixels.SetPixelFrame | src/dither.rs:246-248 | after the three stores pixel p holds the colour and every other byte is unchanged |
| Pixels.SetPixelOwnColor | src/dither.rs:244-248 | storing a pixel's own colour back leaves the buffer unchanged |
| Pixels.CoordinatesOf | src/dither.rs:276-278 | pixel (x, y) has number y * w + x < w * h, and its column and row are x and y |
| Pixels.Column | src/dither.rs:276-278 | the column of every pixel number below w * h lies below w |
| Pixels.Row | src/dither.rs:276-278 | every pixel number below w * h has a row below h that, with its column below w, gives the number back |
| Pixels.RasterLater | src/dither.rs:276-277 | raster order on coordinates is the order of pixel numbers |
| DitherTables.KernelOf | src/dither.rs:263-272 | each diffusion method's kernel has `width * height` weights, a non-negative weight per cell, an x-offset inside row 0, and non-zero row-0 cells only right of the offset |
| DitherTables.FloydSteinbergWellFormed | src/dither.rs:34 | the Floyd–Steinberg table fits its 3x2 shape with offset 1 and is causal |
| DitherTables.Simple2DWellFormed | src/dither.rs:144 | the Simple2D table fits its 2x2 shape with offset 0 and is causal |
| DitherTables.JarvisWellFormed | src/dither.rs:35-51 | the Jarvis table fits its 5x3 shape with offset 2 and is causal |
| DitherTables.AtkinsonWellFormed | src/dither.rs:146 | the Atkinson table fits its 4x3 shape with offset 1 and is causal |
| DitherTables.StuckiWellFormed | src/dither.rs:148-164 | the Stucki table fits its 5x3 shape with offset 2 and is causal |
| DitherTables.BurkesWellFormed | src/dither.rs:166-177 | the Burkes table fits its 5x2 shape with offset 2 and is causal |
| DitherTables.SierraWellFormed | src/dither.rs:179-195 | the Sierra table fits its 5x3 shape with offset 2 and is causal |
| DitherTables.TwoRowSierraWellFormed | src/dither.rs:196-207 | the two-row Sierra table fits its 5x2 shape with offset 2 and is causal |
| DitherTables.SierraLiteWellFormed | src/dither.rs:208 | the Sierra Lite table fits its 3x2 shape with offset 1 and is causal |
| DitherTables.SumConcat | src/dither.rs:399-407 | the sum of a concatenation of weight rows is the sum of the parts |
| DitherTables.KernelWeightSums | src/dither.rs:399-407 | every kernel's weights sum to 1, except Atkinson's, which sum to 6/8 |
| DitherTables.FloydSteinbergSum | src/dither.rs:399-403 | the Floyd–Steinberg weights sum to 1 |
| DitherTables.SierraLiteSum | src/dither.rs:404-406 | the Sierra Lite weights sum to 1 |
| DitherTables.AtkinsonSum | src/dither.rs:146 | the Atkinson weights sum to 6/8 |
| DitherTables.JarvisSum | src/dither.rs:35-51 | the Jarvis weights sum to 1 |
| DitherTables.StuckiSum | src/dither.rs:148-164 | the Stucki weights sum to 1 |
| DitherTables.BurkesSum | src/dither.rs:166-177 | the Burkes weights sum to 1 |
| DitherTables.SierraSum | src/dither.rs:179-195 | the Sierra weights sum to 1 |
| DitherTables.TwoRowSierraSum | src/dither.rs:196-207 | the two-row Sierra weights sum to 1 |
| DitherTables.Simple2DSum | src/dither.rs:144 | the Simple2D weights sum to 1 |
| DitherTables.MatrixOf | src/dither.rs:315-318 | each Bayer method's matrix has a positive side N, `N * N` entries, and every entry in [0, 1) |
| DitherTables.Bayer8x8InRange | src/dither.rs:77-142 | every entry of the 8x8 matrix lies in [0, 1) |
| DitherTables.CellIndexBound | src/dither.rs:325-327 | the index `(y mod N) * N + (x mod N)` lies inside the N x N matrix |
| DitherTables.Bayer2x2FromBayer1x1 | src/dither.rs:52-56 | the 2x2 matrix, scaled to ranks, is the recurrence applied to Bayer(0) = [0] |
| DitherTables.Bayer4x4FromBayer2x2 | src/dither.rs:52-75 | every 2x2 block of the 4x4 ranks is 4 * Bayer(2x2) + 0, 2, 3, 1 in the documented quadrant layout |
| DitherTables.Bayer8x8FromBayer4x4 | src/dither.rs:52-142 | every quadrant of the 8x8 ranks is 4 * Bayer(4x4) + 0, 2, 3, 1 in the documented layout |
| Diffusion.RoundHalfAway | src/dither.rs:305-307 | the rounded value is within 1/2 of its argument, with halves rounded away from zero |
| Diffusion.RoundHalfAwayOdd | src/dither.rs:305-307 | rounding commutes with negation |
| Diffusion.RoundHalfAwayOfInt | src/dither.rs:305-307 | rounding an integral value returns it |
| Diffusion.ClampByte | src/dither.rs:305-307 | a value in 0..255 is kept, anything below becomes 0 and anything above 255 |
| Diffusion.DiffuseChannel | src/dither.rs:305-307 | a zero error leaves the byte alone; a non-negative weight moves the byte in the direction of the error |
| Diffusion.DiffuseColor | src/dither.rs:305-307 | the three neighbour stores: a zero error leaves the colour unchanged, and with a non-negative weight each channel moves in the direction of its own error |
| Diffusion.TargetX | src/dither.rs:292 | the neighbour column `nx` lies within the kernel's width of the current column, shifted left by the x-offset |
| Diffusion.TargetY | src/dither.rs:293 | the neighbour row `ny` is the current row exactly for the kernel's first row, and lies less than the kernel's height below it |
| Diffusion.Applies | src/dither.rs:288-302 | a cell that passes the three `continue` skips has a non-zero weight and a target inside the image; a cell at or left of the x-offset in the kernel's first row never passes them |
| Diffusion.SpreadCell | src/dither.rs:287-307 | one kernel cell's skips and writes keep the buffer length; `Diffusion.SkippedCell` and `Diffusion.AppliedCell` state what it writes |
| Diffusion.SpreadCells | src/dither.rs:285-309 | the first n cells of the ky/kx loops, in row-major order, keep the buffer length; `Diffusion.SpreadCellsFrame` states what they may change |
| Diffusion.PixelStep | src/dither.rs:278-309 | one pass of the diffusion pixel loop (quantise, store, spread) keeps the buffer length; `Diffusion.PixelStepFrame` and `Diffusion.PixelStepColor` state its effect |
| Diffusion.Diffused | src/dither.rs:276-311 | the first n pixel steps in raster order keep the buffer length; the lemmas below state its pixels |
| Diffusion.AppliedTargetIsLater | src/dither.rs:285-304 | a cell that passes the three skips targets an in-image pixel strictly later in raster order |
| Diffusion.SkippedCell | src/dither.rs:288-302 | a zero weight, the current pixel or an off-image target leaves the buffer unchanged |
| Diffusion.AppliedCell | src/dither.rs:292-307 | an applied cell rewrites exactly the target pixel `(cx + kx - offset, cy + ky)` with the diffused colour |
| Diffusion.SpreadCellsFrame | src/dither.rs:285-309 | spreading one pixel's error changes only pixels after it and inside the image |
| Diffusion.SpreadNoError | src/dither.rs:285-309 | spreading a zero error changes nothing |
| Diffusion.PixelStepFrame | src/dither.rs:278-309 | one pixel's step changes no earlier pixel and nothing beyond the image |
| Diffusion.PixelStepColor | src/dither.rs:279-282 | after its step, the pixel holds the palette's nearest entry to its value before the step |
| Diffusion.PixelStepOfMember | src/dither.rs:279-307 | the step of a pixel that already is a palette entry changes nothing |
| Diffusion.DiffusedTail | src/dither.rs:276-311 | diffusion changes no byte beyond `3 * width * height` |
| Diffusion.DiffusedSettles | src/dither.rs:276-311 | once the scan has passed pixel p, no later step writes it again |
| Diffusion.DiffusedStep | src/dither.rs:276-311 | each step of the scan keeps earlier pixels and the tail, and quantises the current pixel |
| Diffusion.DiffusedPixel | src/dither.rs:276-311 | in the final buffer, pixel p is the nearest entry to the value p had when the scan reached it |
| Diffusion.DiffusedFirstPixel | src/dither.rs:276-282 | the first pixel is quantised from its original value |
| Diffusion.DiffusedAllInPalette | src/dither.rs:276-311 | every scanned pixel is an entry of the palette |
| Diffusion.DiffusedFixedPoint | src/dither.rs:276-311 | a buffer whose pixels are all palette entries is left unchanged |
| Diffusion.DiffuseCell | src/dither.rs:287-307 | one kernel cell's skips and three writes produce exactly the specified cell update |
| Diffusion.SpreadError | src/dither.rs:285-309 | the ky/kx loops produce the specified spread of one pixel's error over all kernel cells |
| Diffusion.ScannedStep | src/dither.rs:276-311 | quantising pixel (x, y) and spreading its error advances the scan by one pixel |
| Diffusion.ScannedEnds | src/dither.rs:276-311 | the scan starts at the original buffer, and after the last row it is the full diffusion |
| Diffusion.DiffusePixel | src/dither.rs:278-309 | the body of the pixel loop advances the scan invariant by one pixel |
| Diffusion.ApplyErrorDiffusion | src/dither.rs:261-312 | for a diffusion method the buffer ends as the raster-order diffusion of its old contents with that method's kernel; for any other method it is untouched |
| OrderedDithering.Clamp01 | src/dither.rs:331-333 | the clamped value lies in [0, 1]: a value inside is returned unchanged, one below becomes 0 and one above becomes 1 |
| OrderedDithering.PerturbMidpoint | src/dither.rs:331-333 | in the exact-rational perturbation, a threshold of 1/2 leaves every byte as it is |
| OrderedDithering.Perturb | src/dither.rs:331-333 | one sample perturbed by its threshold, clamped and truncated; with a threshold in [0, 1) a byte moves down by at most 128 and up by at most 127 |
| OrderedDithering.PerturbDirection | src/dither.rs:331-333 | in the exact-rational perturbation, a threshold below 1/2 never raises a byte and one above 1/2 never lowers it |
| OrderedDithering.PerturbMonotone | src/dither.rs:331-333 | the perturbed byte grows with both the byte and the threshold |
| OrderedDithering.PerturbColor | src/dither.rs:331-333 | the three channel writes: with a threshold in [0, 1) each channel moves down by at most 128 and up by at most 127, and black stays black for a threshold up to 1/2 |
| OrderedDithering.ThresholdAt | src/dither.rs:325-327 | the threshold of every pixel lies in [0, 1) |
| OrderedDithering.ThresholdPeriodic | src/dither.rs:325-327 | the threshold pattern repeats every N pixels across and down |
| OrderedDithering.OrderedColor | src/dither.rs:330-335 | the perturbed and quantised colour is a palette entry |
| OrderedDithering.OrderStep | src/dither.rs:324-338 | one pass of the Bayer pixel loop keeps the buffer length; `OrderedDithering.OrderStepFrame` states its effect |
| OrderedDithering.Ordered | src/dither.rs:322-340 | the first n Bayer pixel steps in raster order keep the buffer length; the lemmas below state its pixels |
| OrderedDithering.OrderedBlackStaysBlack | src/dither.rs:330-335 | black stays black under every threshold with the monochrome palette |
| OrderedDithering.OrderedWhiteAtZeroTurnsBlack | src/dither.rs:330-335 | white at a zero-threshold cell becomes black with the monochrome palette |
| OrderedDithering.OrderedUntouched | src/dither.rs:322-340 | pixels the scan has not reached yet keep their bytes |
| OrderedDithering.OrderStepFrame | src/dither.rs:324-338 | one pixel's step rewrites that pixel only |
| OrderedDithering.OrderedSettles | src/dither.rs:322-340 | a pixel the scan has passed is not written again |
| OrderedDithering.OrderedPixel | src/dither.rs:322-340 | each output pixel is the perturbed and quantised original pixel, at its own column and row |
| OrderedDithering.OrderedPixelAt | src/dither.rs:322-340 | output pixel (x, y) is the perturbed and quantised original pixel with the threshold of (x, y) |
| OrderedDithering.OrderedLocal | src/dither.rs:322-340 | two buffers that agree on pixel p give the same output at p: no state passes between pixels |
| OrderedDithering.OrderedAllInPalette | src/dither.rs:322-340 | every output pixel is a palette entry |
| OrderedDithering.OrderedToStep | src/dither.rs:324-338 | one step of the scan advances the scan invariant by one pixel |
| OrderedDithering.OrderedToEnds | src/dither.rs:322-340 | the scan starts at the original buffer, and after the last row it is the full ordered dithering |
| OrderedDithering.OrderPixel | src/dither.rs:324-338 | the body of the pixel loop advances the scan invariant by one pixel |
| OrderedDithering.ApplyBayerDithering | src/dither.rs:314-341 | for a Bayer method the buffer ends as the ordered dithering of its old contents with that method's matrix; for any other method it is untouched |
| Dither.PaletteOf | src/dither.rs:233-237 | each palette selection gives a non-empty palette holding black and white, and monochrome is exactly [black, white] |
| Dither.QuantizeStep | src/dither.rs:244-248 | one pass of the `None` pixel loop keeps the buffer length; `Dither.QuantizedPixel` states its effect |
| Dither.Quantized | src/dither.rs:242-250 | the first n `None` pixel steps in raster order keep the buffer length |
| Dither.Dithered | src/dither.rs:231-259 | `dither` never changes the buffer length, for every method and palette (also src/dither.rs:441-449, 480-507) |
| Dither.QuantizeStepFrame | src/dither.rs:244-248 | one `None` pixel step gives pixel p the nearest entry to what it held and changes no other byte |
| Dither.QuantizedUntouched | src/dither.rs:242-250 | after n steps of the `None` scan, pixel n and everything after it are unchanged |
| Dither.QuantizedSettles | src/dither.rs:242-250 | once the `None` scan has passed pixel p, no later step writes it again |
| Dither.QuantizedPixel | src/dither.rs:240-251 | each output pixel of `None` is the nearest entry to that pixel's own original value |
| Dither.QuantizeStepOfMember | src/dither.rs:244-248 | quantising a pixel that is already a palette entry changes nothing |
| Dither.QuantizedFixedPoint | src/dither.rs:240-251 | `None` leaves a buffer already in the palette unchanged |
| Dither.DitheredAllInPalette | src/dither.rs:231-259 | after every method, every pixel is an entry of the selected palette |
| Dither.DitheredMonochrome | tests/dither_integration_tests.rs:98-115 | with the monochrome palette, every output pixel is black or white, for every method |
| Dither.DitheredTail | src/dither.rs:231-259 | no method changes a byte beyond `3 * width * height` |
| Dither.DitheredIdempotent | src/dither.rs:231-259 | dithering again with `None` or a diffusion method changes nothing |
| Dither.DitherNoneScenario | src/dither.rs:410-428 | `None` with the monochrome palette turns [128,128,128, 64,64,64] into [255,255,255, 0,0,0] |
| Dither.DitheredChanges | src/dither.rs:431-438 | when some pixel is not a palette entry, dithering changes the buffer |
| Dither.DitherModifiesScenario | src/dither.rs:431-438 | Floyd–Steinberg with the 8-colour palette changes [100,150,200, 50,75,25] |
| Dither.DitherBayerMovesWhite | src/dither.rs:314-341 | a single white pixel under 2x2 Bayer dithering with the monochrome palette becomes black |
| Dither.QuantizePixel | src/dither.rs:244-248 | the body of the `None` loop advances the scan invariant by one pixel |
| Dither.Quantize | src/dither.rs:240-251 | the `None` loops leave the buffer as the pixel-wise quantisation of its old contents |
| Dither.Dither | src/dither.rs:231-259 | the buffer ends as the specified dithering of its old contents for the selected method and palette |

## Left out

- **Floating point.** Bit-exact `f32` behaviour is not modelled: `powi`, `round`, `clamp`, the `as u8` casts, the inexact weights such as 7/48 and 1/42, and the division by 255.0. The model uses exact rationals. Distances and errors are exact integers, as they are in `f32` for byte differences.
- **Integer width.** Overflow of `u32` and `usize` in `(cy * width + cx) * 3` for images too large to address is not modelled. Integers are unbounded.
- **Image files.** `open_image` and `save_image` are file I/O through the `image` crate.
- **Other sources.** `src/args.rs` (command-line parsing), `src/main.rs` (CLI glue and output file names) and `src/lib.rs` (module declarations) are not part of this model.
- OrderedDithering.PerturbMidpoint: holds only of the exact-rational perturbation. In `f32` the threshold 1/2, which occurs in every Bayer matrix, lowers 127 of the 256 byte values by one (128 becomes 127.99999… and then 127), so grey 128 on such a cell is black in the program and white in the model.
- OrderedDithering.PerturbDirection: a statement about the exact-rational perturbation; at t = 1/2 the `f32` computation lowers bytes, so the "never lowers" half does not carry over there.
- **Derives and defaults.** The `clap::ValueEnum` derives are not modelled, nor are the `Default` impls: the defaults are Floyd–Steinberg and Monochrome.
- **QuantizationError's `f32` fields.** They are integers in the model, because every error the engine computes is a difference of two bytes.
- **Integration tests.** The tests that decode a JPEG fixture are used only as statements of properties.
- **Method structure.** Bodies are split into methods so that each proof stays small. No loop has been added.
  - The pixel-loop bodies are the methods `Diffusion.DiffusePixel`, `OrderedDithering.OrderPixel` and `Dither.QuantizePixel`.
  - The kernel loops are `Diffusion.SpreadError` and `Diffusion.DiffuseCell`.
  - The `None` branch of `dither` is `Dither.Quantize`.
- **Order of the stores.** A reordering of the three byte stores within a pixel would not be visible in the model: it states whole-buffer results.
- Dither.DitheredIdempotent: not claimed for Bayer methods. Under Bayer, a buffer whose pixels are all palette entries is not a fixed point: the perturbation can move a palette entry, e.g. white at a zero-threshold cell, as `Dither.DitherBayerMovesWhite` shows.
