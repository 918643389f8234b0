# Mandelbrot renderer and pixel buffer, modelled in Dafny

This project models the core of panchr/mandelbrot, a C program that renders
the Mandelbrot set, z := z^exponent + c with z starting at c, into an RGB
image. The model has two parts.

**The pixel-buffer ADT of `src/image.c`** (`images.dfy`, module `Images`).
- `class Image` holds the width, the height and a flat `array<Pixel>` of RGB byte triples.
  - The source never changes these after `Image_new`, so they are `const` fields.
  - `Image_getWidth` and `Image_getHeight` are those fields. `Image_getSize` is `Size()`.
- `View()` reads the image as a value, `Raster(width, height, cells)`.
- Methods and their specifications:
  - `New` models `Image_new`.
  - `SetPixel` models `Image_setPixel` through `PixelIndex`, which is `Image_pixel`.
  - `Diff` and `CountRowDifferences` model `Image_diff`.
  - `PackRows`/`PackRow` and `UnpackRows`/`UnpackRow` model the byte loops of `Image_save` and `Image_fromFile`.
  - Each is proved against a function on the value: `DiffCount`, `PackedRows`, `Unpacked`, and the step-by-step counters `Counter`/`RowCounter`.
  - Lemmas relate those functions to each other and to the properties the code promises.
- Two quirks of the code are modelled as written:
  - `Image_pixel(row, col)` asserts `row < height` and `col < width` and reads offset `width*col + row`. Every caller passes its loop pair `(w, h)`, so the offset is the row-major one, but the asserts compare `w` with the height. They hold for every pixel only for square or empty images (`SwappedCallsSafe`), which is a precondition of every loop over a whole image; `Image_diff` needs only `DiffAssertsHold`, the asserts on the overlap it visits.
  - `Image_diff` starts its count at `width*height - other.width*other.height` in `size_t`. All its `size_t` arithmetic is taken modulo 2^64.

**The escape-time renderer, in two variants.**
- `escape_time.dfy` (module `EscapeTime`) states what both variants compute, over exact `real` arithmetic:
  - complex numbers, `Pow` as repeated multiplication, one `Step`, the `Orbit` from z = c;
  - the iterate each check of the unrolled loop sees (`Checked`), the strict root-free test (`Escapes`), and `Draws`.
- The two sources treat exponent 0 differently, so `ZeroExponentRule` distinguishes them:
  - `src/generate_mandelbrot_set.c` sets z to 1 and drops c (`DropC`);
  - `src/mandelbrot.c` returns 1 and the caller adds c (`AddC`).
- `rendering.dfy` (module `Rendering`) maps pixel (w, h) to a point of the plane and gives the colour it ends up with: blue (0, 0, 255) if drawn, `Image_new`'s black otherwise.
- `mandelbrot_lib.dfy` (module `MandelbrotLib`) models `src/generate_mandelbrot_set.c`: the out-parameter `crpow` over separate real and imaginary parts, and the renderer with caller-given bounds and radius.
- `mandelbrot_program.dfy` (module `MandelbrotProgram`) models `src/mandelbrot.c`:
  - the value-returning `crpow` and the static renderer over the fixed plane [-2, 2] x [-2, 2] with `LIMIT` 2;
  - `cabs(z) > LIMIT` as `|z|^2 > 4` (`CabsTest`);
  - a worked 4 x 4 render.
- Each renderer is a method whose loops are proved against `Draws`/`Rendered`.
  - A drawn pixel is blue, every other pixel keeps black, and the image is width x height.
  - An allocation failure gives `null`.

`ctypes.dfy` (module `CTypes`) holds `size_t` (`SizeT`, below 2^64), `unsigned long` (`ULong`, taken as 64 bits) and `Byte`.

Where the code differs from its own comments or documentation, the model follows the code:
- `Image_diff`'s size term wraps instead of being a difference of sizes.
- The escape check runs only after each pair of steps. The extra step taken for an odd `iterations` is never checked on its own.
- The exponent-0 step differs between the two renderers, as described above.

## Model

| member | source | states |
|---|---|---|
| Images.Image.New | src/image.c:57-79 | null exactly when allocation fails or width*height does not fit in size_t; otherwise a fresh image with the given width and height whose width*height pixels are all (0, 0, 0) |
| Images.Image.Size | src/image.c:203-207 | Image_getSize is the number of pixels the buffer holds, width*height |
| Images.Image.PixelIndex | src/image.c:353-360 | under Image_pixel's asserts the offset width*col + row lies inside the buffer whenever width <= height |
| Images.AssertedOffsetInBounds | src/image.c:356-359 | row < height, col < width and width <= height put width*col + row below width*height |
| Images.AssertedOffsetsInBoundsIff | src/image.c:353-360 | the asserts keep every admitted offset inside the width*height array exactly when width <= height (or the image is empty) |
| Images.SwappedCallsSafeIff | src/image.c:337-340 | callers passing (w, h) as (row, col) meet Image_pixel's asserts at every pixel exactly when the image is square or empty |
| Images.SwappedCallInBounds | src/image.c:170-171 | for a square or empty image every loop pair (w, h) passes the asserts and lands inside the buffer |
| Images.OffsetInjective | src/image.c:359 | with row < width, distinct (row, col) pairs never share an offset, so a write touches one pixel only |
| Images.Image.SetPixel | src/image.c:210-223 | exactly the triple at Image_pixel(row, col) becomes (red, green, blue); every other pixel is unchanged |
| Images.ReadAt | src/image.c:339-340 | the pixel read at Image_pixel(w, h) is pixel (w, h) of the image |
| Images.Image.Diff | src/image.c:318-349 | returns DiffCount: the size term plus the mismatching overlap pixels, modulo 2^64; neither image changes |
| Images.Image.CountRowDifferences | src/image.c:338-345 | the inner loop leaves RowCounter: one wrapped count++ per differing pair (w, h), w < wid |
| Images.RowCounterWraps | src/image.c:338-345 | wrapping at each count++ of a row equals adding the row's mismatches and wrapping once |
| Images.CounterWraps | src/image.c:334-346 | after n rows the counter is (size difference + mismatches in n rows) modulo 2^64 |
| Images.CounterIsDiffCount | src/image.c:334-348 | the counter after the whole overlap is DiffCount |
| Images.OverlapAreaFits | src/image.c:330-332 | the min-width x min-height overlap holds no more pixels than either image |
| Images.MismatchesSymmetric | src/image.c:342-344 | swapping the images does not change the number of differing overlap pixels |
| Images.MismatchesFlat | src/image.c:337-346 | for images of equal dimensions the row-by-row count is the count of differing positions in storage order |
| Images.DiffSelfIsZero | src/image.c:335-346 | Image_diff(a, a) is 0 (as written and as intended) |
| Images.SameDimensionsDiff | src/image.c:331-346 | for equal dimensions Image_diff counts the differing positions, is at most width*height, is symmetric and is 0 exactly when the images are equal |
| Images.DiffWrapsToZero | src/image.c:335 | a 3x3 black image against a 4x4 image differing at 7 of the 9 shared pixels gives 0 (and 14 the other way round) |
| Images.IntendedDiffCountProperties | src/image.c:334-335 | the absolute-difference count is symmetric, fits in size_t, equals Image_diff when the sizes agree, and is 0 exactly when sizes agree and no overlap pixel differs |
| Images.IntendedDiffZeroIffEqual | src/image.c:318-349 | for square images the absolute-difference count is 0 exactly when the images are equal |
| Images.CallocCountWraps | src/image.c:68 | a 2^32 x 2^32 request hands calloc a count of 0 while pixel (0, 0) passes every assert |
| Images.Image.PackRows | src/image.c:286-302 | the rows Image_save hands to libpng are PackedRows of the pixels; the image is unchanged |
| Images.Image.PackRow | src/image.c:295-301 | row h holds red, green, blue of pixels (0, h) .. (width - 1, h) in turn, 3*width bytes |
| Images.Image.UnpackRows | src/image.c:168-176 | after the loop the pixels are Unpacked(rows): row h's bytes fill pixels (0, h) .. (width - 1, h) |
| Images.Image.UnpackRow | src/image.c:169-175 | bytes 3w, 3w+1, 3w+2 of the row become pixel (w, h); pixels before the row keep their values, pixels after it are untouched |
| Images.PixelsOfBytes | src/image.c:172-174 | unpacking the bytes of a run of pixels gives back the pixels |
| Images.BytesOfPixels | src/image.c:298-300 | packing the pixels unpacked from 3n bytes gives back the bytes |
| Images.UnpackPacked | src/image.c:168-176 | unpacking the packed first n rows gives back the first n rows of pixels |
| Images.PackUnpacked | src/image.c:286-302 | packing the unpacked rows gives back the rows |
| Images.SaveThenLoad | src/image.c:168-176 | save then load yields the same image, at Image_diff distance 0 |
| EscapeTime.PowOne | src/generate_mandelbrot_set.c:114 | for exp = 1 the loop runs no multiplication and z^1 = z |
| EscapeTime.SquareIsPow | src/generate_mandelbrot_set.c:114-118 | z^2 = (x^2 - y^2, 2xy) |
| EscapeTime.NormPow | src/mandelbrot.c:176 | the squared magnitude of z^n is the n-th power of the squared magnitude of z |
| EscapeTime.FewIterationsDraw | src/generate_mandelbrot_set.c:77-91 | with iterations <= 1 the pair loop never runs and every point is drawn |
| EscapeTime.DrawsMonotoneInLimit | src/generate_mandelbrot_set.c:85 | a larger limit draws at least the same points |
| EscapeTime.OriginDraws | src/generate_mandelbrot_set.c:68-89 | for exponent >= 1 and a non-negative limit the origin is drawn |
| EscapeTime.ZeroExponentDraws | src/generate_mandelbrot_set.c:106-110 | exponent 0: drawn iff the loop does not run or the fixed value (1 when c is dropped, 1 + c when added) is not strictly outside the limit |
| EscapeTime.DrawsConj | src/generate_mandelbrot_set.c:68-89 | a point and its mirror image in the real axis are drawn alike |
| Rendering.Scale | src/generate_mandelbrot_set.c:38-39 | count pixels of the scale span max - min |
| Rendering.NextCoordinate | src/generate_mandelbrot_set.c:65-66 | x += x_scale moves to the coordinate of the next index |
| Rendering.Rendered | src/generate_mandelbrot_set.c:91 | a pixel is blue exactly when its point is drawn and black exactly when it is not |
| MandelbrotLib.CrPow | src/generate_mandelbrot_set.c:100-121 | exp = 0 gives (1, 0) with the extra dropped; exp >= 1 gives z^exp + extra; both are one DropC step |
| MandelbrotLib.EscapeTest | src/generate_mandelbrot_set.c:85 | the test zreal^2 + zimag^2 > limit holds exactly when z escapes: strict, and a point exactly on the radius is not out |
| MandelbrotLib.EscapeLoop | src/generate_mandelbrot_set.c:68-89 | draw is Draws for c = (x, y) and limit radius^2; a drawn point has taken exactly iterations steps |
| MandelbrotLib.RenderColumn | src/generate_mandelbrot_set.c:66-92 | column w gets its rendered colours; no other pixel changes |
| MandelbrotLib.GenerateMandelbrotSet | src/generate_mandelbrot_set.c:30-96 | null iff allocation fails; otherwise a width x height image in which every pixel is Rendered with the DropC rule, the caller's bounds and radius^2 |
| MandelbrotProgram.CabsTest | src/mandelbrot.c:155 | for the modulus m >= 0 of z, m > LIMIT exactly when z escapes the limit LIMIT^2 |
| MandelbrotProgram.CrPow | src/mandelbrot.c:169-177 | 1 for exp = 0, z^exp otherwise |
| MandelbrotProgram.StepPoint | src/mandelbrot.c:150 | z = crpow(z, exponent) + cpoint is one AddC step: 1 + c for exponent 0 |
| MandelbrotProgram.EscapeLoop | src/mandelbrot.c:139-159 | draw is Draws for cpoint under limit 4; a drawn point has taken exactly iterations steps |
| MandelbrotProgram.RenderColumn | src/mandelbrot.c:137-162 | column w gets its rendered colours; no other pixel changes |
| MandelbrotProgram.GenerateMandelbrotSet | src/mandelbrot.c:105-166 | null iff allocation fails; otherwise a width x height image of [-2, 2] x [-2, 2] in which every pixel is Rendered with the AddC rule and limit 4 |
| MandelbrotProgram.FourByFourGrid | src/mandelbrot.c:111-112 | a 4 x 4 image puts pixel (w, h) at (-2 + w, -2 + h) |
| MandelbrotProgram.FirstCheck | src/mandelbrot.c:148-151 | for an even iteration count the first check sees (c^2 + c)^2 + c |
| MandelbrotProgram.EscapesAtFirstCheck | src/mandelbrot.c:149-158 | for an even iteration count of at least 2, a point whose (c^2 + c)^2 + c has squared magnitude above 4 is not drawn |
| MandelbrotProgram.EscapingPixel | src/mandelbrot.c:155-161 | for an even iteration count of at least 2, a pixel whose point c has (c^2 + c)^2 + c of squared magnitude above 4 stays black |
| MandelbrotProgram.PeriodTwoOrbit | src/mandelbrot.c:150-151 | an orbit whose second step returns to c is back at c after every pair of steps |
| MandelbrotProgram.PeriodTwoDraws | src/mandelbrot.c:148-159 | a period-two orbit inside the limit is drawn for every iteration count |
| MandelbrotProgram.MinusOneToZero | src/mandelbrot.c:150 | with exponent 2, c = -1 steps from -1 to 0 |
| MandelbrotProgram.ZeroToMinusOne | src/mandelbrot.c:150 | with exponent 2, c = -1 steps from 0 back to -1 |
| MandelbrotProgram.MinusOneDraws | src/mandelbrot.c:148-159 | -1 is drawn for every iteration count |
| MandelbrotProgram.OriginPixelDrawn | src/mandelbrot.c:161 | in a 4 x 4 render, pixel (2, 2), the origin, is blue |
| MandelbrotProgram.MinusOnePixelDrawn | src/mandelbrot.c:161 | in a 4 x 4 render, pixel (1, 2), the point -1, is blue |
| MandelbrotProgram.CornerPixelEscapes | src/mandelbrot.c:155-158 | in a 4 x 4 render with an even iteration count of at least 2, the four corner pixels stay black |

## Left out

- libpng I/O is not modelled: file opening, `setjmp` error handling, the `png_*` calls, `Image_freePngRows` and the row allocations of `Image_save`/`Image_fromFile`. Only the pack and unpack loops are modelled.
- `Image_free` and the malloc/free bookkeeping are not modelled; Dafny manages memory.
- Allocation failure is an `allocOk` parameter: `Image.New` and both renderers return `null` where `malloc`/`calloc` fail. The renderers' `fprintf` and `exit(EXIT_FAILURE)` on that path are not modelled.
- `main` of `src/mandelbrot.c`, root `mandelbrot.c` and `src/imgdiff.c` (argument parsing, printing, saving, exit status) are not part of this model. Root `mandelbrot.c` depends on libm `cpow`/`cabs` and an image implementation that is not shown; its `main` also passes exponent and iterations in swapped order (mandelbrot.c:70).
- Floating point is modelled as exact `real` arithmetic. IEEE rounding, NaN, overflow and the drift of the accumulated `x += x_scale` / `y += y_scale` are not captured: the model's coordinates are exactly `min + i*scale`.
- `cabs` is taken as the exact modulus, and `CabsTest` relates it to the squared test.
- Rendering.Scale: for a zero width or height the C division by zero is replaced by 0, a value no pixel reads.
- Images.Image.SetPixel: requires the offset to lie inside the buffer. The C asserts alone do not ensure this when width > height, and the out-of-bounds write that follows, undefined behaviour in C, is not modelled. AssertedOffsetsInBoundsIff says exactly when the asserts suffice.
- Images.Image.New: fails when width*height does not fit in size_t, instead of allocating the wrapped count the C code hands to `calloc` (see Findings; CallocCountWraps states the as-written count).
- `unsigned long` is taken to be 64 bits wide; no arithmetic on iterations or exponent wraps in the code.

## Findings

| source | as written | input that shows it | evidently intended | confidence | as-written member | corrected member |
|---|---|---|---|---|---|---|
| src/image.c:335 | the count starts at `a.width*a.height - b.width*b.height` in `size_t`, which wraps when a is smaller | a 3x3 black image against a 4x4 image whose shared pixels differ at 7 of 9 places: 9 - 16 + 7 wraps to 0, so two different images compare equal | the absolute size difference plus the differing overlap pixels (14 here), 0 only for equal square images | not executed | Images.DiffWrapsToZero | Images.IntendedDiffZeroIffEqual |
| src/image.c:68 | `calloc(sizeof(struct Pixel), width * height)` computes the count in `size_t`, which wraps | width = height = 2^32: the count wraps to 0, yet the image records 2^32 x 2^32 and pixel (0, 0) passes every assert | fail with NULL, as for any allocation failure, when width*height pixels cannot be addressed | not executed | Images.CallocCountWraps | Images.Image.New |
