/**
 * The library renderer of src/generate_mandelbrot_set.c: complex numbers
 * as separate real and imaginary parts, a squared-magnitude escape test
 * against radius^2, and a power helper that writes z^exp + extra back over
 * z (and 1, with no extra, for exponent 0).
 */
module MandelbrotLib {
  import opened CTypes
  import opened Images
  import opened EscapeTime
  import opened Rendering

  /**
   * crpow: z^exp + extra, with z^exp built by exp - 1 multiplications by z;
   * exponent 0 yields 1 and drops the extra.  The C function writes its
   * result back through zreal and zimag; here it is returned.
   */
  method CrPow(zreal: real, zimag: real, exp: ULong, realExtra: real, imagExtra: real)
    returns (zreal': real, zimag': real)
    ensures exp == 0 ==> zreal' == 1.0 && zimag' == 0.0
    ensures exp >= 1 ==> Complex(zreal', zimag') == Add(Pow(Complex(zreal, zimag), exp), Complex(realExtra, imagExtra))
    ensures Complex(zreal', zimag') == Step(DropC, exp, Complex(realExtra, imagExtra), Complex(zreal, zimag))
  {
    var wreal, wimag := zreal, zimag;
    if exp == 0 {
      return 1.0, 0.0;
    }
    ghost var z := Complex(zreal, zimag);
    PowOne(z);
    var e := exp - 1;
    while e != 0
      invariant 0 <= e < exp
      invariant Complex(wreal, wimag) == Pow(z, exp - e)
    {
      var wrealTemp := zreal * wreal - zimag * wimag;
      wimag := zreal * wimag + zimag * wreal;
      wreal := wrealTemp;
      assert Complex(wreal, wimag) == Mul(z, Pow(z, exp - e));
      e := e - 1;
    }
    zreal', zimag' := wreal + realExtra, wimag + imagExtra;
  }

  /** The renderer's test zreal*zreal + zimag*zimag > limit is the strict, root-free Escapes. */
  lemma EscapeTest(zreal: real, zimag: real, limit: real)
    ensures zreal * zreal + zimag * zimag > limit <==> Escapes(Complex(zreal, zimag), limit)
  {
  }

  /**
   * The per-pixel block of the renderer: the orbit of c = (x, y) from
   * z = c, one unchecked step when iterations is odd, then pairs of steps
   * with the strict test |z|^2 > limit after each pair, stopping at the
   * first pair that escapes.  A drawn point has taken all `iterations` steps.
   */
  method EscapeLoop(x: real, y: real, iterations: ULong, exponent: ULong, limit: real)
    returns (draw: bool, zreal: real, zimag: real)
    ensures draw == Draws(DropC, exponent, Complex(x, y), iterations, limit)
    ensures draw ==> Complex(zreal, zimag) == Orbit(DropC, exponent, Complex(x, y), iterations)
  {
    ghost var c := Complex(x, y);
    zreal, zimag := x, y;
    draw := true;
    ghost var steps := 0;
    if iterations % 2 == 1 {
      zreal, zimag := CrPow(zreal, zimag, exponent, x, y);
      steps := 1;
    }
    var iter := 0;
    while iter < iterations / 2
      invariant iter <= iterations / 2
      invariant steps == iterations % 2 + 2 * iter
      invariant Complex(zreal, zimag) == Orbit(DropC, exponent, c, steps)
      invariant draw
      invariant forall k :: 0 <= k < iter ==> !Escapes(Checked(DropC, exponent, c, iterations, k), limit)
    {
      zreal, zimag := CrPow(zreal, zimag, exponent, x, y);
      assert Complex(zreal, zimag) == Orbit(DropC, exponent, c, steps + 1);
      zreal, zimag := CrPow(zreal, zimag, exponent, x, y);
      assert Complex(zreal, zimag) == Orbit(DropC, exponent, c, steps + 2);
      steps := steps + 2;
      assert Checked(DropC, exponent, c, iterations, iter) == Orbit(DropC, exponent, c, steps);
      EscapeTest(zreal, zimag, limit);
      if zreal * zreal + zimag * zimag > limit {
        draw := false;
        break;
      }
      iter := iter + 1;
    }
  }

  /**
   * The column loop of the renderer at column w, point x: every pixel
   * (w, h) it visits gets its rendered colour; no other pixel changes.
   */
  method RenderColumn(image: Image, g: Grid, iterations: ULong, exponent: ULong, limit: real, w: nat, x: real)
    requires image.Valid() && SwappedCallsSafe(image.width, image.height) && w < image.width
    requires x == Coordinate(g.xmin, g.xScale, w)
    requires forall h :: 0 <= h < image.height ==> At(image.View(), w, h) == Black
    modifies image.pixels
    ensures forall w', h' :: 0 <= w' < image.width && 0 <= h' < image.height ==>
      At(image.View(), w', h') == (if w' == w then Rendered(DropC, g, exponent, iterations, limit, w', h') else At(old(image.View()), w', h'))
  {
    var y := g.ymin;
    var h := 0;
    while h < image.height
      invariant h <= image.height
      invariant y == Coordinate(g.ymin, g.yScale, h)
      invariant forall w', h' :: 0 <= w' < image.width && 0 <= h' < image.height ==>
        At(image.View(), w', h') == (if w' == w && h' < h then Rendered(DropC, g, exponent, iterations, limit, w', h') else At(old(image.View()), w', h'))
    {
      var draw, _, _ := EscapeLoop(x, y, iterations, exponent, limit);
      assert Point(g, w, h) == Complex(x, y);
      ghost var before := image.View();
      if draw {
        SwappedCallInBounds(image.width, image.height, w, h);
        image.SetPixel(w, h, 0, 0, 255);
        assert At(image.View(), w, h) == Blue;
        forall w', h' | 0 <= w' < image.width && 0 <= h' < image.height && (w', h') != (w, h)
          ensures At(image.View(), w', h') == At(before, w', h')
        {
          RowMajorInBounds(image.width, image.height, w', h');
          if Offset(image.width, w', h') == Offset(image.width, w, h) {
            OffsetInjective(image.width, w', h', w, h);
          }
        }
      }
      NextCoordinate(g.ymin, g.yScale, h);
      y := y + g.yScale;
      h := h + 1;
    }
  }

  /**
   * generate_mandelbrot_set: a width x height image in which exactly the
   * pixels whose point is drawn are blue (0, 0, 255) and every other pixel
   * keeps Image_new's black; null where Image_new fails.  Its
   * Image_setPixel(image, w, h, ...) calls pass Image_pixel's asserts only
   * for square (or empty) images.
   */
  method GenerateMandelbrotSet(width: SizeT, height: SizeT, iterations: ULong, exponent: ULong,
                               xmin: real, xmax: real, ymin: real, ymax: real, radius: real, allocOk: bool)
    returns (image: Image?)
    requires SwappedCallsSafe(width, height)
    ensures image == null <==> AllocationFails(width, height, allocOk)
    ensures image != null ==> fresh(image) && image.Valid() && image.width == width && image.height == height
    ensures image != null ==> forall w, h :: 0 <= w < width && 0 <= h < height ==>
      At(image.View(), w, h) == Rendered(DropC, GridOf(width, height, xmin, xmax, ymin, ymax), exponent, iterations, radius * radius, w, h)
  {
    var g := GridOf(width, height, xmin, xmax, ymin, ymax);
    var limit := radius * radius;
    image := Image.New(width, height, allocOk);
    if image == null {
      return;
    }
    assert forall w, h :: 0 <= w < width && 0 <= h < height ==> At(image.View(), w, h) == Black by {
      forall w, h | 0 <= w < width && 0 <= h < height
        ensures At(image.View(), w, h) == Black
      {
        RowMajorInBounds(width, height, w, h);
      }
    }
    var x := xmin;
    var w := 0;
    while w < width
      invariant w <= width
      invariant x == Coordinate(g.xmin, g.xScale, w)
      invariant fresh(image.pixels) && image.Valid()
      invariant forall w', h' :: 0 <= w' < width && 0 <= h' < height ==>
        At(image.View(), w', h') == (if w' < w then Rendered(DropC, g, exponent, iterations, limit, w', h') else Black)
    {
      RenderColumn(image, g, iterations, exponent, limit, w, x);
      NextCoordinate(g.xmin, g.xScale, w);
      x := x + g.xScale;
      w := w + 1;
    }
  }
}
