/**
 * The stand-alone renderer of src/mandelbrot.c: C `double complex` values,
 * the plane fixed at [-2, 2] x [-2, 2], the escape test cabs(z) > LIMIT with
 * LIMIT 2, and a power helper that returns z^exp (1 for exponent 0), to
 * which the caller always adds c.
 */
module MandelbrotProgram {
  import opened CTypes
  import opened Images
  import opened EscapeTime
  import opened Rendering

  const XMIN: real := -2.0
  const XMAX: real := 2.0
  const YMIN: real := -2.0
  const YMAX: real := 2.0

  /** The escape radius cabs(z) is compared with. */
  const LIMIT: real := 2.0

  /** The plane of every render: the fixed bounds spread over width x height pixels. */
  function PlaneGrid(width: nat, height: nat): Grid {
    GridOf(width, height, XMIN, XMAX, YMIN, YMAX)
  }

  /**
   * cabs(z) > LIMIT over the reals: for the modulus m >= 0 of z (m * m = |z|^2),
   * m > 2 exactly when |z|^2 > 4, so the test is the squared test with limit 4.
   */
  lemma CabsTest(z: Complex, modulus: real)
    requires modulus >= 0.0 && modulus * modulus == Norm2(z)
    ensures modulus > LIMIT <==> Escapes(z, LIMIT * LIMIT)
  {
    if modulus > 2.0 {
      assert modulus * modulus > 2.0 * modulus;
    } else {
      assert modulus * modulus <= 2.0 * modulus;
    }
  }

  /** crpow: z^exp by exp - 1 multiplications `w *= z`; 1 for exponent 0. */
  method CrPow(z: Complex, exp: ULong) returns (w: Complex)
    ensures exp == 0 ==> w == One
    ensures exp >= 1 ==> w == Pow(z, exp)
  {
    w := z;
    if exp == 0 {
      return One;
    }
    PowOne(z);
    var e := exp - 1;
    while e != 0
      invariant 0 <= e < exp
      invariant w == Pow(z, exp - e)
    {
      w := Mul(w, z);
      e := e - 1;
    }
  }

  /** One step z = crpow(z, exponent) + cpoint: z^exponent + c, and 1 + c for exponent 0. */
  method StepPoint(z: Complex, exponent: ULong, cpoint: Complex) returns (z': Complex)
    ensures exponent == 0 ==> z' == Add(One, cpoint)
    ensures exponent >= 1 ==> z' == Add(Pow(z, exponent), cpoint)
    ensures z' == Step(AddC, exponent, cpoint, z)
  {
    var p := CrPow(z, exponent);
    z' := Add(p, cpoint);
  }

  /**
   * The per-pixel block of the renderer: the orbit of cpoint from
   * z = cpoint, one unchecked step when iterations is odd, then pairs of
   * steps with the test cabs(z) > LIMIT after each pair, stopping at the
   * first pair that escapes.  A drawn point has taken all `iterations` steps.
   */
  method EscapeLoop(cpoint: Complex, iterations: ULong, exponent: ULong)
    returns (draw: bool, z: Complex)
    ensures draw == Draws(AddC, exponent, cpoint, iterations, LIMIT * LIMIT)
    ensures draw ==> z == Orbit(AddC, exponent, cpoint, iterations)
  {
    z := cpoint;
    draw := true;
    ghost var steps := 0;
    if iterations % 2 == 1 {
      z := StepPoint(z, exponent, cpoint);
      steps := 1;
    }
    var iter := 0;
    while iter < iterations / 2
      invariant iter <= iterations / 2
      invariant steps == iterations % 2 + 2 * iter
      invariant z == Orbit(AddC, exponent, cpoint, steps)
      invariant draw
      invariant forall k :: 0 <= k < iter ==> !Escapes(Checked(AddC, exponent, cpoint, iterations, k), LIMIT * LIMIT)
    {
      z := StepPoint(z, exponent, cpoint);
      assert z == Orbit(AddC, exponent, cpoint, steps + 1);
      z := StepPoint(z, exponent, cpoint);
      assert z == Orbit(AddC, exponent, cpoint, steps + 2);
      steps := steps + 2;
      assert Checked(AddC, exponent, cpoint, iterations, iter) == z;
      // cabs(z) > LIMIT, compared without the root (CabsTest)
      if Norm2(z) > LIMIT * LIMIT {
        draw := false;
        break;
      }
      iter := iter + 1;
    }
  }

  /**
   * The column loop of the renderer at column w, point x: every pixel
   * (w, h) it visits gets its rendered colour; no other pixel changes.
   */
  method RenderColumn(image: Image, iterations: ULong, exponent: ULong, w: nat, x: real)
    requires image.Valid() && SwappedCallsSafe(image.width, image.height) && w < image.width
    requires x == Coordinate(XMIN, PlaneGrid(image.width, image.height).xScale, w)
    requires forall h :: 0 <= h < image.height ==> At(image.View(), w, h) == Black
    modifies image.pixels
    ensures forall w', h' :: 0 <= w' < image.width && 0 <= h' < image.height ==>
      At(image.View(), w', h') == (if w' == w then Rendered(AddC, PlaneGrid(image.width, image.height), exponent, iterations, LIMIT * LIMIT, w', h') else At(old(image.View()), w', h'))
  {
    var g := PlaneGrid(image.width, image.height);
    var y := YMIN;
    var h := 0;
    while h < image.height
      invariant h <= image.height
      invariant y == Coordinate(g.ymin, g.yScale, h)
      invariant forall w', h' :: 0 <= w' < image.width && 0 <= h' < image.height ==>
        At(image.View(), w', h') == (if w' == w && h' < h then Rendered(AddC, g, exponent, iterations, LIMIT * LIMIT, w', h') else At(old(image.View()), w', h'))
    {
      var cpoint := Complex(x, y);
      assert Point(g, w, h) == cpoint;
      var draw, _ := EscapeLoop(cpoint, iterations, exponent);
      ghost var before := image.View();
      if draw {
        SwappedCallInBounds(image.width, image.height, w, h);
        image.SetPixel(w, h, 0, 0, 255);
        assert At(image.View(), w, h) == Blue;
        forall w', h' | 0 <= w' < image.width && 0 <= h' < image.height && (w', h') != (w, h)
          ensures At(image.View(), w', h') == At(before, w', h')
        {
          RowMajorInBounds(image.width, image.height, w', h');
          if Offset(image.width, w', h') == Offset(image.width, w, h) {
            OffsetInjective(image.width, w', h', w, h);
          }
        }
      }
      NextCoordinate(g.ymin, g.yScale, h);
      y := y + g.yScale;
      h := h + 1;
    }
  }

  /**
   * generate_mandelbrot_set of src/mandelbrot.c: a width x height image of
   * [-2, 2] x [-2, 2] in which exactly the pixels whose point is drawn under
   * the limit 2 are blue (0, 0, 255) and every other pixel keeps Image_new's
   * black; null where Image_new fails (the C code then exits).
   */
  method GenerateMandelbrotSet(width: SizeT, height: SizeT, iterations: ULong, exponent: ULong, allocOk: bool)
    returns (image: Image?)
    requires SwappedCallsSafe(width, height)
    ensures image == null <==> AllocationFails(width, height, allocOk)
    ensures image != null ==> fresh(image) && image.Valid() && image.width == width && image.height == height
    ensures image != null ==> forall w, h :: 0 <= w < width && 0 <= h < height ==>
      At(image.View(), w, h) == Rendered(AddC, PlaneGrid(width, height), exponent, iterations, LIMIT * LIMIT, w, h)
  {
    var g := PlaneGrid(width, height);
    image := Image.New(width, height, allocOk);
    if image == null {
      return;
    }
    assert forall w, h :: 0 <= w < width && 0 <= h < height ==> At(image.View(), w, h) == Black by {
      forall w, h | 0 <= w < width && 0 <= h < height
        ensures At(image.View(), w, h) == Black
      {
        RowMajorInBounds(width, height, w, h);
      }
    }
    var x := XMIN;
    var w := 0;
    while w < width
      invariant w <= width
      invariant x == Coordinate(g.xmin, g.xScale, w)
      invariant fresh(image.pixels) && image.Valid()
      invariant forall w', h' :: 0 <= w' < width && 0 <= h' < height ==>
        At(image.View(), w', h') == (if w' < w then Rendered(AddC, g, exponent, iterations, LIMIT * LIMIT, w', h') else Black)
    {
      RenderColumn(image, iterations, exponent, w, x);
      NextCoordinate(g.xmin, g.xScale, w);
      x := x + g.xScale;
      w := w + 1;
    }
  }

  // ---------------------------------------------------------------------
  // A 4 x 4 render with the default exponent 2
  // ---------------------------------------------------------------------

  lemma PowTwo(z: Complex)
    ensures Pow(z, 2) == Mul(z, z)
  {
    SquareIsPow(z);
    MulSelf(z);
  }

  /** With an even number of iterations, the first check of an exponent-2 run sees z2 = (c^2 + c)^2 + c. */
  lemma FirstCheck(c: Complex, iterations: nat)
    requires iterations % 2 == 0
    ensures var z1 := Add(Mul(c, c), c);
            Checked(AddC, 2, c, iterations, 0) == Add(Mul(z1, z1), c)
  {
    var z1 := Add(Mul(c, c), c);
    PowTwo(c);
    PowTwo(z1);
    assert Orbit(AddC, 2, c, 1) == z1;
    assert Orbit(AddC, 2, c, 2) == Add(Pow(z1, 2), c);
  }

  /** From c = -1 one step goes from -1 to 0 ... */
  lemma MinusOneToZero(c: Complex)
    requires c == Complex(-1.0, 0.0)
    ensures Step(AddC, 2, c, c) == Zero
  {
    calc {
      Step(AddC, 2, c, c);
      Add(Pow(c, 2), c);
      { PowTwo(c); }
      Add(Mul(c, c), c);
      Zero;
    }
  }

  /** ... and the next from 0 back to -1. */
  lemma ZeroToMinusOne(c: Complex)
    requires c == Complex(-1.0, 0.0)
    ensures Step(AddC, 2, c, Zero) == c
  {
    calc {
      Step(AddC, 2, c, Zero);
      Add(Pow(Zero, 2), c);
      { PowOfZero(2); }
      Add(Zero, c);
      c;
    }
  }

  /** An orbit whose second step returns to c comes back to c after every even number of steps. */
  lemma {:induction false} PeriodTwoOrbit(exponent: nat, c: Complex, z: Complex, n: nat)
    requires Step(AddC, exponent, c, c) == z && Step(AddC, exponent, c, z) == c
    ensures Orbit(AddC, exponent, c, 2 * n) == c
  {
    if n > 0 {
      calc {
        Orbit(AddC, exponent, c, 2 * n);
        Step(AddC, exponent, c, Step(AddC, exponent, c, Orbit(AddC, exponent, c, 2 * (n - 1))));
        { PeriodTwoOrbit(exponent, c, z, n - 1); }
        Step(AddC, exponent, c, Step(AddC, exponent, c, c));
        c;
      }
    }
  }

  lemma FourByFourGrid()
    ensures PlaneGrid(4, 4) == Grid(-2.0, 1.0, -2.0, 1.0)
  {
  }

  /** A point escapes at the first check when z2 = (c^2 + c)^2 + c has |z2|^2 > 4. */
  lemma EscapesAtFirstCheck(c: Complex, z1: Complex, z2: Complex, iterations: nat)
    requires z1 == Add(Mul(c, c), c) && z2 == Add(Mul(z1, z1), c)
    requires Norm2(z2) > 4.0
    requires iterations >= 2 && iterations % 2 == 0
    ensures !Draws(AddC, 2, c, iterations, LIMIT * LIMIT)
  {
    FirstCheck(c, iterations);
    assert Escapes(Checked(AddC, 2, c, iterations, 0), LIMIT * LIMIT);
  }

  /** A point whose orbit returns to it every second step, inside the limit, is drawn. */
  lemma PeriodTwoDraws(exponent: nat, c: Complex, z: Complex, iterations: nat, limit: real)
    requires Step(AddC, exponent, c, c) == z && Step(AddC, exponent, c, z) == c
    requires Norm2(c) <= limit && Norm2(z) <= limit
    ensures Draws(AddC, exponent, c, iterations, limit)
  {
    forall k | 0 <= k < iterations / 2
      ensures Checked(AddC, exponent, c, iterations, k) == (if iterations % 2 == 0 then c else z)
    {
      PeriodTwoOrbit(exponent, c, z, k + 1);
      if iterations % 2 == 1 {
        assert Orbit(AddC, exponent, c, 2 * (k + 1) + 1) == Step(AddC, exponent, c, Orbit(AddC, exponent, c, 2 * (k + 1)));
      }
    }
  }

  /** The pixel at the origin is drawn. */
  lemma OriginPixelDrawn(g: Grid, iterations: nat)
    requires g == PlaneGrid(4, 4)
    ensures Rendered(AddC, g, 2, iterations, LIMIT * LIMIT, 2, 2) == Blue
  {
    FourByFourGrid();
    assert Point(g, 2, 2) == Zero;
    OriginDraws(AddC, 2, iterations, LIMIT * LIMIT);
  }

  lemma MinusOnePoint(g: Grid)
    requires g == PlaneGrid(4, 4)
    ensures Point(g, 1, 2) == Complex(-1.0, 0.0)
  {
    FourByFourGrid();
  }

  /** -1 is drawn: its orbit alternates between -1 and 0. */
  lemma MinusOneDraws(c: Complex, iterations: nat)
    requires c == Complex(-1.0, 0.0)
    ensures Draws(AddC, 2, c, iterations, LIMIT * LIMIT)
  {
    MinusOneToZero(c);
    ZeroToMinusOne(c);
    PeriodTwoDraws(2, c, Zero, iterations, LIMIT * LIMIT);
  }

  /** The pixel at -1 is drawn. */
  lemma MinusOnePixelDrawn(g: Grid, iterations: nat)
    requires g == PlaneGrid(4, 4)
    ensures Rendered(AddC, g, 2, iterations, LIMIT * LIMIT, 1, 2) == Blue
  {
    MinusOnePoint(g);
    MinusOneDraws(Point(g, 1, 2), iterations);
  }

  /** The corner points of the 4 x 4 grid: (-2, -2), (1, -2), (-2, 1) and (1, 1). */
  lemma CornerPoints(g: Grid)
    requires g == PlaneGrid(4, 4)
    ensures Point(g, 0, 0) == Complex(-2.0, -2.0) && Point(g, 3, 0) == Complex(1.0, -2.0)
    ensures Point(g, 0, 3) == Complex(-2.0, 1.0) && Point(g, 3, 3) == Complex(1.0, 1.0)
  {
    FourByFourGrid();
  }

  /** A pixel whose point c has z2 = (c^2 + c)^2 + c outside the limit stays black. */
  lemma EscapingPixel(g: Grid, w: nat, h: nat, c: Complex, z1: Complex, z2: Complex, iterations: nat)
    requires Point(g, w, h) == c
    requires z1 == Add(Mul(c, c), c) && z2 == Add(Mul(z1, z1), c)
    requires Norm2(z2) > 4.0
    requires iterations >= 2 && iterations % 2 == 0
    ensures Rendered(AddC, g, 2, iterations, LIMIT * LIMIT, w, h) == Black
  {
    EscapesAtFirstCheck(c, z1, z2, iterations);
  }

  /** The corner pixels escape at the first check. */
  lemma CornerPixelEscapes(g: Grid, w: nat, h: nat, iterations: nat)
    requires g == PlaneGrid(4, 4)
    requires (w == 0 || w == 3) && (h == 0 || h == 3)
    requires iterations >= 2 && iterations % 2 == 0
    ensures Rendered(AddC, g, 2, iterations, LIMIT * LIMIT, w, h) == Black
  {
    CornerPoints(g);
    if w == 0 && h == 0 {
      EscapingPixel(g, 0, 0, Complex(-2.0, -2.0), Complex(-2.0, 6.0), Complex(-34.0, -26.0), iterations);
    } else if w == 3 && h == 0 {
      EscapingPixel(g, 3, 0, Complex(1.0, -2.0), Complex(-2.0, -6.0), Complex(-31.0, 22.0), iterations);
    } else if w == 0 && h == 3 {
      EscapingPixel(g, 0, 3, Complex(-2.0, 1.0), Complex(1.0, -3.0), Complex(-10.0, -5.0), iterations);
    } else {
      EscapingPixel(g, 3, 3, Complex(1.0, 1.0), Complex(1.0, 3.0), Complex(-7.0, 7.0), iterations);
    }
  }
}
