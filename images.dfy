/**
 * The pixel-buffer ADT of src/image.c.
 *
 * An image is a width x height grid of RGB triples kept in one flat array.
 * Image_pixel addresses (row, col) at offset width*col + row and asserts
 * row < height and col < width; every caller passes its loop pair (w, h),
 * with w < width and h < height, as (row, col).  The offset is then the
 * row-major offset width*h + w, but the asserts compare w with the height
 * and h with the width, so they hold for every pixel only in a square image.
 *
 * Products width*n are written Area(width, n), n additions of width, so that
 * the proofs about rows stay linear; AreaIsProduct ties the two together.
 */
module Images {
  import opened CTypes

  datatype Pixel = Pixel(red: Byte, green: Byte, blue: Byte)

  /** The colour calloc leaves in every pixel of a new image. */
  const Black := Pixel(0, 0, 0)

  function Min(a: nat, b: nat): nat { if a > b then b else a }

  function Abs(x: int): nat { if x < 0 then -x else x }

  // ---------------------------------------------------------------------
  // Arithmetic of rows
  // ---------------------------------------------------------------------

  /** width * n, as n rows of width pixels each. */
  function Area(width: nat, n: nat): nat
  {
    if n == 0 then 0 else Area(width, n - 1) + width
  }

  lemma {:induction false} AreaIsProduct(width: nat, n: nat)
    ensures Area(width, n) == width * n
  {
    if n > 0 {
      AreaIsProduct(width, n - 1);
    }
  }

  lemma {:induction false} AreaMonotone(width: nat, k: nat, n: nat)
    requires k < n
    ensures Area(width, k) + width <= Area(width, n)
  {
    if k < n - 1 {
      AreaMonotone(width, k, n - 1);
    }
  }

  lemma {:induction false} AreaMonotoneInWidth(width: nat, wider: nat, n: nat)
    requires width <= wider
    ensures Area(width, n) <= Area(wider, n)
  {
    if n > 0 {
      AreaMonotoneInWidth(width, wider, n - 1);
    }
  }

  lemma {:induction false} AreaAdd(width: nat, m: nat, n: nat)
    ensures Area(width, m + n) == Area(width, m) + Area(width, n)
  {
    if n > 0 {
      AreaAdd(width, m, n - 1);
    }
  }

  lemma {:induction false} AreaAtLeastCount(width: nat, n: nat)
    requires width >= 1
    ensures Area(width, n) >= n
  {
    if n > 0 {
      AreaAtLeastCount(width, n - 1);
    }
  }

  lemma MulAtLeast(a: nat, k: nat)
    requires k >= 1
    ensures a * k >= a
  {
    assert a * k == a * (k - 1) + a;
  }

  lemma MulMonotone(a: nat, k: nat, m: nat)
    requires k <= m
    ensures a * k <= a * m
  {
    assert a * m == a * k + a * (m - k);
  }

  lemma SquareStrictlyMonotone(x: nat, y: nat)
    requires x < y
    ensures x * x < y * y
  {
    MulMonotone(x, x, y);
    assert y * y == x * y + y * (y - x) by { assert y * y == y * x + y * (y - x); }
    MulAtLeast(y, y - x);
  }

  // ---------------------------------------------------------------------
  // Addressing (Image_pixel)
  // ---------------------------------------------------------------------

  /** The offset Image_pixel computes for (row, col): width*col + row. */
  function Offset(width: nat, row: nat, col: nat): nat
  {
    Area(width, col) + row
  }

  /** Where row h starts in storage; the whole row lies inside a width x height image. */
  function RowStart(width: nat, height: nat, h: nat): (start: nat)
    requires h < height
    ensures start == Area(width, h) && start + width <= Area(width, height)
  {
    AreaMonotone(width, h, height);
    Area(width, h)
  }

  /** With row < width the offset determines (row, col): distinct pixels never share a slot. */
  lemma OffsetInjective(width: nat, row: nat, col: nat, row': nat, col': nat)
    requires row < width && row' < width
    requires Offset(width, row, col) == Offset(width, row', col')
    ensures row == row' && col == col'
  {
    if col < col' {
      AreaMonotone(width, col, col');
    } else if col' < col {
      AreaMonotone(width, col', col);
    }
  }

  /** The asserts of Image_pixel and Image_setPixel on a (row, col) pair. */
  predicate PixelAssertsHold(width: nat, height: nat, row: nat, col: nat) {
    row < height && col < width
  }

  /** Callers pass (w, h), w < width and h < height, as (row, col): the asserts then need this. */
  predicate SwappedCallsSafe(width: nat, height: nat) {
    width == height || width == 0 || height == 0
  }

  /** In row-major order, (w, h) with w < width and h < height lies inside the image. */
  lemma RowMajorInBounds(width: nat, height: nat, w: nat, h: nat)
    requires w < width && h < height
    ensures Offset(width, w, h) < Area(width, height)
  {
    AreaMonotone(width, h, height);
  }

  /** A pair (w, h) of the callers' loops passes Image_pixel's asserts and stays in bounds. */
  lemma SwappedCallInBounds(width: nat, height: nat, w: nat, h: nat)
    requires SwappedCallsSafe(width, height) && w < width && h < height
    ensures PixelAssertsHold(width, height, w, h)
    ensures Offset(width, w, h) < Area(width, height)
  {
    RowMajorInBounds(width, height, w, h);
  }

  lemma AssertedOffsetInBounds(width: nat, height: nat, row: nat, col: nat)
    requires width <= height && PixelAssertsHold(width, height, row, col)
    ensures Offset(width, row, col) < Area(width, height)
  {
    // rows col + 1 .. height - 1 number at least height - width, and each holds at least one pixel
    var rest := height - (col + 1);
    AreaAdd(width, col + 1, rest);
    AreaAtLeastCount(width, rest);
  }

  /**
   * Under its asserts alone, Image_pixel's offset stays inside the
   * width*height array for every admitted (row, col) exactly when width <= height.
   */
  lemma {:induction false} AssertedOffsetsInBoundsIff(width: nat, height: nat)
    ensures (forall row: nat, col: nat :: PixelAssertsHold(width, height, row, col) ==> Offset(width, row, col) < width * height)
            <==> (width <= height || height == 0)
  {
    AreaIsProduct(width, height);
    if width <= height {
      forall row: nat, col: nat | PixelAssertsHold(width, height, row, col)
        ensures Offset(width, row, col) < width * height
      {
        AssertedOffsetInBounds(width, height, row, col);
      }
    } else if height > 0 {
      var row, col := height - 1, width - 1;
      assert PixelAssertsHold(width, height, row, col);
      AreaIsProduct(width, col);
      assert width * col == width * height + width * (width - 1 - height);
      assert Offset(width, row, col) >= width * height;
    }
  }

  /** The callers' loops satisfy Image_pixel's asserts at every pixel exactly when the image is square or empty. */
  lemma {:induction false} SwappedCallsSafeIff(width: nat, height: nat)
    ensures (forall w: nat, h: nat :: w < width && h < height ==> PixelAssertsHold(width, height, w, h))
            <==> SwappedCallsSafe(width, height)
  {
    if width > 0 && height > 0 && width != height {
      if width > height {
        assert !PixelAssertsHold(width, height, width - 1, 0);
      } else {
        assert !PixelAssertsHold(width, height, 0, height - 1);
      }
    }
  }

  // ---------------------------------------------------------------------
  // Allocation (Image_new)
  // ---------------------------------------------------------------------

  /** Image_new yields no image when allocation fails or when width*height pixels do not fit in size_t. */
  predicate AllocationFails(width: nat, height: nat, allocOk: bool) {
    !allocOk || width * height >= WORD_MODULUS
  }

  /** The pixel count Image_new hands to calloc: width*height computed in size_t, which wraps. */
  function CallocCount(width: nat, height: nat): (n: SizeT)
    ensures width * height < WORD_MODULUS ==> n == width * height
  {
    (width * height) % WORD_MODULUS
  }

  /** A 2^32 x 2^32 request gets 0 pixels, yet pixel (0, 0) passes every assert. */
  lemma CallocCountWraps()
    ensures var side := 0x1_0000_0000;
            CallocCount(side, side) == 0 &&
            PixelAssertsHold(side, side, 0, 0) &&
            Offset(side, 0, 0) >= CallocCount(side, side)
  {
  }

  // ---------------------------------------------------------------------
  // Value view of an image
  // ---------------------------------------------------------------------

  datatype Raster = Raster(width: nat, height: nat, cells: seq<Pixel>)

  predicate WellFormed(r: Raster) {
    |r.cells| == Area(r.width, r.height) && |r.cells| < WORD_MODULUS
  }

  /** Pixel (w, h), addressed as the callers address it. */
  function At(r: Raster, w: nat, h: nat): Pixel
    requires WellFormed(r) && w < r.width && h < r.height
  {
    AreaMonotone(r.width, h, r.height);
    r.cells[Offset(r.width, w, h)]
  }

  // ---------------------------------------------------------------------
  // Comparison (Image_diff)
  // ---------------------------------------------------------------------

  function OverlapWidth(a: Raster, b: Raster): nat { Min(a.width, b.width) }

  function OverlapHeight(a: Raster, b: Raster): nat { Min(a.height, b.height) }

  /** Image_pixel's asserts hold for both images at every pair Image_diff visits. */
  predicate DiffAssertsHold(a: Raster, b: Raster) {
    var wid := OverlapWidth(a, b);
    var hgt := OverlapHeight(a, b);
    wid == 0 || hgt == 0 || (wid <= a.height && wid <= b.height && hgt <= a.width && hgt <= b.width)
  }

  /** Number of w < n in row h of the overlap whose triples differ. */
  function MismatchesInRow(a: Raster, b: Raster, h: nat, n: nat): (k: nat)
    requires WellFormed(a) && WellFormed(b)
    requires h < OverlapHeight(a, b) && n <= OverlapWidth(a, b)
    ensures k <= n
  {
    if n == 0 then 0
    else MismatchesInRow(a, b, h, n - 1) + (if At(a, n - 1, h) != At(b, n - 1, h) then 1 else 0)
  }

  /** Number of differing pairs in the first n rows of the overlap. */
  function Mismatches(a: Raster, b: Raster, n: nat): (k: nat)
    requires WellFormed(a) && WellFormed(b)
    requires n <= OverlapHeight(a, b)
    ensures k <= Area(OverlapWidth(a, b), n)
  {
    if n == 0 then 0
    else Mismatches(a, b, n - 1) + MismatchesInRow(a, b, n - 1, OverlapWidth(a, b))
  }

  /** Image_diff as written: the size difference and every count++ taken in size_t. */
  function DiffCount(a: Raster, b: Raster): SizeT
    requires WellFormed(a) && WellFormed(b)
  {
    (Area(a.width, a.height) - Area(b.width, b.height) + Mismatches(a, b, OverlapHeight(a, b))) % WORD_MODULUS
  }

  /** The evidently intended Image_diff: absolute size difference plus the differing overlap pixels. */
  function IntendedDiffCount(a: Raster, b: Raster): nat
    requires WellFormed(a) && WellFormed(b)
  {
    Abs(a.width * a.height - b.width * b.height) + Mismatches(a, b, OverlapHeight(a, b))
  }

  /** Number of positions i < n, in flat storage order, where s and t differ. */
  function DifferingPrefix(s: seq<Pixel>, t: seq<Pixel>, n: nat): (k: nat)
    requires n <= |s| && n <= |t|
    ensures k <= n
  {
    if n == 0 then 0 else DifferingPrefix(s, t, n - 1) + (if s[n - 1] != t[n - 1] then 1 else 0)
  }

  /** No position of the first n differs exactly when the first n elements agree. */
  lemma {:induction false} DifferingPrefixZero(s: seq<Pixel>, t: seq<Pixel>, n: nat)
    requires n <= |s| && n <= |t|
    ensures DifferingPrefix(s, t, n) == 0 <==> s[..n] == t[..n]
  {
    if n > 0 {
      DifferingPrefixZero(s, t, n - 1);
      assert s[..n] == s[..n - 1] + [s[n - 1]] && t[..n] == t[..n - 1] + [t[n - 1]];
      if s[..n] == t[..n] {
        assert s[..n - 1] == s[..n][..n - 1] && t[..n - 1] == t[..n][..n - 1];
      }
    }
  }

  lemma {:induction false} MismatchesInRowSelf(a: Raster, h: nat, n: nat)
    requires WellFormed(a) && h < a.height && n <= a.width
    ensures MismatchesInRow(a, a, h, n) == 0
  {
    if n > 0 {
      MismatchesInRowSelf(a, h, n - 1);
    }
  }

  lemma {:induction false} MismatchesSelf(a: Raster, n: nat)
    requires WellFormed(a) && n <= a.height
    ensures Mismatches(a, a, n) == 0
  {
    if n > 0 {
      MismatchesSelf(a, n - 1);
      MismatchesInRowSelf(a, n - 1, a.width);
    }
  }

  /** Image_diff(a, a) == 0: the size term vanishes and no triple differs. */
  lemma DiffSelfIsZero(a: Raster)
    requires WellFormed(a)
    ensures DiffCount(a, a) == 0 && IntendedDiffCount(a, a) == 0
  {
    MismatchesSelf(a, a.height);
  }

  lemma {:induction false} MismatchesInRowSymmetric(a: Raster, b: Raster, h: nat, n: nat)
    requires WellFormed(a) && WellFormed(b)
    requires h < OverlapHeight(a, b) && n <= OverlapWidth(a, b)
    ensures MismatchesInRow(a, b, h, n) == MismatchesInRow(b, a, h, n)
  {
    if n > 0 {
      MismatchesInRowSymmetric(a, b, h, n - 1);
    }
  }

  lemma {:induction false} MismatchesSymmetric(a: Raster, b: Raster, n: nat)
    requires WellFormed(a) && WellFormed(b) && n <= OverlapHeight(a, b)
    ensures Mismatches(a, b, n) == Mismatches(b, a, n)
  {
    if n > 0 {
      MismatchesSymmetric(a, b, n - 1);
      MismatchesInRowSymmetric(a, b, n - 1, OverlapWidth(a, b));
    }
  }

  /** For equal dimensions, the row-by-row count of the overlap is the flat count of differing positions. */
  lemma {:induction false} MismatchesInRowFlat(a: Raster, b: Raster, h: nat, n: nat)
    requires WellFormed(a) && WellFormed(b) && a.width == b.width && a.height == b.height
    requires h < a.height && n <= a.width
    ensures RowStart(a.width, a.height, h) + n <= |a.cells|
    ensures Mismatches(a, b, h) + MismatchesInRow(a, b, h, n)
            == DifferingPrefix(a.cells, b.cells, RowStart(a.width, a.height, h) + n)
    decreases h, 1, n
  {
    var start := RowStart(a.width, a.height, h);
    if n == 0 {
      MismatchesFlat(a, b, h);
    } else {
      MismatchesInRowFlat(a, b, h, n - 1);
      assert At(a, n - 1, h) == a.cells[start + n - 1];
      assert At(b, n - 1, h) == b.cells[start + n - 1];
    }
  }

  lemma {:induction false} MismatchesFlat(a: Raster, b: Raster, n: nat)
    requires WellFormed(a) && WellFormed(b) && a.width == b.width && a.height == b.height
    requires n <= a.height
    ensures Area(a.width, n) <= |a.cells|
    ensures Mismatches(a, b, n) == DifferingPrefix(a.cells, b.cells, Area(a.width, n))
    decreases n, 0, 0
  {
    if n > 0 {
      MismatchesInRowFlat(a, b, n - 1, a.width);
    }
  }

  /**
   * For images of equal dimensions Image_diff counts the positions whose
   * triples differ: so it is at most width*height, it is symmetric, and it
   * is 0 exactly when the images are equal.
   */
  lemma SameDimensionsDiff(a: Raster, b: Raster)
    requires WellFormed(a) && WellFormed(b) && a.width == b.width && a.height == b.height
    ensures DiffCount(a, b) == DifferingPrefix(a.cells, b.cells, |a.cells|)
    ensures DiffCount(a, b) <= a.width * a.height
    ensures DiffCount(a, b) == DiffCount(b, a)
    ensures DiffCount(a, b) == 0 <==> a == b
  {
    MismatchesFlat(a, b, a.height);
    DifferingPrefixZero(a.cells, b.cells, |a.cells|);
    MismatchesSymmetric(a, b, a.height);
    AreaIsProduct(a.width, a.height);
    assert a.cells[..|a.cells|] == a.cells && b.cells[..|b.cells|] == b.cells;
  }

  /**
   * The size term of Image_diff wraps: a 3x3 black image against a 4x4 image
   * that differs from it at 7 of the 9 shared pixels counts 9 - 16 + 7 = 0.
   */
  lemma DiffWrapsToZero()
    ensures var a := Raster(3, 3, seq(9, _ => Black));
            var b := Raster(4, 4, seq(16, i => if i < 2 then Black else Pixel(0, 0, 255)));
            WellFormed(a) && WellFormed(b) && DiffAssertsHold(a, b) && a != b &&
            DiffCount(a, b) == 0 && DiffCount(b, a) == 14 && IntendedDiffCount(a, b) == 14
  {
    var a := Raster(3, 3, seq(9, _ => Black));
    var b := Raster(4, 4, seq(16, i => if i < 2 then Black else Pixel(0, 0, 255)));
    assert Area(3, 1) == 3 && Area(3, 2) == 6 && Area(4, 1) == 4 && Area(4, 2) == 8;
    assert At(a, 0, 0) == At(b, 0, 0) && At(a, 1, 0) == At(b, 1, 0) && At(a, 2, 0) != At(b, 2, 0);
    assert MismatchesInRow(a, b, 0, 2) == 0;
    assert MismatchesInRow(a, b, 0, 3) == 1;
    assert At(a, 0, 1) != At(b, 0, 1) && At(a, 1, 1) != At(b, 1, 1) && At(a, 2, 1) != At(b, 2, 1);
    assert MismatchesInRow(a, b, 1, 1) == 1 && MismatchesInRow(a, b, 1, 2) == 2;
    assert MismatchesInRow(a, b, 1, 3) == 3;
    assert At(a, 0, 2) != At(b, 0, 2) && At(a, 1, 2) != At(b, 1, 2) && At(a, 2, 2) != At(b, 2, 2);
    assert MismatchesInRow(a, b, 2, 1) == 1 && MismatchesInRow(a, b, 2, 2) == 2;
    assert MismatchesInRow(a, b, 2, 3) == 3;
    assert Mismatches(a, b, 1) == 1 && Mismatches(a, b, 2) == 4;
    assert Mismatches(a, b, 3) == 7;
    MismatchesSymmetric(a, b, 3);
  }

  /**
   * The intended count is symmetric, fits in size_t, agrees with Image_diff
   * whenever the sizes are equal, and is 0 exactly when the sizes are equal
   * and no overlapping pixel differs.
   */
  lemma IntendedDiffCountProperties(a: Raster, b: Raster)
    requires WellFormed(a) && WellFormed(b)
    ensures IntendedDiffCount(a, b) == IntendedDiffCount(b, a)
    ensures IntendedDiffCount(a, b) < WORD_MODULUS
    ensures a.width * a.height == b.width * b.height ==> DiffCount(a, b) == IntendedDiffCount(a, b)
    ensures IntendedDiffCount(a, b) == 0 <==>
              a.width * a.height == b.width * b.height && Mismatches(a, b, OverlapHeight(a, b)) == 0
  {
    var wid, hgt := OverlapWidth(a, b), OverlapHeight(a, b);
    MismatchesSymmetric(a, b, hgt);
    OverlapAreaFits(a, b);
    AreaIsProduct(a.width, a.height);
    AreaIsProduct(b.width, b.height);
  }

  /** The overlap holds no more pixels than either image. */
  lemma OverlapAreaFits(a: Raster, b: Raster)
    requires WellFormed(a) && WellFormed(b)
    ensures Area(OverlapWidth(a, b), OverlapHeight(a, b)) <= |a.cells|
    ensures Area(OverlapWidth(a, b), OverlapHeight(a, b)) <= |b.cells|
  {
    var wid, hgt := OverlapWidth(a, b), OverlapHeight(a, b);
    AreaMonotoneInWidth(wid, a.width, hgt);
    AreaMonotoneInWidth(wid, b.width, hgt);
    if hgt < a.height { AreaMonotone(a.width, hgt, a.height); }
    if hgt < b.height { AreaMonotone(b.width, hgt, b.height); }
  }

  /** For square images, the intended count is 0 exactly when the images are equal. */
  lemma IntendedDiffZeroIffEqual(a: Raster, b: Raster)
    requires WellFormed(a) && WellFormed(b)
    requires a.width == a.height && b.width == b.height
    ensures IntendedDiffCount(a, b) == 0 <==> a == b
  {
    IntendedDiffCountProperties(a, b);
    if IntendedDiffCount(a, b) == 0 {
      if a.width < b.width {
        SquareStrictlyMonotone(a.width, b.width);
      } else if a.width > b.width {
        SquareStrictlyMonotone(b.width, a.width);
      }
      SameDimensionsDiff(a, b);
    } else if a == b {
      DiffSelfIsZero(a);
    }
  }

  /** Adding k to a size_t counter that holds x modulo 2^64 leaves x + k modulo 2^64. */
  lemma ModAdd(x: int, c: int, k: int)
    requires c == x % WORD_MODULUS
    ensures (c + k) % WORD_MODULUS == (x + k) % WORD_MODULUS
  {
    var q := x / WORD_MODULUS;
    assert x == WORD_MODULUS * q + c;
    assert x + k == WORD_MODULUS * q + (c + k);
  }

  /** Image_diff's counter after the pairs w < n of row h, starting from initial: each count++ wraps in size_t. */
  function RowCounter(a: Raster, b: Raster, h: nat, n: nat, initial: SizeT): SizeT
    requires WellFormed(a) && WellFormed(b)
    requires h < OverlapHeight(a, b) && n <= OverlapWidth(a, b)
  {
    if n == 0 then initial
    else
      var count := RowCounter(a, b, h, n - 1, initial);
      if At(a, n - 1, h) != At(b, n - 1, h) then (count + 1) % WORD_MODULUS else count
  }

  /** Image_diff's counter after the first n rows of its outer loop, starting from the wrapped size difference. */
  function Counter(a: Raster, b: Raster, n: nat): SizeT
    requires WellFormed(a) && WellFormed(b)
    requires n <= OverlapHeight(a, b)
  {
    if n == 0 then (|a.cells| - |b.cells|) % WORD_MODULUS
    else RowCounter(a, b, n - 1, OverlapWidth(a, b), Counter(a, b, n - 1))
  }

  /** Wrapping at every count++ of a row is wrapping the row's mismatch count once. */
  lemma {:induction false} RowCounterWraps(a: Raster, b: Raster, h: nat, n: nat, initial: SizeT)
    requires WellFormed(a) && WellFormed(b)
    requires h < OverlapHeight(a, b) && n <= OverlapWidth(a, b)
    ensures RowCounter(a, b, h, n, initial) == (initial + MismatchesInRow(a, b, h, n)) % WORD_MODULUS
  {
    if n > 0 {
      RowCounterWraps(a, b, h, n - 1, initial);
      ModAdd(initial + MismatchesInRow(a, b, h, n - 1), RowCounter(a, b, h, n - 1, initial), 1);
    }
  }

  /** The counter after n rows is the size difference plus the mismatches so far, wrapped once. */
  lemma {:induction false} CounterWraps(a: Raster, b: Raster, n: nat)
    requires WellFormed(a) && WellFormed(b)
    requires n <= OverlapHeight(a, b)
    ensures Counter(a, b, n) == (|a.cells| - |b.cells| + Mismatches(a, b, n)) % WORD_MODULUS
  {
    if n > 0 {
      var before := Counter(a, b, n - 1);
      var row := MismatchesInRow(a, b, n - 1, OverlapWidth(a, b));
      CounterWraps(a, b, n - 1);
      RowCounterWraps(a, b, n - 1, OverlapWidth(a, b), before);
      ModAdd(|a.cells| - |b.cells| + Mismatches(a, b, n - 1), before, row);
    }
  }

  /** Image_diff's loops, counter by counter, compute DiffCount. */
  lemma CounterIsDiffCount(a: Raster, b: Raster)
    requires WellFormed(a) && WellFormed(b)
    ensures Counter(a, b, OverlapHeight(a, b)) == DiffCount(a, b)
  {
    CounterWraps(a, b, OverlapHeight(a, b));
  }

  // ---------------------------------------------------------------------
  // Row packing (Image_save) and unpacking (Image_fromFile)
  // ---------------------------------------------------------------------

  function Channels(p: Pixel): seq<Byte> { [p.red, p.green, p.blue] }

  /** The bytes the packing loop writes for a run of pixels: red, green, blue of each in turn. */
  function Bytes(px: seq<Pixel>): (bs: seq<Byte>)
    ensures |bs| == 3 * |px|
  {
    if px == [] then [] else Bytes(px[..|px| - 1]) + Channels(px[|px| - 1])
  }

  /** The n pixels the unpacking loop reads from a row of 3n bytes: bytes 3w, 3w+1, 3w+2 make pixel w. */
  function PixelsOf(bs: seq<Byte>, n: nat): (px: seq<Pixel>)
    requires |bs| == 3 * n
    ensures |px| == n
  {
    if n == 0 then []
    else PixelsOf(bs[..3 * n - 3], n - 1) + [Pixel(bs[3 * n - 3], bs[3 * n - 2], bs[3 * n - 1])]
  }

  lemma {:induction false} PixelsOfBytes(px: seq<Pixel>)
    ensures PixelsOf(Bytes(px), |px|) == px
  {
    if px != [] {
      var init := px[..|px| - 1];
      PixelsOfBytes(init);
      var bs := Bytes(px);
      assert bs[..|bs| - 3] == Bytes(init);
      assert px == init + [px[|px| - 1]];
    }
  }

  lemma {:induction false} BytesOfPixels(bs: seq<Byte>, n: nat)
    requires |bs| == 3 * n
    ensures Bytes(PixelsOf(bs, n)) == bs
  {
    if n > 0 {
      var init := bs[..3 * n - 3];
      BytesOfPixels(init, n - 1);
      var px := PixelsOf(bs, n);
      assert px[..n - 1] == PixelsOf(init, n - 1);
      assert Channels(px[n - 1]) == bs[3 * n - 3..];
      assert Bytes(px) == init + bs[3 * n - 3..];
      assert bs == init + bs[3 * n - 3..];
    }
  }

  /** Packing one more pixel of a run appends its three channels. */
  lemma BytesExtend(cells: seq<Pixel>, start: nat, w: nat)
    requires start + w < |cells|
    ensures Bytes(cells[start .. start + w + 1]) == Bytes(cells[start .. start + w]) + Channels(cells[start + w])
  {
    assert cells[start .. start + w + 1][..w] == cells[start .. start + w];
  }

  /** Unpacking three more bytes of a row appends one pixel. */
  lemma PixelsOfExtend(bs: seq<Byte>, w: nat)
    requires 3 * w + 3 <= |bs|
    ensures PixelsOf(bs[..3 * w + 3], w + 1) == PixelsOf(bs[..3 * w], w) + [Pixel(bs[3 * w], bs[3 * w + 1], bs[3 * w + 2])]
  {
    assert bs[..3 * w + 3][..3 * w] == bs[..3 * w];
  }

  /** Every row before row n ends within the first n rows. */
  lemma RowsBefore(width: nat, n: nat)
    ensures forall h: nat :: h < n ==> Area(width, h) + width <= Area(width, n)
  {
    forall h: nat | h < n
      ensures Area(width, h) + width <= Area(width, n)
    {
      AreaMonotone(width, h, n);
    }
  }

  /** Row h as Image_save packs it: pixel (w, h) at bytes 3w, 3w+1, 3w+2 (empty past the end of the image). */
  function RowBytes(cells: seq<Pixel>, width: nat, h: nat): (bs: seq<Byte>)
    ensures Area(width, h) + width <= |cells| ==> |bs| == 3 * width
  {
    if Area(width, h) + width <= |cells| then Bytes(cells[Area(width, h) .. Area(width, h) + width]) else []
  }

  /** The first n rows Image_save hands to the encoder. */
  function PackedRows(cells: seq<Pixel>, width: nat, n: nat): (rows: seq<seq<Byte>>)
    requires Area(width, n) <= |cells|
    ensures |rows| == n
    ensures forall h :: 0 <= h < n ==> |rows[h]| == 3 * width
  {
    RowsBefore(width, n);
    seq(n, h requires 0 <= h => RowBytes(cells, width, h))
  }

  /** Packed row h holds the bytes of pixels (0, h) .. (width - 1, h). */
  lemma PackedRowAt(cells: seq<Pixel>, width: nat, n: nat, h: nat)
    requires h < n && Area(width, n) <= |cells|
    ensures Area(width, h) + width <= Area(width, n)
    ensures PackedRows(cells, width, n)[h] == Bytes(cells[Area(width, h) .. Area(width, h) + width])
  {
    AreaMonotone(width, h, n);
  }

  /** The pixels Image_fromFile stores from the first n decoded rows, 3*width bytes each, in storage order. */
  function Unpacked(rows: seq<seq<Byte>>, width: nat, n: nat): (cells: seq<Pixel>)
    requires n <= |rows|
    requires forall h :: 0 <= h < |rows| ==> |rows[h]| == 3 * width
    ensures |cells| == Area(width, n)
  {
    if n == 0 then [] else Unpacked(rows, width, n - 1) + PixelsOf(rows[n - 1], width)
  }

  /** The first n packed rows are the first n - 1 packed rows followed by row n - 1. */
  lemma PackedRowsLast(cells: seq<Pixel>, width: nat, n: nat)
    requires 0 < n && Area(width, n) <= |cells|
    ensures Area(width, n - 1) <= Area(width, n)
    ensures PackedRows(cells, width, n)
            == PackedRows(cells, width, n - 1) + [Bytes(cells[Area(width, n - 1) .. Area(width, n)])]
  {
    var rows := PackedRows(cells, width, n);
    assert rows == rows[..n - 1] + [rows[n - 1]];
    assert rows[..n - 1] == PackedRows(cells, width, n - 1);
  }

  lemma PrefixConcat<T>(s: seq<T>, i: nat, j: nat)
    requires i <= j <= |s|
    ensures s[..i] + s[i..j] == s[..j]
  {
  }

  /** Unpacking packed row h gives back the pixels of row h. */
  lemma PackedRowPixels(cells: seq<Pixel>, width: nat, n: nat, h: nat)
    requires h < n && Area(width, n) <= |cells|
    ensures Area(width, h) + width <= Area(width, n)
    ensures PixelsOf(PackedRows(cells, width, n)[h], width) == cells[Area(width, h) .. Area(width, h) + width]
  {
    PackedRowAt(cells, width, n, h);
    var px := cells[Area(width, h) .. Area(width, h) + width];
    PixelsOfBytes(px);
    assert PixelsOf(Bytes(px), width) == px;
  }

  /** Rows whose row h unpacks to the pixels of row h of cells, for every h. */
  predicate RowsUnpackTo(rows: seq<seq<Byte>>, width: nat, cells: seq<Pixel>)
    requires forall h :: 0 <= h < |rows| ==> |rows[h]| == 3 * width
  {
    forall h :: 0 <= h < |rows| ==>
      Area(width, h) + width <= |cells| && PixelsOf(rows[h], width) == cells[Area(width, h) .. Area(width, h) + width]
  }

  /** One more row: if the first k - 1 rows unpack to their pixels, so do the first k. */
  lemma UnpackRowsStep(rows: seq<seq<Byte>>, width: nat, cells: seq<Pixel>, k: nat)
    requires forall h :: 0 <= h < |rows| ==> |rows[h]| == 3 * width
    requires RowsUnpackTo(rows, width, cells) && 0 < k <= |rows|
    requires Area(width, k - 1) <= |cells| && Unpacked(rows, width, k - 1) == cells[..Area(width, k - 1)]
    ensures Area(width, k) <= |cells|
    ensures Unpacked(rows, width, k) == cells[..Area(width, k)]
  {
    var start := Area(width, k - 1);
    assert PixelsOf(rows[k - 1], width) == cells[start .. start + width];
    PrefixConcat(cells, start, start + width);
  }

  /** Unpacking the first k of such rows gives back the first k rows of pixels. */
  lemma {:induction false} UnpackRowsPrefix(rows: seq<seq<Byte>>, width: nat, cells: seq<Pixel>, k: nat)
    requires forall h :: 0 <= h < |rows| ==> |rows[h]| == 3 * width
    requires RowsUnpackTo(rows, width, cells) && k <= |rows|
    ensures Area(width, k) <= |cells|
    ensures Unpacked(rows, width, k) == cells[..Area(width, k)]
  {
    if k > 0 {
      UnpackRowsPrefix(rows, width, cells, k - 1);
      UnpackRowsStep(rows, width, cells, k);
    }
  }

  /** Unpacking the packed rows gives back the pixels. */
  lemma UnpackPacked(cells: seq<Pixel>, width: nat, n: nat)
    requires Area(width, n) <= |cells|
    ensures Unpacked(PackedRows(cells, width, n), width, n) == cells[..Area(width, n)]
  {
    var rows := PackedRows(cells, width, n);
    forall h | 0 <= h < n
      ensures Area(width, h) + width <= |cells| && PixelsOf(rows[h], width) == cells[Area(width, h) .. Area(width, h) + width]
    {
      PackedRowPixels(cells, width, n, h);
    }
    UnpackRowsPrefix(rows, width, cells, n);
  }

  /** The pixels unpacked from row h sit where row h starts in storage. */
  lemma {:induction false} UnpackedRow(rows: seq<seq<Byte>>, width: nat, n: nat, h: nat)
    requires forall k :: 0 <= k < |rows| ==> |rows[k]| == 3 * width
    requires h < n <= |rows|
    ensures Area(width, h) + width <= Area(width, n)
    ensures Unpacked(rows, width, n)[Area(width, h) .. Area(width, h) + width] == PixelsOf(rows[h], width)
  {
    AreaMonotone(width, h, n);
    if h < n - 1 {
      UnpackedRow(rows, width, n - 1, h);
      assert Unpacked(rows, width, n)[Area(width, h) .. Area(width, h) + width]
          == Unpacked(rows, width, n - 1)[Area(width, h) .. Area(width, h) + width];
    }
  }

  /** Packing the unpacked rows gives back the rows. */
  lemma PackUnpacked(rows: seq<seq<Byte>>, width: nat)
    requires forall h :: 0 <= h < |rows| ==> |rows[h]| == 3 * width
    ensures PackedRows(Unpacked(rows, width, |rows|), width, |rows|) == rows
  {
    var cells := Unpacked(rows, width, |rows|);
    var packed := PackedRows(cells, width, |rows|);
    forall h | 0 <= h < |rows|
      ensures packed[h] == rows[h]
    {
      UnpackedRow(rows, width, |rows|, h);
      calc {
        packed[h];
        RowBytes(cells, width, h);
        Bytes(cells[Area(width, h) .. Area(width, h) + width]);
        Bytes(PixelsOf(rows[h], width));
        { BytesOfPixels(rows[h], width); }
        rows[h];
      }
    }
  }

  /** Saving an image and loading it back yields the same image, at Image_diff distance 0. */
  lemma SaveThenLoad(r: Raster)
    requires WellFormed(r)
    ensures var loaded := Raster(r.width, r.height, Unpacked(PackedRows(r.cells, r.width, r.height), r.width, r.height));
            loaded == r && DiffCount(r, loaded) == 0 && IntendedDiffCount(r, loaded) == 0
  {
    UnpackPacked(r.cells, r.width, r.height);
    assert r.cells[..|r.cells|] == r.cells;
    DiffSelfIsZero(r);
  }

  /** Reading pixel (w, h) through Image_pixel's offset gives pixel (w, h) of the image's value. */
  lemma ReadAt(image: Image, w: nat, h: nat)
    requires image.Valid() && w < image.width && h < image.height
    ensures Offset(image.width, w, h) < image.pixels.Length
    ensures image.pixels[Offset(image.width, w, h)] == At(image.View(), w, h)
  {
    RowMajorInBounds(image.width, image.height, w, h);
  }

  // ---------------------------------------------------------------------
  // The image object
  // ---------------------------------------------------------------------

  /**
   * struct Image.  Image_new fixes the width, the height and the pixel
   * buffer; nothing changes them afterwards, so they are constants here and
   * Image_getWidth and Image_getHeight are the fields width and height.
   */
  class Image {
    const width: nat
    const height: nat
    const pixels: array<Pixel>

    ghost predicate Valid() {
      pixels.Length == Area(width, height) && pixels.Length < WORD_MODULUS
    }

    /** The image as a value. */
    function View(): Raster
      reads pixels
    {
      Raster(width, height, pixels[..])
    }

    constructor (width: nat, height: nat)
      requires width * height < WORD_MODULUS
      ensures Valid() && this.width == width && this.height == height && fresh(pixels)
      ensures pixels[..] == seq(width * height, _ => Black)
    {
      AreaIsProduct(width, height);
      this.width, this.height := width, height;
      pixels := new Pixel[width * height](_ => Black);
    }

    /** Image_new: a zero-filled width x height image, or null when allocation fails. */
    static method New(width: nat, height: nat, allocOk: bool) returns (image: Image?)
      ensures image == null <==> AllocationFails(width, height, allocOk)
      ensures image != null ==> fresh(image) && fresh(image.pixels) && image.Valid()
      ensures image != null ==> image.width == width && image.height == height
      ensures image != null ==> image.pixels[..] == seq(width * height, _ => Black)
    {
      if AllocationFails(width, height, allocOk) {
        return null;
      }
      image := new Image(width, height);
    }

    /** Image_getSize: width*height, the number of pixels the image holds. */
    function Size(): (n: SizeT)
      requires Valid()
      ensures n == pixels.Length && n == |View().cells| && n == Area(width, height)
    {
      AreaIsProduct(width, height);
      width * height
    }

    /** Image_pixel: the offset of (row, col), which its asserts keep inside the buffer whenever width <= height. */
    function PixelIndex(row: nat, col: nat): (i: nat)
      requires PixelAssertsHold(width, height, row, col)
      ensures Valid() && width <= height ==> i < pixels.Length
    {
      if width <= height then AssertedOffsetInBounds(width, height, row, col); Offset(width, row, col)
      else Offset(width, row, col)
    }

    /** Image_setPixel: overwrites the triple at Image_pixel(row, col) and nothing else. */
    method SetPixel(row: nat, col: nat, red: Byte, green: Byte, blue: Byte)
      requires Valid()
      requires PixelAssertsHold(width, height, row, col)
      requires PixelIndex(row, col) < pixels.Length
      modifies pixels
      ensures pixels[..] == old(pixels[..])[PixelIndex(row, col) := Pixel(red, green, blue)]
    {
      pixels[PixelIndex(row, col)] := Pixel(red, green, blue);
    }

    /** Image_diff(this, other), wrap-around included; neither image changes. */
    method Diff(other: Image) returns (count: SizeT)
      requires Valid() && other.Valid()
      requires DiffAssertsHold(View(), other.View())
      ensures count == DiffCount(View(), other.View())
    {
      ghost var a, b := View(), other.View();
      var wid := if width > other.width then other.width else width;
      var hgt := if height > other.height then other.height else height;
      // width * height - other.width * other.height (the two buffer lengths), wrapped in size_t
      count := (pixels.Length - other.pixels.Length) % WORD_MODULUS;
      var h := 0;
      while h < hgt
        invariant h <= hgt
        invariant count == Counter(a, b, h)
      {
        count := CountRowDifferences(other, h, wid, count);
        h := h + 1;
      }
      CounterIsDiffCount(a, b);
    }

    /** One pass of Image_diff's inner loop: count++ (in size_t) for each differing pair (w, h), w < wid. */
    method CountRowDifferences(other: Image, h: nat, wid: nat, initial: SizeT) returns (count: SizeT)
      requires Valid() && other.Valid()
      requires DiffAssertsHold(View(), other.View())
      requires h < OverlapHeight(View(), other.View()) && wid == OverlapWidth(View(), other.View())
      ensures count == RowCounter(View(), other.View(), h, wid, initial)
    {
      ghost var a, b := View(), other.View();
      count := initial;
      var w := 0;
      while w < wid
        invariant w <= wid
        invariant count == RowCounter(a, b, h, w, initial)
      {
        ReadAt(this, w, h);
        ReadAt(other, w, h);
        var pixel := pixels[PixelIndex(w, h)];
        var otherPixel := other.pixels[other.PixelIndex(w, h)];
        if pixel.red != otherPixel.red || pixel.green != otherPixel.green || pixel.blue != otherPixel.blue {
          count := (count + 1) % WORD_MODULUS;
        }
        w := w + 1;
      }
    }

    /** The row-packing loop of Image_save: row h gets pixel (w, h) at bytes 3w, 3w+1, 3w+2. */
    method PackRows() returns (rows: seq<seq<Byte>>)
      requires Valid() && SwappedCallsSafe(width, height)
      ensures rows == PackedRows(pixels[..], width, height)
    {
      rows := [];
      var h := 0;
      while h < height
        invariant h <= height && Area(width, h) <= pixels.Length
        invariant rows == PackedRows(pixels[..], width, h)
      {
        var row := PackRow(h);
        PackedRowsLast(pixels[..], width, h + 1);
        rows := rows + [row];
        h := h + 1;
      }
    }

    /** One pass of Image_save's inner loop: a fresh buffer of 3*width bytes holding row h. */
    method PackRow(h: nat) returns (row: seq<Byte>)
      requires Valid() && SwappedCallsSafe(width, height) && h < height
      ensures Area(width, h) + width <= pixels.Length
      ensures row == Bytes(pixels[Area(width, h) .. Area(width, h) + width])
    {
      ghost var start := RowStart(width, height, h);
      var buffer := new Byte[3 * width];
      var p := 0;
      var w := 0;
      while w < width
        invariant w <= width && p == 3 * w
        invariant buffer[..p] == Bytes(pixels[start .. start + w])
      {
        SwappedCallInBounds(width, height, w, h);
        var pixel := pixels[PixelIndex(w, h)];
        assert pixel == pixels[..][start + w];
        ghost var written := buffer[..p];
        buffer[p] := pixel.red;
        p := p + 1;
        buffer[p] := pixel.green;
        p := p + 1;
        buffer[p] := pixel.blue;
        p := p + 1;
        assert buffer[..p] == written + Channels(pixel);
        BytesExtend(pixels[..], start, w);
        w := w + 1;
      }
      assert buffer[..] == buffer[..p];
      row := buffer[..];
    }

    /** The pixel-filling loop of Image_fromFile: bytes 3w, 3w+1, 3w+2 of row h become pixel (w, h). */
    method UnpackRows(rows: seq<seq<Byte>>)
      requires Valid() && SwappedCallsSafe(width, height)
      requires |rows| == height
      requires forall h :: 0 <= h < |rows| ==> |rows[h]| == 3 * width
      modifies pixels
      ensures pixels[..] == Unpacked(rows, width, height)
    {
      var h := 0;
      while h < height
        invariant h <= height && Area(width, h) <= pixels.Length
        invariant pixels[..Area(width, h)] == Unpacked(rows, width, h)
      {
        ghost var done := pixels[..];
        UnpackRow(rows[h], h);
        assert pixels[..Area(width, h + 1)] == done[..Area(width, h)] + PixelsOf(rows[h], width);
        h := h + 1;
      }
    }

    /** One pass of Image_fromFile's inner loop: the 3*width bytes of row become the pixels of row h. */
    method UnpackRow(row: seq<Byte>, h: nat)
      requires Valid() && SwappedCallsSafe(width, height) && h < height
      requires |row| == 3 * width
      modifies pixels
      ensures Area(width, h) + width <= pixels.Length
      ensures pixels[..Area(width, h) + width] == old(pixels[..Area(width, h)]) + PixelsOf(row, width)
      ensures pixels[Area(width, h) + width..] == old(pixels[Area(width, h) + width..])
    {
      ghost var start := RowStart(width, height, h);
      var p := 0;
      var w := 0;
      while w < width
        invariant w <= width && p == 3 * w
        invariant pixels[..start + w] == old(pixels[..start]) + PixelsOf(row[..p], w)
        invariant pixels[start + w..] == old(pixels[start + w..])
      {
        SwappedCallInBounds(width, height, w, h);
        var pixel := Pixel(row[p], row[p + 1], row[p + 2]);
        ghost var filled := pixels[..start + w];
        pixels[PixelIndex(w, h)] := pixel;
        assert pixels[..start + w + 1] == filled + [pixel];
        PixelsOfExtend(row, w);
        p := p + 3;
        w := w + 1;
      }
      assert row[..p] == row;
    }
  }
}
