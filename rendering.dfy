/**
 * What a renderer paints: pixel (w, h) stands for a point of the plane,
 * and it ends up blue when the escape-time iteration draws that point and
 * keeps the black of a fresh image otherwise.
 */
module Rendering {
  import opened Images
  import opened EscapeTime

  /** The one colour drawn pixels receive. */
  const Blue := Pixel(0, 0, 255)

  /** The mapping from pixels to the plane: pixel (w, h) is (xmin + w*xScale, ymin + h*yScale). */
  datatype Grid = Grid(xmin: real, xScale: real, ymin: real, yScale: real)

  /**
   * The width of one pixel, (max - min) / count.  With count 0 the C
   * quotient is a division by zero, but then no pixel reads it; 0 stands in.
   */
  function Scale(min: real, max: real, count: nat): (s: real)
    ensures count > 0 ==> s * (count as real) == max - min
  {
    if count == 0 then 0.0 else (max - min) / (count as real)
  }

  function GridOf(width: nat, height: nat, xmin: real, xmax: real, ymin: real, ymax: real): Grid {
    Grid(xmin, Scale(xmin, xmax, width), ymin, Scale(ymin, ymax, height))
  }

  /** The coordinate of index i along one axis. */
  function Coordinate(min: real, scale: real, i: nat): real {
    min + (i as real) * scale
  }

  /** Adding the scale once more moves to the next index: the loops' `x += x_scale`. */
  lemma NextCoordinate(min: real, scale: real, i: nat)
    ensures Coordinate(min, scale, i + 1) == Coordinate(min, scale, i) + scale
  {
    assert ((i + 1) as real) * scale == (i as real) * scale + scale;
  }

  /** The point pixel (w, h) stands for. */
  function Point(g: Grid, w: nat, h: nat): Complex {
    Complex(Coordinate(g.xmin, g.xScale, w), Coordinate(g.ymin, g.yScale, h))
  }

  function Colour(draw: bool): Pixel {
    if draw then Blue else Black
  }

  /** The colour pixel (w, h) ends up with. */
  function Rendered(rule: ZeroExponentRule, g: Grid, exponent: nat, iterations: nat, limit: real, w: nat, h: nat): (p: Pixel)
    ensures p == Blue <==> Draws(rule, exponent, Point(g, w, h), iterations, limit)
    ensures p == Black <==> !Draws(rule, exponent, Point(g, w, h), iterations, limit)
  {
    Colour(Draws(rule, exponent, Point(g, w, h), iterations, limit))
  }

}
