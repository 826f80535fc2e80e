/** Points in image pixel space and the 6x6-to-8x8 corner rescaling.
    Coordinates are `real`: exact arithmetic standing in for the source's
    floating-point arithmetic. */
module Geometry {

  /** A coordinate `(x, y)`; `x` indexes columns and `y` rows. */
  datatype Point = Point(x: real, y: real)
  {
    function Plus(o: Point): Point { Point(x + o.x, y + o.y) }

    function Minus(o: Point): Point { Point(x - o.x, y - o.y) }

    function Times(k: real): Point { Point(x * k, y * k) }
  }

  function Midpoint(a: Point, b: Point): Point
  {
    Point((a.x + b.x) / 2.0, (a.y + b.y) / 2.0)
  }

  /** A detected 6-square span grows to an 8-square one. */
  const ScaleFactor: real := 8.0 / 6.0

  /** Pushes `p` away from (or toward) `center` by the factor `k`. */
  function ScaleAbout(center: Point, p: Point, k: real): Point
  {
    center.Plus(p.Minus(center).Times(k))
  }

  /** `scale_corners`: both corners pushed out from their common midpoint
      by 8/6. The midpoint is kept, every offset from it and the separation
      of the pair grow by exactly 8/6, and a degenerate pair is left alone. */
  function ScaleCorners(c1: Point, c2: Point): (r: (Point, Point))
    ensures Midpoint(r.0, r.1) == Midpoint(c1, c2)
    ensures r.0.Minus(Midpoint(c1, c2)) == c1.Minus(Midpoint(c1, c2)).Times(ScaleFactor)
    ensures r.1.Minus(Midpoint(c1, c2)) == c2.Minus(Midpoint(c1, c2)).Times(ScaleFactor)
    ensures r.1.Minus(r.0) == c2.Minus(c1).Times(ScaleFactor)
    ensures c1 == c2 ==> r == (c1, c2)
  {
    var center := Midpoint(c1, c2);
    (ScaleAbout(center, c1, ScaleFactor), ScaleAbout(center, c2, ScaleFactor))
  }

  /** An independent closed form: each scaled corner is the affine
      combination `(7 * own - other) / 6` of the two inputs. */
  lemma ScaleCornersClosedForm(c1: Point, c2: Point)
    ensures ScaleCorners(c1, c2).0 == Point((7.0 * c1.x - c2.x) / 6.0, (7.0 * c1.y - c2.y) / 6.0)
    ensures ScaleCorners(c1, c2).1 == Point((7.0 * c2.x - c1.x) / 6.0, (7.0 * c2.y - c1.y) / 6.0)
  {
  }

  /** Scaling back by 6/8 about the (unchanged) midpoint recovers the
      detected corners, so no information is lost. */
  lemma ScaleCornersInverse(c1: Point, c2: Point)
    ensures var (s1, s2) := ScaleCorners(c1, c2);
            var center := Midpoint(s1, s2);
            ScaleAbout(center, s1, 6.0 / 8.0) == c1 && ScaleAbout(center, s2, 6.0 / 8.0) == c2
  {
  }

  /** The scaling only ever enlarges the axis-aligned box spanned by the
      pair: on each axis the smaller coordinate does not grow and the larger
      one does not shrink. */
  lemma ScaleCornersEnlargesBox(c1: Point, c2: Point)
    ensures var (s1, s2) := ScaleCorners(c1, c2);
            && (c1.x <= c2.x ==> s1.x <= c1.x && c2.x <= s2.x)
            && (c2.x <= c1.x ==> s2.x <= c2.x && c1.x <= s1.x)
            && (c1.y <= c2.y ==> s1.y <= c1.y && c2.y <= s2.y)
            && (c2.y <= c1.y ==> s2.y <= c2.y && c1.y <= s1.y)
  {
  }

  /** Swapping the detected corners swaps the scaled ones: the rescaling
      depends on the pair, not on which corner came first. */
  lemma ScaleCornersSwap(c1: Point, c2: Point)
    ensures ScaleCorners(c2, c1) == (ScaleCorners(c1, c2).1, ScaleCorners(c1, c2).0)
  {
  }
}
