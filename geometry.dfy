/** CoreGraphics points and rectangles, with coordinates as exact reals. */
module Geometry {

  /** A `CGPoint`. */
  datatype Point = Point(x: real, y: real)

  /** A `CGRect`: an origin and a size. The size may be negative; CoreGraphics
      then reads the rectangle as spanning from the origin backwards. */
  datatype Rect = Rect(x: real, y: real, width: real, height: real) {

    function MinX(): real { if width >= 0.0 then x else x + width }
    function MaxX(): real { if width >= 0.0 then x + width else x }
    function MinY(): real { if height >= 0.0 then y else y + height }
    function MaxY(): real { if height >= 0.0 then y + height else y }

    /** `CGRect.contains(_:)`: a point is inside when it lies within the
        rectangle or on its minimum-x or minimum-y edge (half-open on both axes). */
    predicate Contains(p: Point) {
      MinX() <= p.x < MaxX() && MinY() <= p.y < MaxY()
    }
  }

  /** The frame of a freshly created `CALayer`. */
  const ZERO_RECT := Rect(0.0, 0.0, 0.0, 0.0)

  /** A rectangle of non-negative size contains exactly the points of
      [x, x + width) x [y, y + height). */
  lemma ContainsNonNegative(r: Rect, p: Point)
    requires r.width >= 0.0 && r.height >= 0.0
    ensures r.Contains(p) <==> r.x <= p.x < r.x + r.width && r.y <= p.y < r.y + r.height
  {
  }
}
