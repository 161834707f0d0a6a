/**
 * Plane geometry used by the layout: points, sizes, rectangles and edge
 * insets over exact reals. Minima and maxima are standardized the way
 * CoreGraphics standardizes a rectangle with a negative width or height.
 */
module Geometry {
  datatype Point = Point(x: real, y: real)

  datatype Size = Size(w: real, h: real)

  datatype EdgeInsets = EdgeInsets(top: real, left: real, bottom: real, right: real)

  function Max(a: real, b: real): real
  {
    if b >= a then b else a
  }

  datatype Rect = Rect(x: real, y: real, w: real, h: real) {
    function MinX(): real { if w < 0.0 then x + w else x }
    function MaxX(): real { if w < 0.0 then x else x + w }
    function MinY(): real { if h < 0.0 then y + h else y }
    function MaxY(): real { if h < 0.0 then y else y + h }

    /** The standardized width and height, never negative, as CoreGraphics reports them. */
    function Width(): (r: real)
      ensures r >= 0.0 && r == MaxX() - MinX()
    {
      if w < 0.0 then -w else w
    }

    function Height(): (r: real)
      ensures r >= 0.0 && r == MaxY() - MinY()
    {
      if h < 0.0 then -h else h
    }

    /** Half-open containment: the bottom and right edges are outside. */
    predicate Contains(p: Point)
    {
      MinX() <= p.x < MaxX() && MinY() <= p.y < MaxY()
    }

    /** The open intervals of the two rectangles overlap on both axes; shared edges do not count. */
    predicate Intersects(r: Rect)
    {
      MinX() < r.MaxX() && r.MinX() < MaxX() && MinY() < r.MaxY() && r.MinY() < MaxY()
    }

    function Translate(dx: real, dy: real): Rect
    {
      this.(x := x + dx, y := y + dy)
    }
  }

  const ZeroRect := Rect(0.0, 0.0, 0.0, 0.0)
}
