/** Points, sizes and rectangles over exact reals in place of CGFloat, with
    the CoreGraphics notions the view relies on. */
module Geometry {

  datatype Point = Point(x: real, y: real)

  datatype Size = Size(width: real, height: real)

  datatype Rect = Rect(origin: Point, size: Size)

  const ZeroSize: Size := Size(0.0, 0.0)

  const ZeroRect: Rect := Rect(Point(0.0, 0.0), ZeroSize)

  function Min(a: real, b: real): real { if a <= b then a else b }

  function Max(a: real, b: real): real { if a <= b then b else a }

  // CoreGraphics reads a rectangle with a negative width or height as the
  // one spanning the same two edges; minX/maxX/minY/maxY are those edges.

  function MinX(r: Rect): real { Min(r.origin.x, r.origin.x + r.size.width) }

  function MaxX(r: Rect): real { Max(r.origin.x, r.origin.x + r.size.width) }

  function MinY(r: Rect): real { Min(r.origin.y, r.origin.y + r.size.height) }

  function MaxY(r: Rect): real { Max(r.origin.y, r.origin.y + r.size.height) }

  /** CGRect.contains: the point lies inside the rectangle or on its
      minimum-x or minimum-y edge. */
  predicate Contains(r: Rect, p: Point)
  {
    MinX(r) <= p.x < MaxX(r) && MinY(r) <= p.y < MaxY(r)
  }

  /** Every edge of `inner` lies within `outer`. */
  predicate Encloses(outer: Rect, inner: Rect)
  {
    MinX(outer) <= MinX(inner) && MaxX(inner) <= MaxX(outer) &&
    MinY(outer) <= MinY(inner) && MaxY(inner) <= MaxY(outer)
  }
}
