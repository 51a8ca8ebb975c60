/**
 * Pixel coordinates, the canvas bounds, the rectangle rasterizer's region
 * (`skimage.draw.rectangle`) and Python's `int()` on a real number.
 */
module Geometry {

  /** Every channel of the canvas has 256 rows and 512 columns. */
  const Rows := 256
  const Cols := 512

  /** A pixel position: row first, as NumPy indexes it. */
  datatype Point = Point(row: int, col: int)

  predicate InCanvas(p: Point) {
    0 <= p.row < Rows && 0 <= p.col < Cols
  }

  /** An inclusive axis-aligned box, normalised so that top <= bottom and left <= right. */
  datatype Box = Box(top: int, left: int, bottom: int, right: int)

  predicate InBox(b: Box, p: Point) {
    b.top <= p.row <= b.bottom && b.left <= p.col <= b.right
  }

  predicate BoxInCanvas(b: Box) {
    0 <= b.top && b.bottom < Rows && 0 <= b.left && b.right < Cols
  }

  /** x lies between a and b, whichever of the two is larger. */
  predicate Between(x: int, a: int, b: int) {
    a <= x <= b || b <= x <= a
  }

  function Min(a: int, b: int): int { if a <= b then a else b }

  function Max(a: int, b: int): int { if a <= b then b else a }

  /**
   * `rectangle(start, end)`: every pixel of the inclusive bounding box of the
   * two corners, which may be given in any order along either axis.
   */
  function RectRegion(start: Point, end: Point): (b: Box)
    ensures b.top <= b.bottom && b.left <= b.right
    ensures forall p :: InBox(b, p) <==> Between(p.row, start.row, end.row) && Between(p.col, start.col, end.col)
  {
    Box(Min(start.row, end.row), Min(start.col, end.col), Max(start.row, end.row), Max(start.col, end.col))
  }

  /** A region is never empty: both corners belong to it. */
  lemma RectRegionHoldsCorners(start: Point, end: Point)
    ensures InBox(RectRegion(start, end), start) && InBox(RectRegion(start, end), end)
  {
  }

  /** Python's `int(x)`: the integer part of x, truncated toward zero. */
  function PyInt(x: real): (n: int)
    ensures 0.0 <= x ==> n as real <= x < n as real + 1.0
    ensures x < 0.0 ==> n as real - 1.0 < x <= n as real
  {
    if x >= 0.0 then x.Floor else -((-x).Floor)
  }

  /** Truncation toward zero never reverses the order of two numbers. */
  lemma PyIntMonotone(x: real, y: real)
    requires x <= y
    ensures PyInt(x) <= PyInt(y)
  {
  }
}
