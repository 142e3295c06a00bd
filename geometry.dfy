/** Integer points of the canvas and the distance between them (`get_euclidean`). */
module Geometry {

  /** A pixel position, the `(x, y)` tuple of the source. */
  datatype Point = Point(x: int, y: int)

  /** The square of the Euclidean distance between `a` and `b`.
      `get_euclidean` returns the square root of this value; the model keeps the
      square so that every comparison stays exact. */
  function SquaredDistance(a: Point, b: Point): (d: int)
    ensures d >= 0
    ensures d == 0 <==> a == b
  {
    var dx, dy := a.x - b.x, a.y - b.y;
    dx * dx + dy * dy
  }

  /** The distance does not depend on the order of its arguments. */
  lemma DistanceSymmetric(a: Point, b: Point)
    ensures SquaredDistance(a, b) == SquaredDistance(b, a)
  {
  }
}
