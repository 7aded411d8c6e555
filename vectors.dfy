/**
 * Two-dimensional points and vectors over exact reals: the part of
 * goog.math.Vec2 that the nearest-point computation uses (difference,
 * scale, dot product and distance). Distances are kept squared, since
 * the square root is monotone and only ever used to compare distances.
 */
module Vectors {

  datatype Point = Point(x: real, y: real)

  /** `a - b`, as goog.math.Vec2.difference(a, b). */
  function Sub(a: Point, b: Point): Point {
    Point(a.x - b.x, a.y - b.y)
  }

  /** The vector `v` scaled by `k`. */
  function Scale(k: real, v: Point): Point {
    Point(k * v.x, k * v.y)
  }

  function Dot(a: Point, b: Point): real {
    a.x * b.x + a.y * b.y
  }

  /** The point `(1 - t) * a + t * b`, one cell of De Casteljau's triangle. */
  function Lerp(a: Point, b: Point, t: real): Point {
    Point((1.0 - t) * a.x + t * b.x, (1.0 - t) * a.y + t * b.y)
  }

  /** The squared Euclidean distance between `a` and `b`. */
  function Dist2(a: Point, b: Point): real {
    Dot(Sub(a, b), Sub(a, b))
  }
}
