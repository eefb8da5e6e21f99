/** Points of the canvas (`Vector2`). The file defining `Vector2` is not part of this model;
    coordinates are exact reals, so floating-point rounding is not modelled. */
module Vectors {

  datatype Vector2 = Vector2(x: real, y: real)

  /** `Vector2.Substract(a, b)`. */
  function Subtract(a: Vector2, b: Vector2): Vector2
  {
    Vector2(a.x - b.x, a.y - b.y)
  }

  /** The square of the Euclidean distance between two points. */
  function SquaredDistance(a: Vector2, b: Vector2): real
  {
    (a.x - b.x) * (a.x - b.x) + (a.y - b.y) * (a.y - b.y)
  }

  /** `Vector2.Distance(a, b) <= r`, decided without a square root: the distance is the
      non-negative square root of the squared distance, so it is at most `r` exactly when
      `r` is not negative and the squared distance is at most `r * r`. */
  predicate WithinDistance(a: Vector2, b: Vector2, r: real)
  {
    0.0 <= r && SquaredDistance(a, b) <= r * r
  }
}
