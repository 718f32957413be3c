/** Points in image space and the comparisons made on their distances. */
module Geometry {

  /** An OpenCV `Point`: coordinates in source-image pixel space. */
  datatype Point = Point(x: real, y: real)

  /** Squared Euclidean distance. The source takes a square root first, but where
      it only compares distances the square root changes no outcome, because it
      is strictly increasing on non-negative values. */
  function SqDist(p: Point, q: Point): (d: real)
    ensures d >= 0.0
  {
    var dx := q.x - p.x;
    var dy := q.y - p.y;
    SquareNonNegative(dx);
    SquareNonNegative(dy);
    dx * dx + dy * dy
  }

  lemma SquareNonNegative(a: real)
    ensures a * a >= 0.0
  {
    if a < 0.0 {
      assert a * a == (-a) * (-a);
    }
  }

  /** `Math.max` on doubles. */
  function Max(a: real, b: real): (m: real)
    ensures m >= a && m >= b
    ensures m == a || m == b
  {
    if a >= b then a else b
  }
}
