/** Positions in a floor's drawing and the two distance thresholds of the
    navigation engine. Coordinates are integers; a Euclidean distance `d`
    (`Math.hypot`) is compared through its square, which preserves every
    comparison the program makes since both sides are non-negative. */
module Geometry {

  datatype Point = Point(x: int, y: int)

  /** `this.tolerance`: points at most this far apart are the same place. */
  const Tolerance: int := 5

  /** Labels name a leaf node strictly closer than this. */
  const LabelRadius: int := 10

  function DistSq(p: Point, q: Point): int {
    (p.x - q.x) * (p.x - q.x) + (p.y - q.y) * (p.y - q.y)
  }

  /** `Math.hypot(p.x - q.x, p.y - q.y) <= tolerance`. */
  predicate WithinTolerance(p: Point, q: Point) {
    DistSq(p, q) <= Tolerance * Tolerance
  }

  /** `Math.hypot(p.x - q.x, p.y - q.y) < 10`. */
  predicate WithinLabelRadius(p: Point, q: Point) {
    DistSq(p, q) < LabelRadius * LabelRadius
  }
}
