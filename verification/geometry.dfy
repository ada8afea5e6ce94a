/** Plane geometry over exact reals: chromaticity points, segments, and the
    two collaborator shapes the dominant-wavelength search is written against
    (a segment-extension primitive and a segment-intersection primitive). */
module Geometry {
  import opened Wrappers

  /** A chromaticity point `(x, y)`. */
  datatype Point = Point(x: real, y: real)

  /** The closed segment from `a` to `b`. */
  datatype Segment = Segment(a: Point, b: Point)

  function Sub(p: Point, q: Point): Point {
    Point(p.x - q.x, p.y - q.y)
  }

  function Add(p: Point, q: Point): Point {
    Point(p.x + q.x, p.y + q.y)
  }

  function Scale(k: real, p: Point): Point {
    Point(k * p.x, k * p.y)
  }

  /** The z-component of the cross product of two plane vectors. */
  function Cross(u: Point, v: Point): real {
    u.x * v.y - u.y * v.x
  }

  function Dot(u: Point, v: Point): real {
    u.x * v.x + u.y * v.y
  }

  /** Squared Euclidean distance. It has the same minimisers as the
      Euclidean distance, so nearest-sample searches can use it without a
      square root. */
  function Dist2(p: Point, q: Point): (d: real)
    ensures d >= 0.0
  {
    var dx := p.x - q.x;
    var dy := p.y - q.y;
    SquareNonNegative(dx);
    SquareNonNegative(dy);
    dx * dx + dy * dy
  }

  lemma SquareNonNegative(u: real)
    ensures u * u >= 0.0
  {
    if u < 0.0 {
      assert u * u == (-u) * (-u);
    }
  }

  /** The point at parameter `t` along `s`: `s.a` at 0, `s.b` at 1. */
  function Lerp(s: Segment, t: real): Point {
    Add(s.a, Scale(t, Sub(s.b, s.a)))
  }

  /** `p` lies on the closed segment `s`. */
  ghost predicate OnSegment(p: Point, s: Segment) {
    exists t: real :: 0.0 <= t <= 1.0 && p == Lerp(s, t)
  }

  /** `extend(a, b)` is a segment end point past `b` on the ray from `a`
      through `b`. */
  type Extender = (Point, Point) -> Point

  /** `intersect(s1, s2)` is the crossing point of two segments, or `None`
      when they do not cross. */
  type Intersector = (Segment, Segment) -> Option<Point>

  /** `e` lies on the line through `a` and `b`, strictly beyond `b` as seen
      from `a`: what an extension of the segment `a`-`b` must deliver. */
  predicate ExtendsBeyond(e: Point, a: Point, b: Point) {
    Cross(Sub(b, a), Sub(e, a)) == 0.0 && Dot(Sub(e, b), Sub(b, a)) > 0.0
  }

  /** Whatever the intersector reports for `s1` and `s2` lies on both. */
  ghost predicate SoundOn(intersect: Intersector, s1: Segment, s2: Segment) {
    intersect(s1, s2).Some? ==>
      OnSegment(intersect(s1, s2).value, s1) && OnSegment(intersect(s1, s2).value, s2)
  }
}
