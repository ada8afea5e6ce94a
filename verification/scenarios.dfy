/** Worked cases on a small triangular locus with the exact intersection:
    samples at (0.8, 0.2), (0.2, 0.8) and (0.2, 0.1) with wavelengths 700,
    520 and 400, so the line of purples is the side from (0.8, 0.2) to
    (0.2, 0.1), and an achromatic stimulus at (0.45, 0.25). The extension
    stretches a segment to ten times its length past its end. */
module Scenarios {
  import opened Wrappers
  import opened Geometry
  import opened SpectralLocus
  import opened Dominant
  import opened ExactIntersection
  import opened Radicals
  import opened Purity

  const Triangle: seq<Point> := [Point(0.8, 0.2), Point(0.2, 0.8), Point(0.2, 0.1)]
  const Wavelengths: seq<real> := [700.0, 520.0, 400.0]
  const White: Point := Point(0.45, 0.25)
  const Stimulus: Point := Point(0.5, 0.3)

  /** The end point ten segment lengths past `b` on the ray from `a`. */
  function Stretch(a: Point, b: Point): Point {
    Add(b, Scale(10.0, Sub(b, a)))
  }

  /** The stretch of a single point is that point. */
  lemma StretchDegenerate(p: Point)
    ensures Stretch(p, p) == p
  {
  }

  /** The stretch is an extension: past `b`, on the line through `a` and
      `b`, whenever the segment is not a single point. */
  lemma StretchExtends(a: Point, b: Point)
    requires a != b
    ensures ExtendsBeyond(Stretch(a, b), a, b)
  {
    var v := Sub(b, a);
    var e := Stretch(a, b);
    assert Sub(e, a) == Scale(11.0, v);
    assert Cross(v, Sub(e, a)) == v.x * (11.0 * v.y) - v.y * (11.0 * v.x);
    assert v.x * (11.0 * v.y) == v.y * (11.0 * v.x);
    assert Sub(e, b) == Scale(10.0, v);
    assert Dot(Sub(e, b), v) == (10.0 * v.x) * v.x + (10.0 * v.y) * v.y;
    assert (10.0 * v.x) * v.x == 10.0 * (v.x * v.x);
    assert (10.0 * v.y) * v.y == 10.0 * (v.y * v.y);
    PositiveSquares(v);
  }

  /** With the stretch as the extension, the search ray of two distinct
      stimuli runs along the line through them, towards the colour stimulus
      forward and away from it in reverse. */
  lemma StretchedSearchRayDirection(xy: Point, xyN: Point, reverse: bool)
    requires xy != xyN
    ensures Cross(Sub(xy, xyN), Sub(SearchRay(xy, xyN, reverse, Stretch).b, xyN)) == 0.0
    ensures reverse ==> Dot(Sub(SearchRay(xy, xyN, reverse, Stretch).b, xyN), Sub(xy, xyN)) < 0.0
    ensures !reverse ==> Dot(Sub(SearchRay(xy, xyN, reverse, Stretch).b, xyN), Sub(xy, xyN)) > 0.0
  {
    StretchExtends(xyN, xy);
    StretchExtends(xy, xyN);
    SearchRayDirection(xy, xyN, reverse, Stretch);
  }

  /** A non-zero vector has a positive squared length. */
  lemma PositiveSquares(v: Point)
    requires v != Point(0.0, 0.0)
    ensures v.x * v.x + v.y * v.y > 0.0
  {
    if v.x != 0.0 {
      PositiveSquare(v.x);
      SquareNonNegative(v.y);
    } else {
      PositiveSquare(v.y);
      SquareNonNegative(v.x);
    }
  }

  /** A non-zero real has a positive square. */
  lemma PositiveSquare(a: real)
    requires a != 0.0
    ensures a * a > 0.0
  {
    if a < 0.0 {
      assert a * a == (-a) * (-a);
    }
  }

  /** The closed triangle: the three samples and the first one again. */
  const Closed: seq<Point> := [Point(0.8, 0.2), Point(0.2, 0.8), Point(0.2, 0.1), Point(0.8, 0.2)]

  /** The search ray towards the stimulus and the one away from it. */
  const TowardsRay: Segment := Segment(White, Point(1.0, 0.8))
  const AwayRay: Segment := Segment(White, Point(-0.05, -0.25))

  lemma ClosedTriangle()
    ensures Close(Triangle) == Closed
  {
  }

  /** The searched segments run ten times as far past their end as the
      distance between the two stimuli. */
  lemma SearchRays()
    ensures SearchRay(Stimulus, White, false, Stretch) == TowardsRay
    ensures SearchRay(Stimulus, White, true, Stretch) == AwayRay
  {
  }

  /** The edges of the closed triangle, the degenerate edge at the first
      sample first and the line of purples last. */
  lemma TriangleEdges()
    ensures Edge(Closed, 0) == Segment(Point(0.8, 0.2), Point(0.8, 0.2))
    ensures Edge(Closed, 1) == Segment(Point(0.2, 0.8), Point(0.8, 0.2))
    ensures Edge(Closed, 2) == Segment(Point(0.2, 0.1), Point(0.2, 0.8))
    ensures Edge(Closed, 3) == Segment(Point(0.8, 0.2), Point(0.2, 0.1))
  {
  }

  /** The ray towards the stimulus crosses the spectral edge from (0.2, 0.8)
      to (0.8, 0.2) at (0.6, 0.4). */
  lemma TowardsCrossesSpectralEdge()
    ensures EdgeCrossing(TowardsRay, Closed, Intersect, 1) == Some(Point(0.6, 0.4))
  {
    TriangleEdges();
  }

  /** It passes the short spectral edge from (0.2, 0.1) to (0.2, 0.8). */
  lemma TowardsMissesShortEdge()
    ensures EdgeCrossing(TowardsRay, Closed, Intersect, 2) == None
  {
    TriangleEdges();
  }

  /** It does not reach the line of purples. */
  lemma TowardsMissesLineOfPurples()
    ensures EdgeCrossing(TowardsRay, Closed, Intersect, 3) == None
  {
    TriangleEdges();
  }

  /** The ray away from the stimulus does not reach the long spectral edge. */
  lemma AwayMissesSpectralEdge()
    ensures EdgeCrossing(AwayRay, Closed, Intersect, 1) == None
  {
    TriangleEdges();
  }

  /** It passes the short spectral edge. */
  lemma AwayMissesShortEdge()
    ensures EdgeCrossing(AwayRay, Closed, Intersect, 2) == None
  {
    TriangleEdges();
  }

  /** It crosses the line of purples at (0.32, 0.12). */
  lemma AwayCrossesLineOfPurples()
    ensures EdgeCrossing(AwayRay, Closed, Intersect, 3) == Some(Point(0.32, 0.12))
  {
    TriangleEdges();
  }

  /** No ray crosses the degenerate first edge. */
  lemma FirstEdgeMissed(ray: Segment)
    ensures EdgeCrossing(ray, Closed, Intersect, 0) == None
  {
    TriangleEdges();
    DegenerateMissed(ray, Point(0.8, 0.2));
  }

  /** The ray towards the stimulus crosses exactly one edge. */
  lemma TowardsCrossings()
    ensures DefinedEdges(TowardsRay, Closed, Intersect, 4) == [1]
  {
    FirstEdgeMissed(TowardsRay);
    TowardsCrossesSpectralEdge();
    TowardsMissesShortEdge();
    TowardsMissesLineOfPurples();
  }

  /** The ray away from the stimulus crosses exactly one edge. */
  lemma AwayCrossings()
    ensures DefinedEdges(AwayRay, Closed, Intersect, 4) == [3]
  {
    FirstEdgeMissed(AwayRay);
    AwayMissesSpectralEdge();
    AwayMissesShortEdge();
    AwayCrossesLineOfPurples();
  }

  /** (0.6, 0.4) is as near to the repeated first sample as to the first
      sample itself, and the tie goes to index 0; (0.32, 0.12) is nearest to
      the 400 sample. */
  lemma Nearest()
    ensures NearestIndex(Point(0.6, 0.4), Closed, 4) == 0
    ensures NearestIndex(Point(0.32, 0.12), Closed, 4) == 2
  {
  }

  /** The search towards the stimulus finds the crossing (0.6, 0.4), at
      the 700 sample. */
  lemma ForwardSearch()
    ensures ClosestSpectralLocusWavelength(Stimulus, White, Triangle, false, Stretch, Intersect)
      == Success(Crossing(0, Point(0.6, 0.4)))
  {
    ClosedTriangle();
    SearchRays();
    TowardsCrossings();
    TowardsCrossesSpectralEdge();
    Nearest();
  }

  /** The search away from the stimulus finds the crossing (0.32, 0.12) on the
      line of purples, at the 400 sample. */
  lemma ReverseSearch()
    ensures ClosestSpectralLocusWavelength(Stimulus, White, Triangle, true, Stretch, Intersect)
      == Success(Crossing(2, Point(0.32, 0.12)))
  {
    ClosedTriangle();
    SearchRays();
    AwayCrossings();
    AwayCrossesLineOfPurples();
    Nearest();
  }

  /** The ray towards the stimulus misses the line of purples, so the
      dominant wavelength is the 700 of its own crossing. */
  lemma DominantOnSpectralEdge()
    ensures DominantWavelength(Stimulus, White, Triangle, Wavelengths, false, Stretch, Intersect)
      == Success(DominantResult(700.0, Point(0.6, 0.4), Point(0.6, 0.4)))
  {
    ForwardSearch();
    ReverseSearch();
    ClosedTriangle();
    SearchRays();
    TowardsMissesLineOfPurples();
    assert !CrossesLineOfPurples(Stimulus, White, Triangle, false, Stretch, Intersect);
  }

  /** Searched in reverse, the same stimulus crosses the line of purples,
      so the complementary wavelength is the negated 700 of the opposite
      crossing, which becomes the second intersection. */
  lemma ComplementaryThroughLineOfPurples()
    ensures ComplementaryWavelength(Stimulus, White, Triangle, Wavelengths, Stretch, Intersect)
      == Success(DominantResult(-700.0, Point(0.32, 0.12), Point(0.6, 0.4)))
  {
    ForwardSearch();
    ReverseSearch();
    ClosedTriangle();
    SearchRays();
    AwayCrossesLineOfPurples();
    assert CrossesLineOfPurples(Stimulus, White, Triangle, true, Stretch, Intersect);
  }

  /** The stimulus is a third of the way from the achromatic stimulus to the
      first intersection, so its excitation purity is 1/3: the squared
      distances are 0.005 and 0.045. */
  lemma StimulusExcitationPurity()
    ensures ExcitationPurity(Stimulus, White, Triangle, Wavelengths, Stretch, Intersect)
      == Success(Radical(false, 0.005, 0.045))
    ensures Denotes(Radical(false, 0.005, 0.045), 1.0 / 3.0)
  {
    DominantOnSpectralEdge();
  }

  /** Its colorimetric purity is 1/3 scaled by 0.4 / 0.3, the ratio of the
      `y` of the first intersection to the `y` of the stimulus: 4/9. */
  lemma StimulusColorimetricPurity()
    ensures ColorimetricPurity(Stimulus, White, Triangle, Wavelengths, Stretch, Intersect)
      == Success(Radical(false, 0.0008, 0.00405))
    ensures Denotes(Radical(false, 0.0008, 0.00405), 4.0 / 9.0)
  {
    DominantOnSpectralEdge();
    StimulusExcitationPurity();
  }

  /** When the colour stimulus is the achromatic stimulus, the stretched
      search ray is a single point, crosses no edge of the closed locus, and
      the search reports that it found no intersection. */
  lemma AchromaticStimulusFails(p: Point, locus: seq<Point>, reverse: bool)
    requires |locus| > 0
    ensures ClosestSpectralLocusWavelength(p, p, locus, reverse, Stretch, Intersect) == Failure(NoIntersection(p, p))
  {
    StretchDegenerate(p);
    var ray := SearchRay(p, p, reverse, Stretch);
    assert ray == Segment(p, p);
    var closed := Close(locus);
    forall j | 0 <= j < |closed| ensures EdgeCrossing(ray, closed, Intersect, j).None? {
      DegenerateRayMisses(p, Edge(closed, j));
    }
  }

  /** With the exact intersection, the point a successful search returns
      lies on the search ray and on an edge of the closed locus. */
  lemma ExactSearchOnSegments(
    xy: Point, xyN: Point, locus: seq<Point>, reverse: bool, extend: Extender)
    requires |locus| > 0
    requires ClosestSpectralLocusWavelength(xy, xyN, locus, reverse, extend, Intersect).Success?
    ensures var p := ClosestSpectralLocusWavelength(xy, xyN, locus, reverse, extend, Intersect).value.point;
      && OnSegment(p, SearchRay(xy, xyN, reverse, extend))
      && exists j :: 0 <= j < |locus| + 1 && OnSegment(p, Edge(Close(locus), j))
  {
    forall j | 0 <= j < |locus| + 1
      ensures SoundOn(Intersect, SearchRay(xy, xyN, reverse, extend), Edge(Close(locus), j))
    {
      IntersectSound(SearchRay(xy, xyN, reverse, extend), Edge(Close(locus), j));
    }
    SearchPointOnSegments(xy, xyN, locus, reverse, extend, Intersect);
  }
}
