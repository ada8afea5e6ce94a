/** The search for the point where the ray from the achromatic stimulus
    crosses the closed spectral locus, and for the locus sample nearest to
    that point (`closest_spectral_locus_wavelength`). */
module SpectralLocus {
  import opened Wrappers
  import opened Geometry

  /** Why a locus search fails. */
  datatype LocusError =
    /** No edge of the closed locus is crossed: the explicit error raised
        for the colour stimulus `xy` and the achromatic stimulus `xyN`. */
    | NoIntersection(xy: Point, xyN: Point)
    /** `count` (two or more) edges are crossed, so the crossings cannot be
        reshaped into the single result expected for one stimulus. */
    | ReshapeFailure(count: nat)

  /** A successful search: the index of the nearest locus sample and the
      crossing point. */
  datatype Crossing = Crossing(index: nat, point: Point)

  /** The horseshoe closed into a loop by repeating its first sample. */
  function Close(locus: seq<Point>): (closed: seq<Point>)
    requires |locus| > 0
    ensures |closed| == |locus| + 1
    ensures forall i :: 0 <= i < |locus| ==> closed[i] == locus[i]
    ensures closed[|locus|] == locus[0]
  {
    locus + [locus[0]]
  }

  /** The cyclic predecessor of index `i` in a loop of `n` points: the
      index that rolling the points by one place moves to `i`. */
  function Predecessor(i: nat, n: nat): (j: nat)
    requires i < n
    ensures j < n
    ensures j == (i - 1) % n
  {
    if i == 0 then n - 1 else i - 1
  }

  /** Edge `i` of a loop joins point `i` to its cyclic predecessor: the
      pairing of the points with the points rolled by one place. */
  function Edge(closed: seq<Point>, i: nat): Segment
    requires i < |closed|
  {
    Segment(closed[i], closed[Predecessor(i, |closed|)])
  }

  /** The straight segment between the two ends of the horseshoe. */
  function LineOfPurples(locus: seq<Point>): Segment
    requires |locus| > 0
  {
    Segment(locus[0], locus[|locus| - 1])
  }

  /** The edges of the closed locus: a degenerate edge at the first sample,
      the spectral edges between neighbouring samples (each oriented from the
      later sample to the earlier one), and last the line of purples. */
  lemma ClosedLocusEdges(locus: seq<Point>)
    requires |locus| > 0
    ensures Edge(Close(locus), 0) == Segment(locus[0], locus[0])
    ensures forall i :: 1 <= i < |locus| ==> Edge(Close(locus), i) == Segment(locus[i], locus[i - 1])
    ensures Edge(Close(locus), |locus|) == LineOfPurples(locus)
  {
    var closed := Close(locus);
    forall i | 1 <= i < |locus|
      ensures Edge(closed, i) == Segment(locus[i], locus[i - 1])
    {
    }
  }

  /** The segment searched for crossings: it starts at the achromatic
      stimulus and reaches past the colour stimulus (forward), or past the
      achromatic stimulus away from the colour stimulus (reverse). */
  function SearchRay(xy: Point, xyN: Point, reverse: bool, extend: Extender): (ray: Segment)
    ensures ray.a == xyN
  {
    Segment(xyN, if reverse then extend(xy, xyN) else extend(xyN, xy))
  }

  /** With an extension primitive that really extends, the forward ray points
      from the achromatic stimulus towards the colour stimulus and the
      reverse ray points away from it, both along the same line. */
  lemma SearchRayDirection(xy: Point, xyN: Point, reverse: bool, extend: Extender)
    requires !reverse ==> ExtendsBeyond(extend(xyN, xy), xyN, xy)
    requires reverse ==> ExtendsBeyond(extend(xy, xyN), xy, xyN)
    ensures Cross(Sub(xy, xyN), Sub(SearchRay(xy, xyN, reverse, extend).b, xyN)) == 0.0
    ensures reverse ==> Dot(Sub(SearchRay(xy, xyN, reverse, extend).b, xyN), Sub(xy, xyN)) < 0.0
    ensures !reverse ==> Dot(Sub(SearchRay(xy, xyN, reverse, extend).b, xyN), Sub(xy, xyN)) > 0.0
  {
    var u := Sub(xy, xyN);
    var e := SearchRay(xy, xyN, reverse, extend).b;
    if reverse {
      assert Cross(Sub(xyN, xy), Sub(e, xy)) == 0.0;
      assert Dot(Sub(e, xyN), Sub(xyN, xy)) > 0.0;
    } else {
      assert Dot(Sub(e, xy), u) > 0.0;
      SquareNonNegative(u.x);
      SquareNonNegative(u.y);
      assert Dot(Sub(e, xyN), u) == Dot(Sub(e, xy), u) + Dot(u, u);
    }
  }

  /** Where the ray crosses edge `j` of the loop, if it does. */
  function EdgeCrossing(ray: Segment, closed: seq<Point>, intersect: Intersector, j: nat): Option<Point>
    requires j < |closed|
  {
    intersect(ray, Edge(closed, j))
  }

  /** The ray crosses edge `j` of the loop. */
  ghost predicate CrossesEdge(ray: Segment, closed: seq<Point>, intersect: Intersector, j: int) {
    0 <= j < |closed| && EdgeCrossing(ray, closed, intersect, j).Some?
  }

  /** The ray crosses no edge of the loop. */
  ghost predicate NoCrossing(ray: Segment, closed: seq<Point>, intersect: Intersector) {
    forall j :: 0 <= j < |closed| ==> EdgeCrossing(ray, closed, intersect, j).None?
  }

  /** The ray crosses at least two edges of the loop. */
  ghost predicate SeveralCrossings(ray: Segment, closed: seq<Point>, intersect: Intersector) {
    exists j, k :: 0 <= j < k < |closed| && CrossesEdge(ray, closed, intersect, j) && CrossesEdge(ray, closed, intersect, k)
  }

  /** The ray crosses edge `j` at `p` and no other edge. */
  ghost predicate UniqueCrossingAt(ray: Segment, closed: seq<Point>, intersect: Intersector, j: int, p: Point) {
    && 0 <= j < |closed|
    && EdgeCrossing(ray, closed, intersect, j) == Some(p)
    && forall k :: 0 <= k < |closed| && k != j ==> EdgeCrossing(ray, closed, intersect, k).None?
  }

  /** The ray crosses the loop exactly once, at `p`. */
  ghost predicate UniqueCrossing(ray: Segment, closed: seq<Point>, intersect: Intersector, p: Point) {
    exists j :: UniqueCrossingAt(ray, closed, intersect, j, p)
  }

  /** `i` is the first index among the points nearest to `p`: no point is
      strictly nearer and every earlier point is strictly farther. */
  ghost predicate IsFirstNearest(p: Point, pts: seq<Point>, i: int) {
    && 0 <= i < |pts|
    && (forall j :: 0 <= j < |pts| ==> Dist2(p, pts[i]) <= Dist2(p, pts[j]))
    && (forall j :: 0 <= j < i ==> Dist2(p, pts[j]) > Dist2(p, pts[i]))
  }

  /** The indices, in increasing order, of the first `k` edges of the loop
      that the ray crosses: the intersections that survive the removal of
      undefined ones. */
  function DefinedEdges(ray: Segment, closed: seq<Point>, intersect: Intersector, k: nat): (js: seq<nat>)
    requires k <= |closed|
    ensures forall m :: 0 <= m < |js| ==> js[m] < k
    ensures forall m, m' :: 0 <= m < m' < |js| ==> js[m] < js[m']
    ensures forall j :: 0 <= j < k ==> (j in js <==> EdgeCrossing(ray, closed, intersect, j).Some?)
    decreases k
  {
    if k == 0 then []
    else
      var rest := DefinedEdges(ray, closed, intersect, k - 1);
      if EdgeCrossing(ray, closed, intersect, k - 1).Some? then rest + [k - 1] else rest
  }

  /** The first index, among the first `k` points, of a point nearest to
      `p` (an argmin that resolves ties towards the lower index). */
  function NearestIndex(p: Point, pts: seq<Point>, k: nat): (i: nat)
    requires 0 < k <= |pts|
    ensures i < k
    ensures forall j :: 0 <= j < k ==> Dist2(p, pts[i]) <= Dist2(p, pts[j])
    ensures forall j :: 0 <= j < i ==> Dist2(p, pts[j]) > Dist2(p, pts[i])
    decreases k
  {
    if k == 1 then 0
    else
      var i := NearestIndex(p, pts, k - 1);
      if Dist2(p, pts[k - 1]) < Dist2(p, pts[i]) then k - 1 else i
  }

  /** There is only one first nearest index. */
  lemma FirstNearestUnique(p: Point, pts: seq<Point>, i: int, i': int)
    requires IsFirstNearest(p, pts, i) && IsFirstNearest(p, pts, i')
    ensures i == i'
  {
    assert Dist2(p, pts[i]) == Dist2(p, pts[i']);
  }

  /** On the closed locus the repeated first sample never wins a tie against
      the original, so the nearest index is always a valid sample index. */
  lemma FirstNearestOnClosedLocus(p: Point, locus: seq<Point>, i: int)
    requires |locus| > 0
    requires IsFirstNearest(p, Close(locus), i)
    ensures 0 <= i < |locus|
  {
    assert Dist2(p, Close(locus)[0]) == Dist2(p, Close(locus)[|locus|]);
  }

  /** No kept crossing means the ray crosses no edge. */
  lemma NoDefinedEdge(ray: Segment, closed: seq<Point>, intersect: Intersector)
    requires |DefinedEdges(ray, closed, intersect, |closed|)| == 0
    ensures NoCrossing(ray, closed, intersect)
    ensures !SeveralCrossings(ray, closed, intersect)
  {
    var js := DefinedEdges(ray, closed, intersect, |closed|);
    forall j | 0 <= j < |closed| ensures EdgeCrossing(ray, closed, intersect, j).None? {
      assert j !in js;
    }
  }

  /** Two or more kept crossings mean the ray crosses several edges. */
  lemma SeveralDefinedEdges(ray: Segment, closed: seq<Point>, intersect: Intersector)
    requires |DefinedEdges(ray, closed, intersect, |closed|)| > 1
    ensures SeveralCrossings(ray, closed, intersect)
    ensures !NoCrossing(ray, closed, intersect)
  {
    var js := DefinedEdges(ray, closed, intersect, |closed|);
    assert js[0] in js && js[1] in js;
    assert CrossesEdge(ray, closed, intersect, js[0]) && CrossesEdge(ray, closed, intersect, js[1]);
  }

  /** One kept crossing means the ray crosses that edge and no other. */
  lemma OneDefinedEdge(ray: Segment, closed: seq<Point>, intersect: Intersector)
    requires |DefinedEdges(ray, closed, intersect, |closed|)| == 1
    ensures var j := DefinedEdges(ray, closed, intersect, |closed|)[0];
      && j < |closed|
      && EdgeCrossing(ray, closed, intersect, j).Some?
      && UniqueCrossingAt(ray, closed, intersect, j, EdgeCrossing(ray, closed, intersect, j).value)
    ensures !NoCrossing(ray, closed, intersect)
    ensures !SeveralCrossings(ray, closed, intersect)
  {
    var js := DefinedEdges(ray, closed, intersect, |closed|);
    var j := js[0];
    assert j in js;
    forall k | 0 <= k < |closed| && k != j ensures EdgeCrossing(ray, closed, intersect, k).None? {
      assert k !in js;
    }
  }

  /** The search for the locus sample nearest to where the search ray
      crosses the closed locus. It succeeds exactly when the ray crosses one
      edge; it reports no intersection when the ray crosses none, and a
      reshape failure when it crosses several. */
  function ClosestSpectralLocusWavelength(
    xy: Point, xyN: Point, locus: seq<Point>, reverse: bool,
    extend: Extender, intersect: Intersector): (r: Result<Crossing, LocusError>)
    requires |locus| > 0
    ensures var ray := SearchRay(xy, xyN, reverse, extend);
      NoCrossing(ray, Close(locus), intersect) <==> r == Failure(NoIntersection(xy, xyN))
    ensures r.Failure? && r.error.NoIntersection? ==> r.error == NoIntersection(xy, xyN)
    ensures var ray := SearchRay(xy, xyN, reverse, extend);
      SeveralCrossings(ray, Close(locus), intersect) <==> r.Failure? && r.error.ReshapeFailure?
    ensures r.Success? ==>
      && UniqueCrossing(SearchRay(xy, xyN, reverse, extend), Close(locus), intersect, r.value.point)
      && IsFirstNearest(r.value.point, Close(locus), r.value.index)
      && r.value.index < |locus|
  {
    var ray := SearchRay(xy, xyN, reverse, extend);
    var closed := Close(locus);
    var js := DefinedEdges(ray, closed, intersect, |closed|);
    if |js| == 0 then
      NoDefinedEdge(ray, closed, intersect);
      Failure(NoIntersection(xy, xyN))
    else if |js| > 1 then
      SeveralDefinedEdges(ray, closed, intersect);
      Failure(ReshapeFailure(|js|))
    else
      OneDefinedEdge(ray, closed, intersect);
      var p := EdgeCrossing(ray, closed, intersect, js[0]).value;
      var i := NearestIndex(p, closed, |closed|);
      FirstNearestOnClosedLocus(p, locus, i);
      Success(Crossing(i, p))
  }

  /** A ray that crosses the closed locus exactly once, at `p`, makes the
      search succeed with `p` as its crossing point. */
  lemma SearchSucceedsOnUniqueCrossing(
    xy: Point, xyN: Point, locus: seq<Point>, reverse: bool,
    extend: Extender, intersect: Intersector, p: Point)
    requires |locus| > 0
    requires UniqueCrossing(SearchRay(xy, xyN, reverse, extend), Close(locus), intersect, p)
    ensures ClosestSpectralLocusWavelength(xy, xyN, locus, reverse, extend, intersect).Success?
    ensures ClosestSpectralLocusWavelength(xy, xyN, locus, reverse, extend, intersect).value.point == p
  {
  }

  /** When the intersection primitive reports only points on both segments
      for the search ray and every edge of the loop, the point the search
      returns lies on the search ray and on an edge of the loop. */
  lemma SearchPointOnSegments(
    xy: Point, xyN: Point, locus: seq<Point>, reverse: bool,
    extend: Extender, intersect: Intersector)
    requires |locus| > 0
    requires forall j :: 0 <= j < |locus| + 1 ==>
      SoundOn(intersect, SearchRay(xy, xyN, reverse, extend), Edge(Close(locus), j))
    requires ClosestSpectralLocusWavelength(xy, xyN, locus, reverse, extend, intersect).Success?
    ensures var p := ClosestSpectralLocusWavelength(xy, xyN, locus, reverse, extend, intersect).value.point;
      && OnSegment(p, SearchRay(xy, xyN, reverse, extend))
      && exists j :: 0 <= j < |locus| + 1 && OnSegment(p, Edge(Close(locus), j))
  {
    var ray := SearchRay(xy, xyN, reverse, extend);
    var closed := Close(locus);
    var p := ClosestSpectralLocusWavelength(xy, xyN, locus, reverse, extend, intersect).value.point;
    var j :| UniqueCrossingAt(ray, closed, intersect, j, p);
    assert SoundOn(intersect, ray, Edge(closed, j));
  }
}
