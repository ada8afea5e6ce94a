/** Dominant and complementary wavelength of a colour stimulus
    (`dominant_wavelength`, `complementary_wavelength`), following section
    9.1 "Dominant wavelength and purity" of CIE 015:2004 Colorimetry. */
module Dominant {
  import opened Wrappers
  import opened Geometry
  import opened SpectralLocus
  import opened Batch

  /** The signed wavelength, the first intersection (where the search ray
      crosses the locus) and the second intersection (where the opposite ray
      crosses it, when that one is used). A negative wavelength marks a
      substitution from the opposite direction. */
  datatype DominantResult = DominantResult(wavelength: real, first: Point, second: Point)

  /** The search ray crosses the line of purples. */
  function CrossesLineOfPurples(
    xy: Point, xyN: Point, locus: seq<Point>, reverse: bool,
    extend: Extender, intersect: Intersector): (b: bool)
    requires |locus| > 0
    ensures b <==> CrossesEdge(SearchRay(xy, xyN, reverse, extend), Close(locus), intersect, |locus|)
  {
    ClosedLocusEdges(locus);
    intersect(SearchRay(xy, xyN, reverse, extend), LineOfPurples(locus)).Some?
  }

  /** The dominant wavelength of `xy` seen from the achromatic stimulus
      `xyN` (the complementary wavelength when `reverse`), for a locus whose
      samples have the given wavelengths. Both the search in the requested
      direction and the one in the opposite direction must succeed; the
      opposite one supplies the negated wavelength and the second
      intersection when the requested ray crosses the line of purples. */
  function DominantWavelength(
    xy: Point, xyN: Point, locus: seq<Point>, wavelengths: seq<real>, reverse: bool,
    extend: Extender, intersect: Intersector): (r: Result<DominantResult, LocusError>)
    requires |locus| > 0 && |wavelengths| == |locus|
    ensures var fwd := ClosestSpectralLocusWavelength(xy, xyN, locus, reverse, extend, intersect);
            var back := ClosestSpectralLocusWavelength(xy, xyN, locus, !reverse, extend, intersect);
      && (r.Success? <==> fwd.Success? && back.Success?)
      && (fwd.Failure? ==> r == Failure(fwd.error))
      && (fwd.Success? && back.Failure? ==> r == Failure(back.error))
    ensures r.Success? ==>
      && UniqueCrossing(SearchRay(xy, xyN, reverse, extend), Close(locus), intersect, r.value.first)
      && (!CrossesLineOfPurples(xy, xyN, locus, reverse, extend, intersect) ==> r.value.second == r.value.first)
      && (CrossesLineOfPurples(xy, xyN, locus, reverse, extend, intersect) ==>
            UniqueCrossing(SearchRay(xy, xyN, !reverse, extend), Close(locus), intersect, r.value.second))
  {
    var fwd := ClosestSpectralLocusWavelength(xy, xyN, locus, reverse, extend, intersect);
    if fwd.Failure? then Failure(fwd.error)
    else
      var back := ClosestSpectralLocusWavelength(xy, xyN, locus, !reverse, extend, intersect);
      if back.Failure? then Failure(back.error)
      else if CrossesLineOfPurples(xy, xyN, locus, reverse, extend, intersect) then
        Success(DominantResult(-wavelengths[back.value.index], fwd.value.point, back.value.point))
      else
        Success(DominantResult(wavelengths[fwd.value.index], fwd.value.point, fwd.value.point))
  }

  /** When the search ray does not cross the line of purples, the
      wavelength is that of the locus sample nearest to the first
      intersection (the first such sample on a tie). */
  lemma DominantWavelengthUnsubstituted(
    xy: Point, xyN: Point, locus: seq<Point>, wavelengths: seq<real>, reverse: bool,
    extend: Extender, intersect: Intersector)
    requires |locus| > 0 && |wavelengths| == |locus|
    requires DominantWavelength(xy, xyN, locus, wavelengths, reverse, extend, intersect).Success?
    requires !CrossesLineOfPurples(xy, xyN, locus, reverse, extend, intersect)
    ensures var d := DominantWavelength(xy, xyN, locus, wavelengths, reverse, extend, intersect).value;
      exists i :: IsFirstNearest(d.first, Close(locus), i) && i < |locus| && d.wavelength == wavelengths[i]
  {
    var fwd := ClosestSpectralLocusWavelength(xy, xyN, locus, reverse, extend, intersect);
    assert IsFirstNearest(fwd.value.point, Close(locus), fwd.value.index);
  }

  /** When the search ray crosses the line of purples, the wavelength is the
      negated wavelength of the locus sample nearest to the second
      intersection, where the opposite ray crosses the locus. */
  lemma DominantWavelengthSubstituted(
    xy: Point, xyN: Point, locus: seq<Point>, wavelengths: seq<real>, reverse: bool,
    extend: Extender, intersect: Intersector)
    requires |locus| > 0 && |wavelengths| == |locus|
    requires DominantWavelength(xy, xyN, locus, wavelengths, reverse, extend, intersect).Success?
    requires CrossesLineOfPurples(xy, xyN, locus, reverse, extend, intersect)
    ensures var d := DominantWavelength(xy, xyN, locus, wavelengths, reverse, extend, intersect).value;
      exists i :: IsFirstNearest(d.second, Close(locus), i) && i < |locus| && d.wavelength == -wavelengths[i]
  {
    var back := ClosestSpectralLocusWavelength(xy, xyN, locus, !reverse, extend, intersect);
    assert IsFirstNearest(back.value.point, Close(locus), back.value.index);
  }

  /** The complementary wavelength is the dominant wavelength searched in
      the reverse direction. */
  function ComplementaryWavelength(
    xy: Point, xyN: Point, locus: seq<Point>, wavelengths: seq<real>,
    extend: Extender, intersect: Intersector): (r: Result<DominantResult, LocusError>)
    requires |locus| > 0 && |wavelengths| == |locus|
    ensures r == DominantWavelength(xy, xyN, locus, wavelengths, true, extend, intersect)
  {
    DominantWavelength(xy, xyN, locus, wavelengths, true, extend, intersect)
  }

  /** With positive sample wavelengths, the result is negative exactly when
      the search ray crosses the line of purples and the opposite direction's
      wavelength was substituted. */
  lemma NegativeIffLineOfPurples(
    xy: Point, xyN: Point, locus: seq<Point>, wavelengths: seq<real>, reverse: bool,
    extend: Extender, intersect: Intersector)
    requires |locus| > 0 && |wavelengths| == |locus|
    requires forall i :: 0 <= i < |wavelengths| ==> wavelengths[i] > 0.0
    requires DominantWavelength(xy, xyN, locus, wavelengths, reverse, extend, intersect).Success?
    ensures DominantWavelength(xy, xyN, locus, wavelengths, reverse, extend, intersect).value.wavelength < 0.0
      <==> CrossesLineOfPurples(xy, xyN, locus, reverse, extend, intersect)
  {
    if CrossesLineOfPurples(xy, xyN, locus, reverse, extend, intersect) {
      DominantWavelengthSubstituted(xy, xyN, locus, wavelengths, reverse, extend, intersect);
    } else {
      DominantWavelengthUnsubstituted(xy, xyN, locus, wavelengths, reverse, extend, intersect);
    }
  }

  /** When the search ray crosses the line of purples, the first
      intersection is the crossing with the line of purples; otherwise it is
      the crossing with a spectral edge (or the degenerate edge at the first
      sample), never with the line of purples. */
  lemma FirstIntersectionEdge(
    xy: Point, xyN: Point, locus: seq<Point>, wavelengths: seq<real>, reverse: bool,
    extend: Extender, intersect: Intersector)
    requires |locus| > 0 && |wavelengths| == |locus|
    requires DominantWavelength(xy, xyN, locus, wavelengths, reverse, extend, intersect).Success?
    ensures var ray := SearchRay(xy, xyN, reverse, extend);
            var first := DominantWavelength(xy, xyN, locus, wavelengths, reverse, extend, intersect).value.first;
      && (CrossesLineOfPurples(xy, xyN, locus, reverse, extend, intersect) ==>
            intersect(ray, LineOfPurples(locus)) == Some(first))
      && (!CrossesLineOfPurples(xy, xyN, locus, reverse, extend, intersect) ==>
            exists j :: 0 <= j < |locus| && EdgeCrossing(ray, Close(locus), intersect, j) == Some(first))
  {
    var ray := SearchRay(xy, xyN, reverse, extend);
    var closed := Close(locus);
    var first := DominantWavelength(xy, xyN, locus, wavelengths, reverse, extend, intersect).value.first;
    ClosedLocusEdges(locus);
    var j :| UniqueCrossingAt(ray, closed, intersect, j, first);
    if CrossesLineOfPurples(xy, xyN, locus, reverse, extend, intersect) {
      assert EdgeCrossing(ray, closed, intersect, |locus|).Some?;
      assert j == |locus|;
    } else {
      assert j != |locus|;
      assert 0 <= j < |locus| && EdgeCrossing(ray, closed, intersect, j) == Some(first);
    }
  }

  /** The two directions mirror each other: when the dominant search crosses
      the line of purples and the complementary one does not, the dominant
      result is the negated complementary wavelength with the complementary
      first intersection as its second intersection (and symmetrically). */
  lemma DominantComplementaryDuality(
    xy: Point, xyN: Point, locus: seq<Point>, wavelengths: seq<real>,
    extend: Extender, intersect: Intersector)
    requires |locus| > 0 && |wavelengths| == |locus|
    ensures DominantWavelength(xy, xyN, locus, wavelengths, false, extend, intersect).Success?
      <==> ComplementaryWavelength(xy, xyN, locus, wavelengths, extend, intersect).Success?
    ensures var d := DominantWavelength(xy, xyN, locus, wavelengths, false, extend, intersect);
            var c := ComplementaryWavelength(xy, xyN, locus, wavelengths, extend, intersect);
            var dPurple := CrossesLineOfPurples(xy, xyN, locus, false, extend, intersect);
            var cPurple := CrossesLineOfPurples(xy, xyN, locus, true, extend, intersect);
      d.Success? && dPurple != cPurple ==>
        && d.value.wavelength == -c.value.wavelength
        && (dPurple ==> d.value.second == c.value.first && c.value.second == c.value.first)
        && (cPurple ==> c.value.second == d.value.first && d.value.second == d.value.first)
  {
    var d := DominantWavelength(xy, xyN, locus, wavelengths, false, extend, intersect);
    var c := ComplementaryWavelength(xy, xyN, locus, wavelengths, extend, intersect);
    if d.Success? {
      assert c.Success?;
      var closed := Close(locus);
      var fwd := ClosestSpectralLocusWavelength(xy, xyN, locus, false, extend, intersect);
      var back := ClosestSpectralLocusWavelength(xy, xyN, locus, true, extend, intersect);
      assert fwd.Success? && back.Success?;
    }
  }

  /** The dominant wavelengths of a batch of colour stimuli against one
      achromatic stimulus: the single-stimulus computation mapped over the
      batch, failing as a whole when any element fails. */
  function DominantWavelengthBatch(
    xys: seq<Point>, xyN: Point, locus: seq<Point>, wavelengths: seq<real>, reverse: bool,
    extend: Extender, intersect: Intersector): (r: Result<seq<DominantResult>, LocusError>)
    requires |locus| > 0 && |wavelengths| == |locus|
    ensures r.Success? ==>
      && |r.value| == |xys|
      && forall k :: 0 <= k < |xys| ==>
           DominantWavelength(xys[k], xyN, locus, wavelengths, reverse, extend, intersect) == Success(r.value[k])
    ensures r.Failure? ==>
      exists k :: 0 <= k < |xys|
        && DominantWavelength(xys[k], xyN, locus, wavelengths, reverse, extend, intersect) == Failure(r.error)
        && forall k' :: 0 <= k' < k ==> DominantWavelength(xys[k'], xyN, locus, wavelengths, reverse, extend, intersect).Success?
  {
    MapAll(xys, xy => DominantWavelength(xy, xyN, locus, wavelengths, reverse, extend, intersect))
  }
}
