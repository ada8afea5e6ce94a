/** Excitation purity and colorimetric purity of a colour stimulus
    (`excitation_purity`, `colorimetric_purity`). Both are ratios of
    Euclidean distances, so they are square roots of quotients of the
    coordinates; they are kept exactly as a sign and a squared quotient. */
module Purity {
  import opened Wrappers
  import opened Geometry
  import opened SpectralLocus
  import opened Dominant
  import opened Radicals

  /** Why a purity could not be computed. */
  datatype PurityError =
    /** The dominant-wavelength search failed. */
    | SearchFailed(cause: LocusError)
    /** A division by zero, where floating-point arithmetic yields an
        infinity or NaN instead of a number. */
    | NonFinite

  /** The excitation purity: the distance from the achromatic stimulus to
      the colour stimulus divided by the distance from the achromatic
      stimulus to the first intersection of the dominant-wavelength search.
      The division by a zero distance is reported as non-finite. */
  function ExcitationPurity(
    xy: Point, xyN: Point, locus: seq<Point>, wavelengths: seq<real>,
    extend: Extender, intersect: Intersector): (r: Result<Radical, PurityError>)
    requires |locus| > 0 && |wavelengths| == |locus|
    ensures var d := DominantWavelength(xy, xyN, locus, wavelengths, false, extend, intersect);
      && (d.Failure? ==> r == Failure(SearchFailed(d.error)))
      && (d.Success? ==> (r.Failure? <==> Dist2(xyN, d.value.first) == 0.0))
      && (d.Success? && r.Failure? ==> r.error == NonFinite)
    ensures r.Success? ==> r.value.den > 0.0
  {
    var d := DominantWavelength(xy, xyN, locus, wavelengths, false, extend, intersect);
    if d.Failure? then Failure(SearchFailed(d.error))
    else
      var toLocus := Dist2(xyN, d.value.first);
      if toLocus == 0.0 then Failure(NonFinite)
      else Success(Radical(false, Dist2(xyN, xy), toLocus))
  }

  /** The excitation purity stands for the ratio `pe` of any distance `dn`
      from the achromatic stimulus to the colour stimulus and the distance
      `dw` from the achromatic stimulus to the first intersection
      (`pe * dw == dn`): its square is the ratio of the squared distances and
      it is non-negative. */
  lemma ExcitationPurityIsDistanceRatio(
    xy: Point, xyN: Point, locus: seq<Point>, wavelengths: seq<real>,
    extend: Extender, intersect: Intersector, dn: real, dw: real, pe: real)
    requires |locus| > 0 && |wavelengths| == |locus|
    requires ExcitationPurity(xy, xyN, locus, wavelengths, extend, intersect).Success?
    requires dn >= 0.0 && dn * dn == Dist2(xyN, xy)
    requires dw >= 0.0 &&
      dw * dw == Dist2(xyN, DominantWavelength(xy, xyN, locus, wavelengths, false, extend, intersect).value.first)
    requires pe * dw == dn
    ensures Denotes(ExcitationPurity(xy, xyN, locus, wavelengths, extend, intersect).value, pe)
  {
    var first := DominantWavelength(xy, xyN, locus, wavelengths, false, extend, intersect).value.first;
    var r := ExcitationPurity(xy, xyN, locus, wavelengths, extend, intersect).value;
    assert r == Radical(false, dn * dn, dw * dw);
    RatioDenotes(dn, dw, pe);
  }

  /** The colorimetric purity: the excitation purity times the `y`
      coordinate of the first intersection divided by the `y` coordinate of
      the colour stimulus. A zero `y` is reported as non-finite. */
  function ColorimetricPurity(
    xy: Point, xyN: Point, locus: seq<Point>, wavelengths: seq<real>,
    extend: Extender, intersect: Intersector): (r: Result<Radical, PurityError>)
    requires |locus| > 0 && |wavelengths| == |locus|
    ensures var pe := ExcitationPurity(xy, xyN, locus, wavelengths, extend, intersect);
      && (pe.Failure? ==> r == Failure(pe.error))
      && (pe.Success? ==> (r.Failure? <==> xy.y == 0.0))
      && (pe.Success? && r.Failure? ==> r.error == NonFinite)
  {
    ScaledPurity(
      DominantWavelength(xy, xyN, locus, wavelengths, false, extend, intersect),
      ExcitationPurity(xy, xyN, locus, wavelengths, extend, intersect),
      xy.y)
  }

  /** The last step of the colorimetric purity, given the dominant-wavelength
      result `d`, the excitation purity `pe` and the `y` coordinate of the
      colour stimulus: a failed search or excitation purity is passed on, and
      otherwise the excitation purity is scaled by `y_wl / y`. */
  function ScaledPurity(
    d: Result<DominantResult, LocusError>, pe: Result<Radical, PurityError>, y: real): Result<Radical, PurityError>
  {
    if d.Failure? then Failure(SearchFailed(d.error))
    else if pe.Failure? then Failure(pe.error)
    else if y == 0.0 then Failure(NonFinite)
    else Success(ScaleRadical(pe.value, d.value.first.y, y))
  }

  /** A successful scaled purity stands for `pe * y_wl / y` whenever the
      excitation purity stands for `pe`. */
  lemma ScaledPurityDenotes(
    d: Result<DominantResult, LocusError>, e: Result<Radical, PurityError>, y: real, pe: real, pc: real)
    requires ScaledPurity(d, e, y).Success?
    requires Denotes(e.value, pe)
    requires ScaledBy(pc, y, pe, d.value.first.y)
    ensures Denotes(ScaledPurity(d, e, y).value, pc)
  {
    ScaleRadicalDenotes(e.value, pe, d.value.first.y, y, pc);
  }

  /** Colorimetric purity is excitation purity times `y_wl / y`, where `y_wl`
      is the `y` coordinate of the first intersection and `y` that of the
      colour stimulus: if the excitation purity stands for `pe`, then the
      colorimetric purity stands for the `pc` with `pc * y == pe * y_wl`. */
  lemma ColorimetricPurityIsScaled(
    xy: Point, xyN: Point, locus: seq<Point>, wavelengths: seq<real>,
    extend: Extender, intersect: Intersector, pe: real, pc: real)
    requires |locus| > 0 && |wavelengths| == |locus|
    requires ColorimetricPurity(xy, xyN, locus, wavelengths, extend, intersect).Success?
    requires Denotes(ExcitationPurity(xy, xyN, locus, wavelengths, extend, intersect).value, pe)
    requires pc * xy.y == pe * DominantWavelength(xy, xyN, locus, wavelengths, false, extend, intersect).value.first.y
    ensures Denotes(ColorimetricPurity(xy, xyN, locus, wavelengths, extend, intersect).value, pc)
  {
    assert ScaledBy(pc, xy.y, pe, DominantWavelength(xy, xyN, locus, wavelengths, false, extend, intersect).value.first.y);
    ScaledPurityDenotes(
      DominantWavelength(xy, xyN, locus, wavelengths, false, extend, intersect),
      ExcitationPurity(xy, xyN, locus, wavelengths, extend, intersect),
      xy.y, pe, pc);
  }
}
