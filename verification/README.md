# Dominant wavelength and purity

A Dafny model of `colour/colorimetry/dominant.py` from the Colour science
library, which follows section 9.1 "Dominant wavelength and purity" of
CIE 015:2004 Colorimetry. The module computes four things for a colour
stimulus `xy` seen from an achromatic stimulus `xy_n`:

- the dominant wavelength;
- the complementary wavelength;
- the excitation purity;
- the colorimetric purity.

All four rest on one search, `closest_spectral_locus_wavelength`:

1. Close the horseshoe-shaped spectral locus into a loop.
2. Pair every sample with its predecessor to form edges. The last edge is the line of purples.
3. Intersect the ray from `xy_n` through `xy` with every edge.
4. Keep the crossings that are defined.
5. Take the locus sample nearest to the crossing. Ties go to the first index.

The model works on one stimulus at a time, over exact reals. It is split into these modules:

- `Wrappers`: `Option` and `Result`.
- `Geometry`: points, segments and vector arithmetic. It also defines the two segment primitives the source imports, `extend_line_segment` and `intersect_line_segments`, as function-typed parameters (`Extender`, `Intersector`). An undefined intersection (the source's NaN row) is `None`.
- `SpectralLocus`: closing the locus, its edges, the search ray, the filtering of crossings, the first-argmin, and `ClosestSpectralLocusWavelength`.
  - The search fails with `NoIntersection` when no edge is crossed. This is the source's explicit `ValueError`.
  - It fails with `ReshapeFailure` when two or more edges are crossed. Then the reshape to a single result fails.
- `Dominant`: `DominantWavelength`, `ComplementaryWavelength` and the batch form.
- `Batch`: a generic all-or-nothing map.
- `ExactIntersection`: one concrete segment intersection over the reals, proved sound. It is a stand-in for the library's primitive, used only by the worked cases.
- `Scenarios`: worked cases on a small triangular locus. They mirror the shape of the source's examples: one stimulus whose ray crosses a spectral edge and whose opposite ray crosses the line of purples.
- `Radicals` and `Purity`: the two purities. A purity is a ratio of Euclidean distances. It is kept without a square root as a `Radical(negative, num, den)`, which stands for the real `v` with `v * v * den == num` and the given sign.

The source computes the search in the opposite direction (line 200) unconditionally. The model does the same. So a stimulus whose opposite search fails gives no result, even when the requested direction does not cross the line of purples. The error of the requested direction is reported first.

## Model

| member | source | states |
|---|---|---|
| SpectralLocus.Close | colour/colorimetry/dominant.py:99-100 | the closed locus has one point more than the locus, keeps every sample in place and ends with the first sample again |
| SpectralLocus.ClosedLocusEdges | colour/colorimetry/dominant.py:100-104 | pairing the closed locus with itself rolled by one gives the degenerate edge (s0, s0) first, then (s_i, s_(i-1)) for every later sample, and last the line of purples (s0, s_(n-1)) |
| SpectralLocus.Predecessor | colour/colorimetry/dominant.py:104 | rolling the closed locus by one place puts at position `i` the point at `(i - 1) mod n`, an index that is always in range |
| SpectralLocus.SearchRay | colour/colorimetry/dominant.py:96-103 | the searched segment always starts at the achromatic stimulus |
| SpectralLocus.SearchRayDirection | colour/colorimetry/dominant.py:96-97 | given an extension that really extends, the forward ray runs along the line from the achromatic stimulus towards the colour stimulus, and the reverse ray runs along the same line away from it |
| SpectralLocus.DefinedEdges | colour/colorimetry/dominant.py:102-105 | the kept crossings are, in increasing order, exactly the edges whose intersection is defined |
| SpectralLocus.SeveralDefinedEdges | colour/colorimetry/dominant.py:105-115 | when more than one crossing survives the filter, the ray crosses at least two distinct edges, which is the case where the reshape to one result fails |
| SpectralLocus.NearestIndex | colour/colorimetry/dominant.py:112 | the argmin is in range, no point is strictly nearer, and every earlier point is strictly farther (ties go to the first index) |
| SpectralLocus.FirstNearestUnique | colour/colorimetry/dominant.py:112 | the first nearest index is unique |
| SpectralLocus.FirstNearestOnClosedLocus | colour/colorimetry/dominant.py:100-112 | because the repeated first sample never wins a tie against the original, the nearest index on the closed locus is always a valid sample index |
| SpectralLocus.ClosestSpectralLocusWavelength | colour/colorimetry/dominant.py:92-117 | the search reports no intersection exactly when no edge is crossed, and a reshape failure exactly when several are crossed; a no-intersection error always names the searched colour and achromatic stimuli; on success the ray crosses exactly one edge at the returned point, the index is the first nearest sample to it, and the index is below the locus length |
| SpectralLocus.SearchSucceedsOnUniqueCrossing | colour/colorimetry/dominant.py:102-117 | when the search ray crosses exactly one edge of the closed locus, the search succeeds and returns that crossing point |
| SpectralLocus.SearchPointOnSegments | colour/colorimetry/dominant.py:102-105 | when the primitive reports only points on both segments for the ray and every edge, the point a successful search returns lies on the search ray and on an edge of the closed locus |
| Dominant.CrossesLineOfPurples | colour/colorimetry/dominant.py:193-198 | the purple test is the same as the search ray crossing the last edge of the closed locus |
| Dominant.DominantWavelength | colour/colorimetry/dominant.py:184-207 | the result exists exactly when both the requested and the opposite search succeed, and otherwise carries the requested search's error first; the first intersection is the one crossing of the requested ray; the second intersection equals the first without a purple crossing, and is the opposite ray's one crossing with it |
| Dominant.DominantWavelengthUnsubstituted | colour/colorimetry/dominant.py:189-191 | without a purple crossing, the wavelength is that of the first nearest sample to the first intersection |
| Dominant.DominantWavelengthSubstituted | colour/colorimetry/dominant.py:200-205 | with a purple crossing, the wavelength is the negated wavelength of the first nearest sample to the second intersection |
| Dominant.NegativeIffLineOfPurples | colour/colorimetry/dominant.py:200-205 | with positive sample wavelengths, the result is negative exactly when the ray crosses the line of purples |
| Dominant.FirstIntersectionEdge | colour/colorimetry/dominant.py:189-198 | in the substituted case the first intersection is the point the primitive reports for the line of purples; otherwise it is the point reported for a spectral edge (or the degenerate edge) |
| Dominant.ComplementaryWavelength | colour/colorimetry/dominant.py:270 | the complementary wavelength is the dominant wavelength searched in reverse |
| Dominant.DominantComplementaryDuality | colour/colorimetry/dominant.py:200-205 | the dominant and complementary searches succeed together; when exactly one crosses the line of purples, their wavelengths are opposite, and the substituted side's second intersection is the other side's first |
| Dominant.DominantWavelengthBatch | colour/colorimetry/dominant.py:184-207 | a batch succeeds when every stimulus does, with the per-stimulus results in order; otherwise it fails with the error of the first failing stimulus |
| Geometry.Dist2 | colour/colorimetry/dominant.py:112 | the squared Euclidean distance, which has the same nearest sample as the Euclidean distance of `cdist`, is non-negative |
| Batch.MapAll | colour/colorimetry/dominant.py:184-207 | the element-wise map succeeds with one result per element, the k-th being the computation on the k-th element; otherwise it fails with the error of the first failing element, every earlier element having succeeded |
| Purity.ExcitationPurity | colour/colorimetry/dominant.py:303-305 | excitation purity propagates the search error; it fails as non-finite exactly when the squared distance from the achromatic stimulus to the first intersection is zero; otherwise its denominator is positive |
| Purity.ExcitationPurityIsDistanceRatio | colour/colorimetry/dominant.py:305 | for distances `dn` (achromatic to stimulus) and `dw` (achromatic to first intersection), the excitation purity stands for `dn / dw`: its square is the ratio of the squared distances and it is non-negative |
| Radicals.RatioDenotes | colour/colorimetry/dominant.py:305 | a ratio `q = n / d` of non-negative reals is what the radical `(n * n) / (d * d)` stands for |
| Purity.ColorimetricPurity | colour/colorimetry/dominant.py:342-345 | colorimetric purity propagates the excitation purity error and fails as non-finite exactly when the stimulus has `y == 0` |
| Purity.ColorimetricPurityIsScaled | colour/colorimetry/dominant.py:342-345 | `P_c = P_e * y_wl / y`: if the excitation purity stands for the real `pe`, a successful colorimetric purity stands for every `pc` with `pc * y == pe * y_wl`, where `y_wl` is the `y` of the first intersection and `y` that of the stimulus |
| Purity.ScaledPurityDenotes | colour/colorimetry/dominant.py:345 | the final scaling step, on any search result and excitation purity: when the excitation purity stands for `pe`, the scaled result stands for `pe * y_wl / y` |
| Radicals.ScaleRadicalDenotes | colour/colorimetry/dominant.py:345 | scaling a radical that stands for `v` by `a / b` gives a radical that stands for `v * a / b`, sign included |
| ExactIntersection.Intersect | colour/colorimetry/dominant.py:104-106 | a concrete intersection for the search: it reports a point only for segments that are not parallel |
| ExactIntersection.IntersectSound | colour/colorimetry/dominant.py:104-106 | whatever the concrete intersection reports lies on both segments, which is the soundness `SpectralLocus.SearchPointOnSegments` asks of the primitive |
| ExactIntersection.UnitRatioQuotient | colour/colorimetry/dominant.py:104-106 | the division-free test used by the concrete intersection accepts exactly the quotients in [0, 1], the segment parameters of points on a segment |
| ExactIntersection.LineParameters | colour/colorimetry/dominant.py:104-106 | the two segment parameters solved by cross products give the same point on both lines |
| ExactIntersection.DegenerateMissed | colour/colorimetry/dominant.py:100-104 | the degenerate first edge of the closed locus, a single point, is never reported as crossed |
| Scenarios.StretchExtends | colour/colorimetry/dominant.py:96-97 | extending a segment to ten times its length past its end is an extension in the sense the search needs |
| Scenarios.StretchedSearchRayDirection | colour/colorimetry/dominant.py:96-97 | with the stretch as the extension, the search ray of two distinct stimuli lies on the line through them, towards the colour stimulus forward and away from it in reverse |
| Scenarios.ForwardSearch | colour/colorimetry/dominant.py:166-172 | on a triangular locus, the search towards a stimulus crosses one spectral edge; the crossing ties between the first sample and its repeated copy, and the tie goes to the first sample |
| Scenarios.ReverseSearch | colour/colorimetry/dominant.py:260-267 | the search away from the same stimulus crosses only the line of purples |
| Scenarios.DominantOnSpectralEdge | colour/colorimetry/dominant.py:166-172 | without a purple crossing the dominant wavelength is the wavelength of the nearest sample, with both intersections equal |
| Scenarios.ComplementaryThroughLineOfPurples | colour/colorimetry/dominant.py:260-267 | a complementary search that crosses the line of purples gives the negated wavelength of the opposite crossing, which is the second intersection |
| Scenarios.AchromaticStimulusFails | colour/colorimetry/dominant.py:96-110 | when the colour stimulus equals the achromatic stimulus, then with the stand-in extension and intersection the search ray is a single point, no edge is crossed, and the search raises its no-intersection error |
| Scenarios.ExactSearchOnSegments | colour/colorimetry/dominant.py:102-105 | with the exact intersection, the point a successful search returns lies on the search ray and on an edge of the closed locus |
| Scenarios.StimulusExcitationPurity | colour/colorimetry/dominant.py:296-305 | a stimulus a third of the way to its first intersection has excitation purity 1/3 |
| Scenarios.StimulusColorimetricPurity | colour/colorimetry/dominant.py:333-345 | the same stimulus has colorimetric purity 1/3 times 0.4 / 0.3, which is 4/9 |

## Left out

- CMFS and `XYZ_to_xy` (lines 37-38, 187): the colour matching functions and their projection to chromaticity are outside the model. The locus samples and their wavelengths are inputs of equal, non-zero length; the source fails on an empty locus when it closes it (line 100), so the model requires a non-empty one.
- `extend_line_segment` and `intersect_line_segments` (lines 35-36): their implementations are not part of this model. They are parameters. `SearchRayDirection` states what an extension must deliver.
- ExactIntersection.Intersect: it is one exact intersection, not the library's `intersect_line_segments`. The model does not claim that the two agree, in particular on collinear overlapping segments, which it reports as not crossing.
- NumPy mechanics (lines 93, 105, 114-115, 185, 207): broadcasting, `np.resize`, `np.squeeze` and the NaN sentinel row are replaced by one stimulus at a time and an `Option` intersection.
- The purple test of `dominant_wavelength` (lines 195-197) reads the `.intersect` flag of `intersect_line_segments` for the line of purples. The search (lines 102-105) keeps the rows whose `.xy` is not NaN. The model takes both from one `Option` result, `intersect(ray, LineOfPurples).Some?`, so it assumes the flag is set exactly when the point is defined.
- Dominant.DominantWavelengthBatch: the source handles a batch by filtering the crossings of all stimuli together before reshaping. The model maps the single-stimulus computation over the batch, with one achromatic stimulus for the whole batch. The two agree when the batch is non-empty and every stimulus crosses exactly one edge in each direction. On an empty batch the source finds no crossing and raises its no-intersection error (lines 105-110), while the model succeeds with no results. Otherwise the source's reshape (line 114) checks only that the total number of crossings equals the batch size, so a batch where one stimulus crosses no edge and another crosses two gives misaligned results in the source and an error in the model.
- Square roots and floating point: the Euclidean distances are squared, and the purities are kept as radicals. A division by zero, which in floating point gives an infinity or NaN, is the `NonFinite` error.
- The numeric doctest values (lines 170, 179, 300, 337) depend on floating-point arithmetic and the observer data, so they are not stated.
- `colorimetric_purity` calls `dominant_wavelength` twice, once directly and once through `excitation_purity` (lines 342-343). Both calls compute the same value, so the model uses one.
- Geometry.Dist2: it states only that the squared distance is non-negative. It does not state that it is zero exactly for equal points.
- Purity.ColorimetricPurity: it does not state that the denominator of a successful result is positive.
- The coordinate transforms of `colour/algebra` are outside this model.
