# jsBezier nearest point, modelled in Dafny

This project models `jsplumb.JsBezier`, the Bezier-curve helper of the jsPlumb
connector library. Its job is to find the point of a Bezier curve that lies
nearest to a given point, for example to decide which connector the mouse is
over. The method is the nearest-point algorithm from Graphics Gems:

- `convertToBezier` turns `(B(t) - P) . B'(t)` into a polygon in Bezier form.
  Its x-coordinates are `k / (2n - 1)` and its heights are weighted sums of
  the products `3 (B[r+1] - B[r]) . (B[c] - P)`.
- `findRoots` finds the x-intercepts of that polygon's curve. It uses
  recursive De Casteljau subdivision at 1/2, helped by:
  - `getCrossingCount`, which counts the sign changes of the heights;
  - `isFlatEnough`, which checks that the interior points lie in a band
    around the chord whose width along the x-axis is below
    `FLATNESS_TOLERANCE = 2^-64`;
  - `computeXIntercept`, which returns where the chord crosses y = 0.
- `distanceFromCurve` starts from the first control point, at location 0.
  Each candidate parameter, evaluated with `bezier`, and then the last
  control point, at location 1, replace the best so far only when strictly
  nearer. It therefore reports the first location of least distance.
- `nearestPointOnCurve` returns the point of the curve at that location.

The project has six modules:

- `Wrappers` (wrappers.dfy): the `Option` type, for a result that may be
  missing.
- `Vectors` (vectors.dfy): points over exact reals, and the vector
  operations of `goog.math.Vec2` that are used.
- `DeCasteljau` (bezier.dfy): `bezier`, specified by the triangle of De
  Casteljau's recurrence. `Level(curve, t, i)` is row `i` and `Eval` is the
  apex. `LeftHalf` is the first column and `RightHalf` the anti-diagonal.
  They are proved to be the curve over [0, t] and over [t, 1]
  (`LeftHalfEval`, `RightHalfEval`).
- `RootFinder` (root_finder.dfy): `findRoots` and its three helpers, plus the
  two constants.
- `Projection` (projection.dfy): `convertToBezier`, specified by
  `Projected(point, curve)`.
- `Distance` (distance.dfy): `distanceFromCurve` and `nearestPointOnCurve`,
  specified by `CurveDistance`.

Code that fills arrays in loops is modelled as methods over Dafny arrays:
the triangle `temp` of `bezier`, `cdTable` and `w` of `convertToBezier`, and
the copy loops of `findRoots`. Each method's postcondition ties its result to
the specification function. The properties are proved about those functions.
The comparison loop at the end of `distanceFromCurve` is its own method,
`PickNearest`, which `DistanceFromCurve` calls once the roots are known.

Four results describe the source's behaviour beyond its happy path:

- `RootFinder.QuinticRootNeverFinishes`: over exact reals, `findRoots` never
  returns on a degree-5 polygon with heights `s (-1, 2, -4, 8, -16, 32)`.
  These are the Bezier coefficients of a multiple of `(t - 1/3)^5`. In IEEE
  arithmetic the heights shrink by 1024 every two levels until they
  underflow, so the source's run does end there.
- `Distance.CubicNeverFinishes`: such a polygon arises from a real call.
  For the point (0, 0) and the cubic (-1, 0), (2, 0), (-4, 0), (8, 0),
  `convertToBezier` builds that polygon with s = 9. Over exact reals,
  `distanceFromCurve` then never returns.
- `Distance.CoincidentRoots`: for a curve whose control points all coincide,
  every height of the polygon is 0. `getCrossingCount` counts the first
  point as negative and the others as positive, so it sees one crossing at
  every level. The chord is horizontal, so `isFlatEnough` never holds.
  `findRoots` therefore halves down to depth `MAX_RECURSION` and reports
  2^64 midpoints (`RootFinder.ZeroRootCount`). With fewer levels of fuel it
  reports nothing (`RootFinder.ZeroNeedsDepth64`). The zeros stay exact
  under halving, so this holds in IEEE arithmetic as well, and the number
  of roots is not bounded by the polygon's degree.
- `Distance.SegmentNearestIsOffCentre`: the weights of `convertToBezier` are
  those of a cubic. The comment of `distanceFromCurve` at
  `src/jsplumb/jsbezier.js:32-33` says the curve is assumed to be cubic.
  Take the segment from (1, 1) to (2, 2) and the point (1.5, 1.5), which lies
  on it at location 0.5. `distanceFromCurve` reports location 0.625 at
  squared distance 1/32 instead.

## Model

| member | source | states |
|---|---|---|
| DeCasteljau.Bezier | src/jsplumb/jsbezier.js:240-269 | returns the point of the curve at t, the apex of the triangle; when `left` is given it receives the first column of the triangle, the control points of the curve over [0, t] (LeftHalfEval); when `right` is given it receives the anti-diagonal, those of the curve over [t, 1] (RightHalfEval) |
| DeCasteljau.LeftHalfEval | src/jsplumb/jsbezier.js:257-261 | the left half is the curve over [0, t]: its point at s is the curve's point at t s |
| DeCasteljau.RightHalfEval | src/jsplumb/jsbezier.js:262-266 | the right half is the curve over [t, 1]: its point at s is the curve's point at t + (1 - t) s |
| DeCasteljau.EvalSplit | src/jsplumb/jsbezier.js:246-255 | the point at t interpolates, at t, the points of the curve without its last and without its first control point |
| DeCasteljau.LevelOfSlice | src/jsplumb/jsbezier.js:246-255 | row i of the triangle of a run of consecutive control points is the matching run of row i of the whole triangle |
| DeCasteljau.EvalOfMix | src/jsplumb/jsbezier.js:246-255 | evaluation is linear in the control points: the curve of interpolated control points is the interpolation of the two curves |
| DeCasteljau.FillTriangle | src/jsplumb/jsbezier.js:241-256 | the fresh table holds in cell (i, j) cell j of row i of De Casteljau's triangle: row 0 is the curve, each later cell interpolates two neighbours of the row above |
| DeCasteljau.FillRow | src/jsplumb/jsbezier.js:246-255 | one pass of the outer loop fills row i from row i - 1 and leaves every other row unchanged |
| DeCasteljau.LeftHalfAt | src/jsplumb/jsbezier.js:257-261 | control point j of the left half is the first cell of row j |
| DeCasteljau.RightHalfAt | src/jsplumb/jsbezier.js:262-266 | control point j of the right half is cell j of row degree - j |
| DeCasteljau.HalvesShareEndpoints | src/jsplumb/jsbezier.js:257-268 | the left half starts at the curve's first control point, the right half ends at its last, and both meet at the returned point |
| DeCasteljau.LevelAtZero | src/jsplumb/jsbezier.js:253-254 | at t = 0 every row of the triangle is a prefix of the curve |
| DeCasteljau.LevelAtOne | src/jsplumb/jsbezier.js:253-254 | at t = 1 every row of the triangle is a suffix of the curve |
| DeCasteljau.EvalEndpoints | src/jsplumb/jsbezier.js:240-269 | the curve is at its first control point at t = 0 and at its last at t = 1 |
| DeCasteljau.LevelXWithin | src/jsplumb/jsbezier.js:253 | for 0 <= t <= 1 every cell of the triangle has its x within the x-range of the control points |
| DeCasteljau.HalvesXWithin | src/jsplumb/jsbezier.js:257-266 | both halves of a subdivision at 0 <= t <= 1 keep their x-coordinates within the x-range of the curve |
| DeCasteljau.LevelSpaced | src/jsplumb/jsbezier.js:253 | if the control points are evenly spaced in x by h, so is every row of the triangle |
| DeCasteljau.LevelStart | src/jsplumb/jsbezier.js:253 | over control points spaced by h, row i starts at x0 + i t h |
| DeCasteljau.EvalOfSpaced | src/jsplumb/jsbezier.js:240-269 | if the control points step evenly in x from 0 to 1, the x of the curve at t is t |
| RootFinder.FlatnessToleranceValue | src/jsplumb/jsbezier.js:18-25 | FLATNESS_TOLERANCE is 2 to the power of minus MAX_RECURSION (64), and lies strictly between 0 and 1 |
| RootFinder.GetCrossingCount | src/jsplumb/jsbezier.js:168-180 | counts the sign changes between consecutive heights; the first point counts as positive only above 0, later ones at 0 too; the count is at most the degree, and 0 when all heights are positive |
| RootFinder.CrossingsParity | src/jsplumb/jsbezier.js:168-180 | the count is even exactly when the last point has the sign of the first |
| RootFinder.NoCrossingsIffConstantSign | src/jsplumb/jsbezier.js:168-180 | the count is 0 exactly when every point has the sign of the first |
| RootFinder.MaxCrossingsIffAlternating | src/jsplumb/jsbezier.js:168-180 | the count equals the degree exactly when every point has the opposite sign of the one before |
| RootFinder.AlternatingCrossings | src/jsplumb/jsbezier.js:168-180 | strictly alternating non-zero heights give as many crossings as the degree |
| RootFinder.ChordThroughEnds | src/jsplumb/jsbezier.js:187-189 | the line a x + b y + c = 0 built by isFlatEnough passes through the first and the last control point |
| RootFinder.MaxDistances | src/jsplumb/jsbezier.js:190-200 | the loop yields the largest and the smallest line value over the interior points, both starting from 0 |
| RootFinder.AboveIsMaximum | src/jsplumb/jsbezier.js:190-200 | the largest value bounds every interior line value and is 0 or one of them |
| RootFinder.BelowIsMinimum | src/jsplumb/jsbezier.js:190-200 | the smallest value bounds every interior line value from below and is 0 or one of them |
| RootFinder.InterceptsClose | src/jsplumb/jsbezier.js:202-216 | the two intercepts of the lines parallel to the chord are closer than the tolerance exactly when a != 0 and (above - below) / abs(a) < tolerance |
| RootFinder.BandWidth | src/jsplumb/jsbezier.js:207-215 | the distance between the two intercepts is (above - below) / abs(det) |
| RootFinder.IsFlatEnough | src/jsplumb/jsbezier.js:186-217 | flat exactly when the chord is not horizontal and the band of interior line values, divided by its height difference, is below the tolerance |
| RootFinder.FlatBoundsChordValues | src/jsplumb/jsbezier.js:186-217 | on a flat polygon every interior point is within the tolerance of the chord, measured along the x-axis |
| RootFinder.CollinearIsFlat | src/jsplumb/jsbezier.js:186-217 | a polygon whose interior points lie on a non-horizontal chord is flat enough |
| RootFinder.ComputeXIntercept | src/jsplumb/jsbezier.js:223-234 | returns x0 - y0 (xN - x0) / (yN - y0), the chord's x-intercept; it requires yN != y0, which holds at its only call in findRoots because isFlatEnough answers "flat" only when that difference is not 0 |
| RootFinder.InterceptOnChord | src/jsplumb/jsbezier.js:223-234 | the point (computeXIntercept, 0) lies on the line through the first and the last control point |
| RootFinder.InterceptBetween | src/jsplumb/jsbezier.js:223-234 | when the chord's end heights have opposite signs, the intercept lies between the end points' x |
| RootFinder.FindRoots | src/jsplumb/jsbezier.js:132-162 | reports no root for no crossing; for one crossing it reports the chord's midpoint x from depth 64 on, or the chord's intercept when the polygon is flat enough; otherwise it reports the left half's roots followed by the right half's, or None when the fuel runs out |
| RootFinder.JoinRoots | src/jsplumb/jsbezier.js:155-161 | the roots of the left half followed by those of the right half |
| RootFinder.LeafWithin | src/jsplumb/jsbezier.js:138-151 | a root reported without subdividing lies within the x-range of the control points |
| RootFinder.RootsWithin | src/jsplumb/jsbezier.js:132-162 | every reported root lies within the x-range of the control points |
| RootFinder.RootsFuelMonotone | src/jsplumb/jsbezier.js:132-162 | once the roots are found, more fuel gives the same roots |
| RootFinder.QuinticRepeats | src/jsplumb/jsbezier.js:152-154 | the right half of the left half of the polygon s (-1, 2, -4, 8, -16, 32) is the same polygon scaled by 1/1024 |
| RootFinder.QuinticRootNeverFinishes | src/jsplumb/jsbezier.js:132-162 | findRoots never finishes on that polygon, whatever the fuel |
| RootFinder.ZeroCrossings | src/jsplumb/jsbezier.js:168-180 | a polygon of two or more points whose heights are all 0 has exactly one crossing: the first point counts as negative, the others as positive |
| RootFinder.ZeroLeaf | src/jsplumb/jsbezier.js:138-151 | such a polygon is subdivided above depth 64 and reported as its chord's midpoint from depth 64 on; the flatness test never holds because the chord is horizontal |
| RootFinder.ZeroHalves | src/jsplumb/jsbezier.js:152-154 | both halves of such a polygon again have all heights 0 |
| RootFinder.ZeroNeedsDepth64 | src/jsplumb/jsbezier.js:132-162 | on such a polygon the search at depth d with fuel f finds nothing when d + f < 64 |
| RootFinder.ZeroRootCount | src/jsplumb/jsbezier.js:132-162 | on such a polygon the search at depth d with 64 - d levels of fuel reports 2^(64 - d) roots |
| Projection.CdTable | src/jsplumb/jsbezier.js:95-109 | cdTable[r][c] is 3 (curve[r + 1] - curve[r]) . (curve[c] - point) |
| Projection.AccumulateColumn | src/jsplumb/jsbezier.js:118-123 | one pass of the outer loop adds cdTable[k - i][i] z[k - i][i], for i from max(0, k - m) to min(k, n), to the height of w[k] and changes nothing else |
| Projection.ConvertToBezier | src/jsplumb/jsbezier.js:87-126 | returns the polygon of 2n points at x = k / (2n - 1) whose heights are those weighted sums, for a curve of degree n from 1 to 3 |
| Projection.ProjectedX | src/jsplumb/jsbezier.js:110-114 | control point k of the polygon has x = k / (2n - 1) |
| Projection.ProjectedXs | src/jsplumb/jsbezier.js:110-114 | the polygon's x-coordinates start at 0, step evenly and end at 1, and all lie in [0, 1] |
| Projection.ProjectedCurveX | src/jsplumb/jsbezier.js:110-114 | the x of the polygon's curve at t is t, so an x-intercept is a parameter of the original curve |
| Projection.ProjectedEndHeights | src/jsplumb/jsbezier.js:94-124 | for a cubic, the first height is (B(0) - P) . B'(0) and the last is (B(1) - P) . B'(1) |
| Projection.CubicHeights | src/jsplumb/jsbezier.js:115-124 | for a cubic, the six heights are the sums of cdTable[k - i][i] z[k - i][i] over the contributing i, written out with the weights of z |
| Projection.CoincidentProjected | src/jsplumb/jsbezier.js:94-124 | when all control points coincide, every entry of cdTable is 0 and so is every height of the polygon |
| Projection.LinearProjected | src/jsplumb/jsbezier.js:94-124 | for a segment, the polygon is (0, cd[0][0]) and (1, 0.6 cd[0][1]): the cubic weights z[0][0] and z[0][1] |
| Distance.DistanceFromCurve | src/jsplumb/jsbezier.js:38-65 | computes CurveDistance: None when the root search runs out of fuel, otherwise the nearest of 0, the roots found for the polygon of convertToBezier, and 1 |
| Distance.PickNearest | src/jsplumb/jsbezier.js:47-63 | starting at the first control point with location 0, each candidate replaces the best when strictly nearer, then the last control point does with location 1; the result is Closest |
| Distance.NearestPointOnCurve | src/jsplumb/jsbezier.js:73-79 | reports the location distanceFromCurve chose and the curve's point at that location |
| Distance.ScanIsFirstNearest | src/jsplumb/jsbezier.js:47-57 | after the loop, the best is the first of location 0 and the candidates so far that is strictly nearer than all before it and no farther than any |
| Distance.ClosestIsFirstNearest | src/jsplumb/jsbezier.js:47-63 | with the end point included, the result is the first nearest of 0, the candidates and 1 |
| Distance.DistanceIsFirstNearest | src/jsplumb/jsbezier.js:38-65 | distanceFromCurve reports the first nearest of 0, the reported roots and 1, and its distance |
| Distance.LocationInUnitInterval | src/jsplumb/jsbezier.js:38-65 | the reported location lies in [0, 1] |
| Distance.DistanceFuelMonotone | src/jsplumb/jsbezier.js:46 | once the root search has finished, more fuel does not change the answer |
| Distance.NearestPointIsAttained | src/jsplumb/jsbezier.js:73-79 | the curve is at the reported distance at the reported location, and is no farther than either end |
| Distance.CubicPolygon | src/jsplumb/jsbezier.js:94-124 | for the point (0, 0) and the cubic (-1, 0), (2, 0), (-4, 0), (8, 0), the polygon's heights are 9 (-1, 2, -4, 8, -16, 32) |
| Distance.CubicNeverFinishes | src/jsplumb/jsbezier.js:38-65 | for that point and cubic, distanceFromCurve finds no answer whatever the fuel |
| Distance.CoincidentRoots | src/jsplumb/jsbezier.js:38-46 | for a curve of coincident control points, distanceFromCurve finds no answer with fewer than 64 levels of fuel, and with at least 64 the root finder reports 2^64 roots |
| Distance.SegmentRootIsOffCentre | src/jsplumb/jsbezier.js:94-149 | for the segment (1, 1)-(2, 2) and the point (1.5, 1.5) the polygon is (0, -3), (1, 1.8) and its single root is 0.625 |
| Distance.SegmentNearestIsOffCentre | src/jsplumb/jsbezier.js:32-65 | for that segment and point, distanceFromCurve reports location 0.625 at squared distance 1/32 |
| Distance.SegmentPassesThroughPoint | src/jsplumb/jsbezier.js:240-269 | that segment passes through (1.5, 1.5) at location 0.5 |

## Left out

- `pointOnPath` and `getLength` (src/jsplumb/jsbezier.js:275-303) are left out. They rely on `getCurveFunctions`, which is not part of this model, and `getLength` walks the curve in floating-point steps of 0.005.
- Arithmetic is over exact reals. IEEE rounding, NaN and infinities are not modelled.
- IsFlatEnough: a horizontal chord makes the source divide by zero. Its band width is then NaN or infinite and never below the tolerance, so the model answers "not flat" outright.
- InterceptOnChord, InterceptBetween: computeXIntercept is specified only for a chord that is not horizontal. It is called only when isFlatEnough holds, and that implies the same condition.
- DistanceFromCurve: reports the squared distance, not the distance of `v.magnitude()`. The square root is monotone, so the location chosen by the strict comparisons is the same.
- DistanceFromCurve, ConvertToBezier: the curve has 2 to 4 control points, and ConvertToBezier at most 4. With more, convertToBezier reads a row of `z` that does not exist and throws. With one, findRoots reads a control point of an empty polygon and throws.
- FindRoots: takes a `fuel` bound on the recursion below the current depth and returns None when it runs out. The source has no such bound and, over exact reals, does not terminate on some inputs (see QuinticRootNeverFinishes and CubicNeverFinishes); in IEEE arithmetic those runs end once the heights underflow. The number of roots is not bounded by the degree: a polygon of zero heights yields 2^64 of them (ZeroRootCount, CoincidentRoots). MAX_RECURSION bounds only the depth at which one crossing is reported without refinement.
- FindRoots, JoinRoots: the caller's output array `t` and the returned count are modelled as a returned sequence, whose length is the count.
- The `degree` argument of bezier, findRoots, getCrossingCount, isFlatEnough and computeXIntercept is always the length of the array minus one. The model takes it from the sequence's length.
- The `goog.asserts` type checks and the `goog.math.Vec2` class are not modelled beyond the fields used. Points are values, so the aliasing of `temp[j][0]` into `left` is not modelled.
- ConvertToBezier: the cubic weights `z` are not proved to give `(B(t) - P) . B'(t)` in Bezier form in general. The model proves the polygon's x-coordinates, its end heights for a cubic, its six heights for a cubic as sums of table entries (CubicHeights), and the two-point form for a segment, where the weights are those of a cubic and the root is off centre (SegmentNearestIsOffCentre).
