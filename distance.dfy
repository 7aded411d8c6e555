/**
 * jsplumb.JsBezier.distanceFromCurve and nearestPointOnCurve: the point of
 * a curve nearest to a given point. The candidate parameters are the
 * x-intercepts findRoots reports for the polygon convertToBezier builds;
 * the answer is the first of the start of the curve, the candidates in the
 * order reported, and the end of the curve, that is strictly nearer than
 * everything before it and no farther than anything after it.
 */
module Distance {
  import opened Wrappers
  import opened Vectors
  import opened DeCasteljau
  import opened RootFinder
  import opened Projection

  /** The result of distanceFromCurve; `distance` is squared. */
  datatype Nearest = Nearest(location: real, distance: real)

  /** The result of nearestPointOnCurve. */
  datatype OnCurve = OnCurve(point: Point, location: real)

  /** The squared distance from `point` to the point of `curve` at `t`. */
  function DistanceAt(point: Point, curve: seq<Point>, t: real): real
    requires |curve| >= 1
  {
    Dist2(point, Eval(curve, t))
  }

  /**
   * The loop over the candidates: starting from the first control point at
   * location 0, a candidate replaces the best so far only when it is
   * strictly nearer.
   */
  function Scan(point: Point, curve: seq<Point>, candidates: seq<real>): Nearest
    requires |curve| >= 1
  {
    if |candidates| == 0 then Nearest(0.0, Dist2(point, curve[0]))
    else
      var best := Scan(point, curve, candidates[..|candidates| - 1]);
      var t := candidates[|candidates| - 1];
      var d := DistanceAt(point, curve, t);
      if d < best.distance then Nearest(t, d) else best
  }

  /** The last control point, at location 1, replaces the result of Scan when it is strictly nearer. */
  function Closest(point: Point, curve: seq<Point>, candidates: seq<real>): Nearest
    requires |curve| >= 1
  {
    var best := Scan(point, curve, candidates);
    var d := Dist2(point, curve[|curve| - 1]);
    if d < best.distance then Nearest(1.0, d) else best
  }

  /**
   * What distanceFromCurve computes for a curve of degree 1 to 3: None when
   * the root finder runs out of `fuel` (see RootFinder.Roots).
   */
  function CurveDistance(point: Point, curve: seq<Point>, fuel: nat): Option<Nearest>
    requires 2 <= |curve| <= 4
  {
    var roots := Roots(Projected(point, curve), 0, fuel);
    if roots.None? then None else Some(Closest(point, curve, roots.value))
  }

  /**
   * jsplumb.JsBezier.distanceFromCurve. The curve has degree 1 to 3: from
   * degree 4 on convertToBezier fails, and for degree 0 findRoots reads a
   * control point of an empty polygon.
   */
  method DistanceFromCurve(point: Point, curve: seq<Point>, fuel: nat) returns (result: Option<Nearest>)
    requires 2 <= |curve| <= 4
    ensures result == CurveDistance(point, curve, fuel)
  {
    var w := ConvertToBezier(point, curve);
    var found := FindRoots(w, 0, fuel);
    if found.None? {
      return None;
    }
    var best := PickNearest(point, curve, found.value);
    return Some(best);
  }

  /**
   * The comparisons of distanceFromCurve once the roots are known: the
   * first control point, then each candidate in turn, then the last control
   * point replaces the best so far only when it is strictly nearer.
   */
  method PickNearest(point: Point, curve: seq<Point>, candidates: seq<real>) returns (best: Nearest)
    requires |curve| >= 1
    ensures best == Closest(point, curve, candidates)
  {
    var degree := |curve| - 1;
    var dist := Dist2(point, curve[0]);
    var t := 0.0;
    for i := 0 to |candidates|
      invariant Nearest(t, dist) == Scan(point, curve, candidates[..i])
    {
      assert candidates[..i + 1][..i] == candidates[..i];
      var p := Bezier(curve, candidates[i], null, null);
      var newDist := Dist2(point, p);
      if newDist < dist {
        dist := newDist;
        t := candidates[i];
      }
    }
    assert candidates[..|candidates|] == candidates;
    var newDist := Dist2(point, curve[degree]);
    if newDist < dist {
      dist := newDist;
      t := 1.0;
    }
    return Nearest(t, dist);
  }

  /** jsplumb.JsBezier.nearestPointOnCurve: the point of the curve at the location distanceFromCurve chose. */
  method NearestPointOnCurve(point: Point, curve: seq<Point>, fuel: nat) returns (result: Option<OnCurve>)
    requires 2 <= |curve| <= 4
    ensures result.None? <==> CurveDistance(point, curve, fuel).None?
    ensures result.Some? ==> result.value.location == CurveDistance(point, curve, fuel).value.location
    ensures result.Some? ==> result.value.point == Eval(curve, result.value.location)
  {
    var td := DistanceFromCurve(point, curve, fuel);
    if td.None? {
      return None;
    }
    var p := Bezier(curve, td.value.location, null, null);
    return Some(OnCurve(p, td.value.location));
  }

  /** The j-th location that competes: 0, then the candidates in order, then 1. */
  function LocationAt(candidates: seq<real>, j: nat): real
    requires j <= |candidates| + 1
  {
    if j == 0 then 0.0 else if j <= |candidates| then candidates[j - 1] else 1.0
  }

  /**
   * `best` is the first of the locations 0 .. k - 1 with the least distance:
   * strictly nearer than every location before it, and no farther than any.
   */
  ghost predicate FirstNearest(point: Point, curve: seq<Point>, candidates: seq<real>, k: nat, best: Nearest)
    requires |curve| >= 1 && k <= |candidates| + 2
  {
    exists i :: 0 <= i < k && IsNearestAt(point, curve, candidates, k, best, i)
  }

  /** `best` is the location i and its distance, strictly below all before i and at most any below k. */
  ghost predicate IsNearestAt(point: Point, curve: seq<Point>, candidates: seq<real>, k: nat, best: Nearest, i: nat)
    requires |curve| >= 1 && i < k <= |candidates| + 2
  {
    best.location == LocationAt(candidates, i) && best.distance == DistanceAt(point, curve, LocationAt(candidates, i)) &&
    (forall j :: 0 <= j < i ==> best.distance < DistanceAt(point, curve, LocationAt(candidates, j))) &&
    (forall j :: 0 <= j < k ==> best.distance <= DistanceAt(point, curve, LocationAt(candidates, j)))
  }

  /** Scan over the first n candidates picks the first nearest of 0 and those candidates. */
  lemma {:induction false} ScanIsFirstNearest(point: Point, curve: seq<Point>, candidates: seq<real>, n: nat)
    requires |curve| >= 1 && n <= |candidates|
    ensures FirstNearest(point, curve, candidates, n + 1, Scan(point, curve, candidates[..n]))
  {
    var best := Scan(point, curve, candidates[..n]);
    if n == 0 {
      EvalEndpoints(curve);
      assert IsNearestAt(point, curve, candidates, 1, best, 0);
    } else {
      var prev := Scan(point, curve, candidates[..n - 1]);
      assert candidates[..n][..n - 1] == candidates[..n - 1];
      ScanIsFirstNearest(point, curve, candidates, n - 1);
      var i :| 0 <= i < n && IsNearestAt(point, curve, candidates, n, prev, i);
      var d := DistanceAt(point, curve, candidates[n - 1]);
      assert LocationAt(candidates, n) == candidates[n - 1];
      if d < prev.distance {
        assert IsNearestAt(point, curve, candidates, n + 1, best, n);
      } else {
        assert IsNearestAt(point, curve, candidates, n + 1, best, i);
      }
    }
  }

  /** Closest picks the first nearest of 0, the candidates and 1. */
  lemma ClosestIsFirstNearest(point: Point, curve: seq<Point>, candidates: seq<real>)
    requires |curve| >= 1
    ensures FirstNearest(point, curve, candidates, |candidates| + 2, Closest(point, curve, candidates))
  {
    var n := |candidates| + 1;
    ScanIsFirstNearest(point, curve, candidates, |candidates|);
    assert candidates[..|candidates|] == candidates;
    var prev := Scan(point, curve, candidates);
    var i :| 0 <= i < n && IsNearestAt(point, curve, candidates, n, prev, i);
    EvalEndpoints(curve);
    assert DistanceAt(point, curve, LocationAt(candidates, n)) == Dist2(point, curve[|curve| - 1]);
    var best := Closest(point, curve, candidates);
    if Dist2(point, curve[|curve| - 1]) < prev.distance {
      assert IsNearestAt(point, curve, candidates, n + 1, best, n);
    } else {
      assert IsNearestAt(point, curve, candidates, n + 1, best, i);
    }
  }

  /**
   * distanceFromCurve answers with the first of 0, the reported roots and 1
   * at which the curve is nearest to `point`, and the distance there.
   */
  lemma DistanceIsFirstNearest(point: Point, curve: seq<Point>, fuel: nat)
    requires 2 <= |curve| <= 4
    requires CurveDistance(point, curve, fuel).Some?
    ensures var roots := Roots(Projected(point, curve), 0, fuel).value;
      FirstNearest(point, curve, roots, |roots| + 2, CurveDistance(point, curve, fuel).value)
  {
    ClosestIsFirstNearest(point, curve, Roots(Projected(point, curve), 0, fuel).value);
  }

  /** The location distanceFromCurve reports is a parameter of the curve, in [0, 1]. */
  lemma LocationInUnitInterval(point: Point, curve: seq<Point>, fuel: nat)
    requires 2 <= |curve| <= 4
    requires CurveDistance(point, curve, fuel).Some?
    ensures 0.0 <= CurveDistance(point, curve, fuel).value.location <= 1.0
  {
    var w := Projected(point, curve);
    var roots := Roots(w, 0, fuel).value;
    ProjectedXs(point, curve);
    RootsWithin(w, 0, fuel, 0.0, 1.0);
    DistanceIsFirstNearest(point, curve, fuel);
    var best := CurveDistance(point, curve, fuel).value;
    var i :| 0 <= i < |roots| + 2 && IsNearestAt(point, curve, roots, |roots| + 2, best, i);
    if 0 < i <= |roots| {
      assert best.location == roots[i - 1];
    }
  }

  /** Once the root finder has finished, more fuel does not change the answer. */
  lemma DistanceFuelMonotone(point: Point, curve: seq<Point>, fuel: nat, more: nat)
    requires 2 <= |curve| <= 4 && fuel <= more
    requires CurveDistance(point, curve, fuel).Some?
    ensures CurveDistance(point, curve, more) == CurveDistance(point, curve, fuel)
  {
    RootsFuelMonotone(Projected(point, curve), 0, fuel, more);
  }

  /**
   * The point nearestPointOnCurve returns is on the curve, at the distance
   * distanceFromCurve reports, and no farther from `point` than either end
   * of the curve.
   */
  lemma NearestPointIsAttained(point: Point, curve: seq<Point>, fuel: nat)
    requires 2 <= |curve| <= 4
    requires CurveDistance(point, curve, fuel).Some?
    ensures var best := CurveDistance(point, curve, fuel).value;
      Dist2(point, Eval(curve, best.location)) == best.distance &&
      best.distance <= Dist2(point, curve[0]) && best.distance <= Dist2(point, curve[|curve| - 1])
  {
    var roots := Roots(Projected(point, curve), 0, fuel).value;
    var best := CurveDistance(point, curve, fuel).value;
    DistanceIsFirstNearest(point, curve, fuel);
    var i :| 0 <= i < |roots| + 2 && IsNearestAt(point, curve, roots, |roots| + 2, best, i);
    EvalEndpoints(curve);
    assert DistanceAt(point, curve, LocationAt(roots, 0)) == Dist2(point, curve[0]);
    assert DistanceAt(point, curve, LocationAt(roots, |roots| + 1)) == Dist2(point, curve[|curve| - 1]);
  }

  /**
   * The weights of convertToBezier are those of a cubic. For the straight
   * segment from (1, 1) to (2, 2) and the point (1.5, 1.5) on it, the
   * polygon has heights -3 and 1.8 where those of the segment's own
   * (B(t) - point) . B'(t) are -1 and 1; its root is 0.625, so
   * distanceFromCurve reports location 0.625 at squared distance 1/32,
   * although the curve passes through the point at location 0.5 (see
   * SegmentPassesThroughPoint).
   */
  lemma SegmentNearestIsOffCentre(point: Point, segment: seq<Point>, fuel: nat)
    requires ExampleSegment(point, segment)
    ensures CurveDistance(point, segment, fuel) == Some(Nearest(0.625, 0.03125))
  {
    SegmentRootIsOffCentre(point, segment, fuel);
    SegmentScan(point, segment);
  }

  /** The polygon of the example has the single root 0.625, found at depth 0. */
  lemma SegmentRootIsOffCentre(point: Point, segment: seq<Point>, fuel: nat)
    requires ExampleSegment(point, segment)
    ensures Roots(Projected(point, segment), 0, fuel) == Some([0.625])
  {
    var w := [Point(0.0, -3.0), Point(1.0, 1.8)];
    SegmentCd(point, segment);
    SegmentPolygon(point, segment);
    SegmentRoots(w, fuel);
  }

  /** The segment passes through (1.5, 1.5) at location 0.5. */
  lemma SegmentPassesThroughPoint(point: Point, segment: seq<Point>)
    requires ExampleSegment(point, segment)
    ensures DistanceAt(point, segment, 0.5) == 0.0
  {
    SegmentEval(segment, 0.5);
    DiagonalDistance(1.5, 1.5);
  }

  /** The point (1.5, 1.5) and the segment from (1, 1) to (2, 2). */
  ghost predicate ExampleSegment(point: Point, segment: seq<Point>) {
    point == Point(1.5, 1.5) && |segment| == 2 && segment[0] == Point(1.0, 1.0) && segment[1] == Point(2.0, 2.0)
  }

  lemma SegmentScan(point: Point, segment: seq<Point>)
    requires ExampleSegment(point, segment)
    ensures Closest(point, segment, [0.625]) == Nearest(0.625, 0.03125)
  {
    assert segment == [Point(1.0, 1.0), Point(2.0, 2.0)];
    ExampleScan();
  }

  /** The scan over the single root of the example, on the literal segment. */
  lemma ExampleScan()
    ensures Closest(Point(1.5, 1.5), [Point(1.0, 1.0), Point(2.0, 2.0)], [0.625]) == Nearest(0.625, 0.03125)
  {
    SegmentEval([Point(1.0, 1.0), Point(2.0, 2.0)], 0.625);
    DiagonalDistance(1.5, 1.0);
    DiagonalDistance(1.5, 1.625);
    DiagonalDistance(1.5, 2.0);
    assert [0.625][..0] == [];
  }

  /** The squared distance between two points of the diagonal. */
  lemma DiagonalDistance(a: real, b: real)
    ensures Dist2(Point(a, a), Point(b, b)) == 2.0 * (a - b) * (a - b)
  {
  }

  lemma SegmentEval(segment: seq<Point>, t: real)
    requires |segment| == 2 && segment[0] == Point(1.0, 1.0) && segment[1] == Point(2.0, 2.0)
    ensures Eval(segment, t) == Point(1.0 + t, 1.0 + t)
  {
    assert Level(segment, t, 1) == LerpRow(segment, t);
  }

  /** A segment whose two table entries are -3 and 3 is projected onto heights -3 and 1.8. */
  lemma SegmentPolygon(point: Point, segment: seq<Point>)
    requires |segment| == 2 && Cd(point, segment, 0, 0) == -3.0 && Cd(point, segment, 0, 1) == 3.0
    ensures Projected(point, segment) == [Point(0.0, -3.0), Point(1.0, 1.8)]
  {
    LinearProjected(point, segment);
  }

  lemma SegmentCd(point: Point, segment: seq<Point>)
    requires ExampleSegment(point, segment)
    ensures Cd(point, segment, 0, 0) == -3.0 && Cd(point, segment, 0, 1) == 3.0
  {
    assert Scale(3.0, Sub(segment[1], segment[0])) == Point(3.0, 3.0);
    assert Sub(segment[0], point) == Point(-0.5, -0.5);
    assert Sub(segment[1], point) == Point(0.5, 0.5);
  }

  lemma SegmentRoots(w: seq<Point>, fuel: nat)
    requires w == [Point(0.0, -3.0), Point(1.0, 1.8)]
    ensures Roots(w, 0, fuel) == Some([0.625])
  {
    assert Crossings(w) == 1 by {
      assert CrossingsUpTo(w, 1) == CrossingsUpTo(w, 0) + 1;
    }
    assert IsFlat(w) by {
      FlatnessToleranceValue();
      assert Above(w, 1) == 0.0 && Below(w, 1) == 0.0;
    }
    assert ComputeXIntercept(w) == 0.625;
  }

  /**
   * The point (0, 0) and the cubic with control points (-1, 0), (2, 0),
   * (-4, 0), (8, 0), whose projected polygon has heights
   * 9 (-1, 2, -4, 8, -16, 32).
   */
  ghost predicate ExampleCubic(point: Point, curve: seq<Point>) {
    point == Point(0.0, 0.0) && |curve| == 4 &&
    curve[0] == Point(-1.0, 0.0) && curve[1] == Point(2.0, 0.0) &&
    curve[2] == Point(-4.0, 0.0) && curve[3] == Point(8.0, 0.0)
  }

  /**
   * distanceFromCurve never returns for that point and cubic: convertToBezier
   * builds the polygon on which findRoots never finishes, so no amount of
   * fuel gives an answer.
   */
  lemma CubicNeverFinishes(point: Point, curve: seq<Point>, fuel: nat)
    requires ExampleCubic(point, curve)
    ensures CurveDistance(point, curve, fuel) == None
  {
    CubicPolygon(point, curve);
    QuinticRootNeverFinishes(Projected(point, curve), 9.0, 0, fuel);
  }

  /** The polygon of that point and cubic is 9 times the one of QuinticRootPolygon. */
  lemma CubicPolygon(point: Point, curve: seq<Point>)
    requires ExampleCubic(point, curve)
    ensures QuinticRootPolygon(Projected(point, curve), 9.0)
  {
    var cd := CdRows(point, curve);
    assert cd[0][0] == -9.0 && cd[0][1] == 18.0 && cd[0][2] == -36.0 && cd[0][3] == 72.0 by {
      assert 3.0 * (curve[1].x - curve[0].x) == 9.0;
      CubicCdRow(point, curve, 0, 9.0);
    }
    assert cd[1][0] == 18.0 && cd[1][1] == -36.0 && cd[1][2] == 72.0 && cd[1][3] == -144.0 by {
      assert 3.0 * (curve[2].x - curve[1].x) == -18.0;
      CubicCdRow(point, curve, 1, -18.0);
    }
    assert cd[2][0] == -36.0 && cd[2][1] == 72.0 && cd[2][2] == -144.0 && cd[2][3] == 288.0 by {
      assert 3.0 * (curve[3].x - curve[2].x) == 36.0;
      CubicCdRow(point, curve, 2, 36.0);
    }
    CubicHeights(point, curve);
  }

  /** Row r of the table of that cubic is the x-coordinates scaled by 3 (curve[r + 1].x - curve[r].x). */
  lemma CubicCdRow(point: Point, curve: seq<Point>, r: nat, d: real)
    requires ExampleCubic(point, curve) && r < 3 && d == 3.0 * (curve[r + 1].x - curve[r].x)
    ensures var row := CdRows(point, curve)[r];
      row[0] == -d && row[1] == 2.0 * d && row[2] == -4.0 * d && row[3] == 8.0 * d
  {
    assert curve[r + 1].y == 0.0 && curve[r].y == 0.0 by {
      assert r == 0 || r == 1 || r == 2;
    }
    CdOnAxis(point, curve, r, 0, d);
    CdOnAxis(point, curve, r, 1, d);
    CdOnAxis(point, curve, r, 2, d);
    CdOnAxis(point, curve, r, 3, d);
  }

  /** An entry of the table when the point is the origin and the control points involved lie on the x-axis. */
  lemma CdOnAxis(point: Point, curve: seq<Point>, r: nat, c: nat, d: real)
    requires point == Point(0.0, 0.0) && r + 1 < |curve| && c < |curve|
    requires curve[r].y == 0.0 && curve[r + 1].y == 0.0 && curve[c].y == 0.0
    requires d == 3.0 * (curve[r + 1].x - curve[r].x)
    ensures Cd(point, curve, r, c) == d * curve[c].x
  {
  }

  /**
   * A curve whose control points coincide: the polygon of convertToBezier
   * is all zeros, so findRoots finds nothing with less fuel than
   * MaxRecursion levels and, with that much, reports 2^MaxRecursion roots.
   */
  lemma CoincidentRoots(point: Point, curve: seq<Point>, fuel: nat)
    requires 2 <= |curve| <= 4 && forall i :: 0 <= i < |curve| ==> curve[i] == curve[0]
    ensures fuel < MaxRecursion ==> CurveDistance(point, curve, fuel) == None
    ensures fuel >= MaxRecursion ==>
      Roots(Projected(point, curve), 0, fuel).Some? &&
      |Roots(Projected(point, curve), 0, fuel).value| as real == Pow2(MaxRecursion)
  {
    var w := Projected(point, curve);
    CoincidentProjected(point, curve);
    assert ZeroHeights(w);
    if fuel < MaxRecursion {
      ZeroNeedsDepth64(w, 0, fuel);
    } else {
      ZeroRootCount(w, 0);
      RootsFuelMonotone(w, 0, MaxRecursion, fuel);
    }
  }
}
