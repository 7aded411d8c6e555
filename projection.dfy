/**
 * jsplumb.JsBezier.convertToBezier: turns the question "which point of the
 * curve is nearest to `point`" into a root-finding problem. For a curve B
 * of degree n it builds a control polygon of degree 2n - 1 whose
 * x-coordinates are evenly spaced over [0, 1] and whose y-coordinates are
 * weighted sums of the products (3 (B[j+1] - B[j])) . (B[i] - point). For a
 * cubic the weights are the Bernstein product factors
 * C(2, j) C(3, i) / C(5, i + j), so that the polygon's heights are the
 * Bernstein coefficients of (B(t) - point) . B'(t).
 * The table of weights and the factor 3 are those of a cubic whatever the
 * degree of the curve.
 */
module Projection {
  import opened Vectors
  import opened DeCasteljau

  /** The table `z` of weights, row j and column i. */
  const ZTable: seq<seq<real>> := [[1.0, 0.6, 0.3, 0.1], [0.4, 0.6, 0.6, 0.4], [0.1, 0.3, 0.6, 1.0]]

  /** Entry (row, column) of `cdTable`: (3 (curve[row + 1] - curve[row])) . (curve[column] - point). */
  function Cd(point: Point, curve: seq<Point>, row: nat, column: nat): real
    requires row + 1 < |curve| && column < |curve|
  {
    Dot(Scale(3.0, Sub(curve[row + 1], curve[row])), Sub(curve[column], point))
  }

  /** The whole of `cdTable` as a value: row `row` holds Cd(point, curve, row, column) for every column. */
  function CdRows(point: Point, curve: seq<Point>): (cd: seq<seq<real>>)
    requires |curve| >= 2
    ensures Shaped(cd, |curve| - 1)
  {
    seq(|curve| - 1, row requires 0 <= row < |curve| - 1 =>
      seq(|curve|, column requires 0 <= column < |curve| => Cd(point, curve, row, column)))
  }

  /** `cd` has n rows of n + 1 entries. */
  predicate Shaped(cd: seq<seq<real>>, n: nat) {
    |cd| == n && forall row :: 0 <= row < n ==> |cd[row]| == n + 1
  }

  /** Math.max(0, k - m) with m = n - 1: the first i that contributes to w[k]. */
  function Lb(n: nat, k: nat): nat {
    if k < n - 1 then 0 else k - (n - 1)
  }

  /** Math.min(k, n): the last i that contributes to w[k]. */
  function Ub(n: nat, k: nat): nat {
    if k < n then k else n
  }

  /** The contributions cd[k - i][i] * z[k - i][i] of i = lb .. i0 - 1 to w[k], for a curve of degree n. */
  function PartialY(cd: seq<seq<real>>, n: nat, k: nat, i0: nat): real
    requires 1 <= n <= 3 && Shaped(cd, n) && k < 2 * n
    requires Lb(n, k) <= i0 <= Ub(n, k) + 1
    decreases i0
  {
    if i0 == Lb(n, k) then 0.0
    else
      PartialY(cd, n, k, i0 - 1) + Term(cd, k - (i0 - 1), i0 - 1)
  }

  /** One contribution: cd[j][i] * z[j][i]. */
  function Term(cd: seq<seq<real>>, j: nat, i: nat): real
    requires j < |cd| && i < |cd[j]| && j < |ZTable| && i < |ZTable[j]|
  {
    cd[j][i] * ZTable[j][i]
  }

  /** The height of w[k]: the sum of all its contributions. */
  function ProjectedY(point: Point, curve: seq<Point>, k: nat): real
    requires 2 <= |curve| <= 4 && k < 2 * |curve| - 2
  {
    var n := |curve| - 1;
    PartialY(CdRows(point, curve), n, k, Ub(n, k) + 1)
  }

  /**
   * The polygon convertToBezier returns: 2n control points for a curve of
   * degree n >= 1, the k-th at x = k / (2n - 1) with the sum of its
   * contributions as height; no control point for a curve of degree 0.
   */
  function Projected(point: Point, curve: seq<Point>): (w: seq<Point>)
    requires |curve| <= 4
    ensures |w| == if |curve| <= 1 then 0 else 2 * |curve| - 2
  {
    if |curve| <= 1 then []
    else
      var higherDegree := 2 * |curve| - 3;
      seq(higherDegree + 1, k requires 0 <= k <= higherDegree =>
        Point(k as real / higherDegree as real, ProjectedY(point, curve, k)))
  }

  /** The tables `c`, `d` and `cdTable` of convertToBezier: a fresh table of every Cd. */
  method CdTable(point: Point, curve: seq<Point>) returns (cdTable: array2<real>)
    requires |curve| >= 2
    ensures fresh(cdTable)
    ensures cdTable.Length0 == |curve| - 1 && cdTable.Length1 == |curve|
    ensures forall row, column :: 0 <= row < |curve| - 1 && 0 <= column < |curve| ==>
      cdTable[row, column] == CdRows(point, curve)[row][column]
  {
    var degree := |curve| - 1;
    var c := new Point[degree + 1];
    for i := 0 to degree + 1
      modifies c
      invariant forall k :: 0 <= k < i ==> c[k] == Sub(curve[k], point)
    {
      c[i] := Sub(curve[i], point);
    }
    var d := new Point[degree];
    for i := 0 to degree
      modifies d
      invariant forall k :: 0 <= k < i ==> d[k] == Scale(3.0, Sub(curve[k + 1], curve[k]))
    {
      d[i] := Scale(3.0, Sub(curve[i + 1], curve[i]));
    }
    cdTable := new real[degree, degree + 1];
    for row := 0 to degree
      modifies cdTable
      invariant forall r, column :: 0 <= r < row && 0 <= column <= degree ==> cdTable[r, column] == Cd(point, curve, r, column)
    {
      for column := 0 to degree + 1
        modifies cdTable
        invariant forall r, col :: 0 <= r < row && 0 <= col <= degree ==> cdTable[r, col] == Cd(point, curve, r, col)
        invariant forall col :: 0 <= col < column ==> cdTable[row, col] == Cd(point, curve, row, col)
      {
        cdTable[row, column] := Dot(d[row], c[column]);
      }
    }
  }

  /**
   * jsplumb.JsBezier.convertToBezier. The curve is a cubic or of lower
   * degree: from degree 4 on the source reads a fourth row of `z`, which
   * does not exist, and fails.
   */
  method ConvertToBezier(point: Point, curve: seq<Point>) returns (w: seq<Point>)
    requires |curve| <= 4
    ensures w == Projected(point, curve)
  {
    if |curve| <= 1 {
      // degree 0 (or no curve at all): every loop of the source is empty
      return [];
    }
    var degree := |curve| - 1;
    var higherDegree := 2 * degree - 1;
    var cdTable := CdTable(point, curve);
    var v := new Point[higherDegree + 1];
    for i := 0 to higherDegree + 1
      modifies v
      invariant forall k :: 0 <= k < i ==> v[k] == Point(k as real / higherDegree as real, 0.0)
    {
      v[i] := Point(i as real / higherDegree as real, 0.0);
    }
    ghost var cd := CdRows(point, curve);
    var n, m := degree, degree - 1;
    for k := 0 to n + m + 1
      modifies v
      invariant forall q :: 0 <= q < k ==> v[q] == Projected(point, curve)[q]
      invariant forall q :: k <= q <= higherDegree ==> v[q] == Point(q as real / higherDegree as real, 0.0)
    {
      AccumulateColumn(cdTable, n, v, k, cd);
      assert v[k] == Projected(point, curve)[k];
    }
    assert v[..] == Projected(point, curve);
    w := v[..];
  }

  /** One pass of the outer loop of convertToBezier: adds every contribution to w[k]. */
  method AccumulateColumn(cdTable: array2<real>, n: nat, v: array<Point>, k: nat, ghost cd: seq<seq<real>>)
    requires 1 <= n <= 3 && k < 2 * n && Shaped(cd, n)
    requires cdTable.Length0 == n && cdTable.Length1 == n + 1
    requires forall row, column :: 0 <= row < n && 0 <= column <= n ==> cdTable[row, column] == cd[row][column]
    requires v.Length == 2 * n && v[k].y == 0.0
    modifies v
    ensures v[k] == Point(old(v[k].x), PartialY(cd, n, k, Ub(n, k) + 1))
    ensures forall q :: 0 <= q < v.Length && q != k ==> v[q] == old(v[q])
  {
    var m := n - 1;
    var lb := if 0 > k - m then 0 else k - m;
    var ub := if k < n then k else n;
    ghost var x := v[k].x;
    for i := lb to ub + 1
      invariant v[k] == Point(x, PartialY(cd, n, k, i))
      invariant forall q :: 0 <= q < v.Length && q != k ==> v[q] == old(v[q])
    {
      var j := k - i;
      ghost var term := Term(cd, j, i);
      v[i + j] := Point(v[i + j].x, v[i + j].y + cdTable[j, i] * ZTable[j][i]);
      assert v[k].y == PartialY(cd, n, k, i) + term;
    }
  }

  /**
   * The x-coordinates of the polygon are k / (2n - 1): they start at 0 and
   * step by 1 / (2n - 1) up to 1, so that the polygon's curve has x(t) = t
   * (see DeCasteljau.EvalOfSpaced).
   */
  lemma ProjectedXs(point: Point, curve: seq<Point>)
    requires 2 <= |curve| <= 4
    ensures var w := Projected(point, curve);
      w[0].x == 0.0 && Spaced(w, 1.0 / (|w| - 1) as real) && (|w| - 1) as real * (1.0 / (|w| - 1) as real) == 1.0
    ensures XWithin(Projected(point, curve), 0.0, 1.0)
  {
    var w := Projected(point, curve);
    var hd := (|w| - 1) as real;
    ProjectedX(point, curve, 0);
    ProjectedXsWithin(point, curve);
    ProjectedXsSpaced(point, curve);
    DivideUnit(hd, hd);
  }

  lemma ProjectedXsWithin(point: Point, curve: seq<Point>)
    requires 2 <= |curve| <= 4
    ensures XWithin(Projected(point, curve), 0.0, 1.0)
  {
    var w := Projected(point, curve);
    forall k | 0 <= k < |w|
      ensures 0.0 <= w[k].x <= 1.0
    {
      ProjectedX(point, curve, k);
      DivideUnit(k as real, (|w| - 1) as real);
    }
  }

  lemma ProjectedXsSpaced(point: Point, curve: seq<Point>)
    requires 2 <= |curve| <= 4
    ensures var w := Projected(point, curve); Spaced(w, 1.0 / (|w| - 1) as real)
  {
    var w := Projected(point, curve);
    forall k | 0 <= k < |w| - 1
      ensures Gap(w, k) == 1.0 / (|w| - 1) as real
    {
      ProjectedX(point, curve, k);
      DivideStep(k as real, (|w| - 1) as real);
    }
  }

  /**
   * The curve of the polygon has x(t) = t: an x-intercept that findRoots
   * reports for it is a parameter of the original curve.
   */
  lemma ProjectedCurveX(point: Point, curve: seq<Point>, t: real)
    requires 2 <= |curve| <= 4
    ensures Eval(Projected(point, curve), t).x == t
  {
    var w := Projected(point, curve);
    ProjectedXs(point, curve);
    EvalOfSpaced(w, t, 1.0 / (|w| - 1) as real);
  }

  /**
   * For a straight segment the polygon has two control points, at x = 0
   * and x = 1, with heights cd[0][0] z[0][0] and cd[0][1] z[0][1].
   */
  lemma LinearProjected(point: Point, curve: seq<Point>)
    requires |curve| == 2
    ensures Projected(point, curve) == [Point(0.0, Cd(point, curve, 0, 0)), Point(1.0, 0.6 * Cd(point, curve, 0, 1))]
  {
    var cd := CdRows(point, curve);
    assert PartialY(cd, 1, 0, 1) == PartialY(cd, 1, 0, 0) + Term(cd, 0, 0);
    assert PartialY(cd, 1, 1, 2) == PartialY(cd, 1, 1, 1) + Term(cd, 0, 1);
    var w := Projected(point, curve);
    assert w[0] == Point(0.0, Cd(point, curve, 0, 0));
    assert w[1] == Point(1.0, 0.6 * Cd(point, curve, 0, 1));
  }

  lemma ProjectedX(point: Point, curve: seq<Point>, k: nat)
    requires 2 <= |curve| <= 4 && k < 2 * |curve| - 2
    ensures Projected(point, curve)[k].x == k as real / (2 * |curve| - 3) as real
    ensures k + 1 < 2 * |curve| - 2 ==> Projected(point, curve)[k + 1].x == (k as real + 1.0) / (2 * |curve| - 3) as real
  {
  }

  lemma DivideUnit(a: real, b: real)
    requires 0.0 <= a <= b && b > 0.0
    ensures 0.0 <= a / b <= 1.0 && b * (1.0 / b) == 1.0
  {
  }

  lemma DivideStep(a: real, b: real)
    requires b > 0.0
    ensures (a + 1.0) / b - a / b == 1.0 / b
  {
  }

  /**
   * For a cubic, the first and the last height are (B(0) - point) . B'(0)
   * and (B(1) - point) . B'(1), where B'(0) = 3 (B[1] - B[0]) and B'(1) =
   * 3 (B[3] - B[2]): the sign of the first tells whether the distance to
   * `point` decreases as the curve leaves its start, that of the last
   * whether it increases as it reaches its end.
   */
  lemma ProjectedEndHeights(point: Point, curve: seq<Point>)
    requires |curve| == 4
    ensures Projected(point, curve)[0].y == Dot(Scale(3.0, Sub(curve[1], curve[0])), Sub(curve[0], point))
    ensures Projected(point, curve)[5].y == Dot(Scale(3.0, Sub(curve[3], curve[2])), Sub(curve[3], point))
  {
    var cd := CdRows(point, curve);
    assert PartialY(cd, 3, 0, 1) == PartialY(cd, 3, 0, 0) + Term(cd, 0, 0);
    assert PartialY(cd, 3, 5, 4) == PartialY(cd, 3, 5, 3) + Term(cd, 2, 3);
  }

  /**
   * For a cubic, the six heights as the weighted sums the loops of
   * convertToBezier accumulate, term by term.
   */
  lemma CubicHeights(point: Point, curve: seq<Point>)
    requires |curve| == 4
    ensures var w, cd := Projected(point, curve), CdRows(point, curve);
      w[0].y == cd[0][0] &&
      w[1].y == 0.4 * cd[1][0] + 0.6 * cd[0][1] &&
      w[2].y == 0.1 * cd[2][0] + 0.6 * cd[1][1] + 0.3 * cd[0][2] &&
      w[3].y == 0.3 * cd[2][1] + 0.6 * cd[1][2] + 0.1 * cd[0][3] &&
      w[4].y == 0.6 * cd[2][2] + 0.4 * cd[1][3] &&
      w[5].y == cd[2][3]
  {
    var cd := CdRows(point, curve);
    var w := Projected(point, curve);
    forall k | 0 <= k < 6
      ensures w[k].y == PartialY(cd, 3, k, Ub(3, k) + 1)
    {
      assert w[k].y == ProjectedY(point, curve, k);
    }
    assert PartialY(cd, 3, 0, 1) == Term(cd, 0, 0);
    assert PartialY(cd, 3, 1, 2) == Term(cd, 1, 0) + Term(cd, 0, 1) by {
      assert PartialY(cd, 3, 1, 1) == Term(cd, 1, 0);
    }
    assert PartialY(cd, 3, 2, 3) == Term(cd, 2, 0) + Term(cd, 1, 1) + Term(cd, 0, 2) by {
      assert PartialY(cd, 3, 2, 1) == Term(cd, 2, 0);
      assert PartialY(cd, 3, 2, 2) == PartialY(cd, 3, 2, 1) + Term(cd, 1, 1);
    }
    assert PartialY(cd, 3, 3, 4) == Term(cd, 2, 1) + Term(cd, 1, 2) + Term(cd, 0, 3) by {
      assert PartialY(cd, 3, 3, 2) == Term(cd, 2, 1);
      assert PartialY(cd, 3, 3, 3) == PartialY(cd, 3, 3, 2) + Term(cd, 1, 2);
    }
    assert PartialY(cd, 3, 4, 4) == Term(cd, 2, 2) + Term(cd, 1, 3) by {
      assert PartialY(cd, 3, 4, 3) == Term(cd, 2, 2);
    }
    assert PartialY(cd, 3, 5, 4) == Term(cd, 2, 3);
  }

  /** A curve whose control points coincide gives a polygon whose heights are all 0: every entry of the table is 0. */
  lemma CoincidentProjected(point: Point, curve: seq<Point>)
    requires 2 <= |curve| <= 4 && forall i :: 0 <= i < |curve| ==> curve[i] == curve[0]
    ensures forall k :: 0 <= k < |Projected(point, curve)| ==> Projected(point, curve)[k].y == 0.0
  {
    var n := |curve| - 1;
    var cd := CdRows(point, curve);
    forall row, column | 0 <= row < n && 0 <= column <= n
      ensures cd[row][column] == 0.0
    {
      assert curve[row + 1] == curve[row];
      StillCd(point, curve, row, column);
    }
    var w := Projected(point, curve);
    forall k | 0 <= k < 2 * n
      ensures w[k].y == 0.0
    {
      assert w[k].y == PartialY(cd, n, k, Ub(n, k) + 1);
      ZeroPartialY(cd, n, k, Ub(n, k) + 1);
    }
  }

  /** An entry of the table whose two control points coincide is 0. */
  lemma StillCd(point: Point, curve: seq<Point>, row: nat, column: nat)
    requires row + 1 < |curve| && column < |curve| && curve[row + 1] == curve[row]
    ensures Cd(point, curve, row, column) == 0.0
  {
    var step := Scale(3.0, Sub(curve[row + 1], curve[row]));
    assert step == Point(0.0, 0.0) by {
      assert Sub(curve[row + 1], curve[row]) == Point(0.0, 0.0);
    }
    ZeroDot(step, Sub(curve[column], point));
  }

  lemma ZeroDot(a: Point, b: Point)
    requires a == Point(0.0, 0.0)
    ensures Dot(a, b) == 0.0
  {
  }

  /** Sums of contributions from a table of zeros are 0. */
  lemma {:induction false} ZeroPartialY(cd: seq<seq<real>>, n: nat, k: nat, i0: nat)
    requires 1 <= n <= 3 && Shaped(cd, n) && k < 2 * n
    requires Lb(n, k) <= i0 <= Ub(n, k) + 1
    requires forall row, column :: 0 <= row < n && 0 <= column <= n ==> cd[row][column] == 0.0
    ensures PartialY(cd, n, k, i0) == 0.0
    decreases i0
  {
    if i0 > Lb(n, k) {
      ZeroPartialY(cd, n, k, i0 - 1);
      assert cd[k - (i0 - 1)][i0 - 1] == 0.0;
    }
  }
}
