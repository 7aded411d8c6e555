/**
 * De Casteljau evaluation and subdivision of a Bezier curve of any degree
 * (jsplumb.JsBezier.bezier). A curve is the sequence of its control points;
 * its degree is the length of that sequence minus one.
 *
 * The specification is the triangle of De Casteljau's recurrence: row 0 is
 * the curve, and each cell of row i is the interpolation at `t` between two
 * neighbouring cells of row i - 1. The point on the curve is the apex, the
 * left half of the subdivision is the first column and the right half the
 * anti-diagonal.
 */
module DeCasteljau {
  import opened Vectors

  /** The row below `row` in De Casteljau's triangle. */
  function LerpRow(row: seq<Point>, t: real): (r: seq<Point>)
    requires |row| >= 1
    ensures |r| == |row| - 1
  {
    seq(|row| - 1, j requires 0 <= j < |row| - 1 => Lerp(row[j], row[j + 1], t))
  }

  /** Row `i` of De Casteljau's triangle for `curve` at `t`. */
  function Level(curve: seq<Point>, t: real, i: nat): (r: seq<Point>)
    requires i < |curve|
    ensures |r| == |curve| - i
    decreases i
  {
    if i == 0 then curve else LerpRow(Level(curve, t, i - 1), t)
  }

  /** The point of `curve` at parameter `t`: the apex of the triangle. */
  function Eval(curve: seq<Point>, t: real): Point
    requires |curve| >= 1
  {
    Level(curve, t, |curve| - 1)[0]
  }

  /**
   * The control points of the part of `curve` over [0, t] (LeftHalfEval):
   * the first cell of every row, row 0 first (LeftHalfAt).
   */
  function LeftHalf(curve: seq<Point>, t: real): (r: seq<Point>)
    requires |curve| >= 1
    ensures |r| == |curve|
  {
    FirstColumn(curve, t, |curve|)
  }

  /** The first cells of rows 0 .. k - 1. */
  function FirstColumn(curve: seq<Point>, t: real, k: nat): (r: seq<Point>)
    requires k <= |curve|
    ensures |r| == k
  {
    if k == 0 then [] else FirstColumn(curve, t, k - 1) + [Level(curve, t, k - 1)[0]]
  }

  /**
   * The control points of the part of `curve` over [t, 1] (RightHalfEval):
   * the last cell of every row, from the apex down to row 0 (RightHalfAt).
   */
  function RightHalf(curve: seq<Point>, t: real): (r: seq<Point>)
    requires |curve| >= 1
    ensures |r| == |curve|
  {
    AntiDiagonal(curve, t, |curve|)
  }

  /** The last cells of rows |curve| - 1 down to |curve| - k. */
  function AntiDiagonal(curve: seq<Point>, t: real, k: nat): (r: seq<Point>)
    requires k <= |curve|
    ensures |r| == k
  {
    if k == 0 then [] else AntiDiagonal(curve, t, k - 1) + [Level(curve, t, |curve| - k)[k - 1]]
  }

  /** Control point j of the left half is the first cell of row j. */
  lemma {:induction false} LeftHalfAt(curve: seq<Point>, t: real, j: nat)
    requires j < |curve|
    ensures LeftHalf(curve, t)[j] == Level(curve, t, j)[0]
  {
    FirstColumnAt(curve, t, |curve|, j);
  }

  lemma {:induction false} FirstColumnAt(curve: seq<Point>, t: real, k: nat, j: nat)
    requires j < k <= |curve|
    ensures FirstColumn(curve, t, k)[j] == Level(curve, t, j)[0]
  {
    if j < k - 1 {
      FirstColumnAt(curve, t, k - 1, j);
    }
  }

  /** Control point j of the right half is cell j of row |curve| - 1 - j. */
  lemma {:induction false} RightHalfAt(curve: seq<Point>, t: real, j: nat)
    requires j < |curve|
    ensures RightHalf(curve, t)[j] == Level(curve, t, |curve| - 1 - j)[j]
  {
    AntiDiagonalAt(curve, t, |curve|, j);
  }

  lemma {:induction false} AntiDiagonalAt(curve: seq<Point>, t: real, k: nat, j: nat)
    requires j < k <= |curve|
    ensures AntiDiagonal(curve, t, k)[j] == Level(curve, t, |curve| - 1 - j)[j]
  {
    if j < k - 1 {
      AntiDiagonalAt(curve, t, k - 1, j);
    }
  }

  /**
   * The halves share the end points of the curve and meet at the point on
   * the curve: left[0] = curve[0], right[n] = curve[n], left[n] = right[0]
   * = Eval(curve, t).
   */
  lemma HalvesShareEndpoints(curve: seq<Point>, t: real)
    requires |curve| >= 1
    ensures LeftHalf(curve, t)[0] == curve[0]
    ensures RightHalf(curve, t)[|curve| - 1] == curve[|curve| - 1]
    ensures LeftHalf(curve, t)[|curve| - 1] == Eval(curve, t)
    ensures RightHalf(curve, t)[0] == Eval(curve, t)
  {
    var n := |curve| - 1;
    LeftHalfAt(curve, t, 0);
    LeftHalfAt(curve, t, n);
    RightHalfAt(curve, t, 0);
    RightHalfAt(curve, t, n);
  }

  /**
   * jsplumb.JsBezier.bezier: fills the triangle row by row into a table and
   * returns its apex; when the caller passes arrays for the halves, the left
   * one receives the first column and the right one the anti-diagonal, the
   * control points of the curve over [0, t] and over [t, 1] (LeftHalfEval,
   * RightHalfEval). The curve itself is a sequence and cannot change.
   */
  method Bezier(curve: seq<Point>, t: real, left: array?<Point>, right: array?<Point>) returns (p: Point)
    requires |curve| >= 1
    requires left != null ==> left.Length == |curve|
    requires right != null ==> right.Length == |curve|
    requires left != null && right != null ==> left != right
    modifies left, right
    ensures p == Eval(curve, t)
    ensures left != null ==> left[..] == LeftHalf(curve, t)
    ensures right != null ==> right[..] == RightHalf(curve, t)
  {
    var degree := |curve| - 1;
    var temp := FillTriangle(curve, t);
    if left != null {
      ghost var half := LeftHalf(curve, t);
      for j := 0 to degree + 1
        modifies left
        invariant forall k :: 0 <= k < j ==> left[k] == half[k]
      {
        LeftHalfAt(curve, t, j);
        left[j] := temp[j, 0];
      }
      assert left[..] == half;
    }
    if right != null {
      ghost var half := RightHalf(curve, t);
      for j := 0 to degree + 1
        modifies right
        invariant forall k :: 0 <= k < j ==> right[k] == half[k]
      {
        RightHalfAt(curve, t, j);
        right[j] := temp[degree - j, j];
      }
      assert right[..] == half;
    }
    p := temp[degree, 0];
  }

  /** The table `temp` of jsplumb.JsBezier.bezier: cell (i, j) of a fresh table holds cell j of row i. */
  method FillTriangle(curve: seq<Point>, t: real) returns (temp: array2<Point>)
    requires |curve| >= 1
    ensures fresh(temp)
    ensures temp.Length0 == temp.Length1 == |curve|
    ensures forall i, j {:trigger temp[i, j]} :: 0 <= i < |curve| && 0 <= j < |curve| - i ==> temp[i, j] == Level(curve, t, i)[j]
  {
    var degree := |curve| - 1;
    temp := new Point[degree + 1, degree + 1];
    for j := 0 to degree + 1
      invariant forall k :: 0 <= k < j ==> temp[0, k] == curve[k]
    {
      temp[0, j] := curve[j];
    }
    for i := 1 to degree + 1
      invariant forall r, k {:trigger temp[r, k]} :: 0 <= r < i && 0 <= k <= degree - r ==> temp[r, k] == Level(curve, t, r)[k]
    {
      FillRow(temp, curve, t, i);
    }
  }

  /** One pass of the outer loop of jsplumb.JsBezier.bezier: fills row `i` of the table from row i - 1. */
  method FillRow(temp: array2<Point>, curve: seq<Point>, t: real, i: nat)
    requires 1 <= i < |curve| && temp.Length0 == temp.Length1 == |curve|
    requires forall k {:trigger temp[i - 1, k]} :: 0 <= k < |curve| - i + 1 ==> temp[i - 1, k] == Level(curve, t, i - 1)[k]
    modifies temp
    ensures forall k :: 0 <= k < |curve| - i ==> temp[i, k] == Level(curve, t, i)[k]
    ensures forall r, k {:trigger temp[r, k]} :: 0 <= r < |curve| && 0 <= k < |curve| && r != i ==> temp[r, k] == old(temp[r, k])
  {
    var degree := |curve| - 1;
    for j := 0 to degree - i + 1
      invariant forall r, k {:trigger temp[r, k]} :: 0 <= r < |curve| && 0 <= k < |curve| && r != i ==> temp[r, k] == old(temp[r, k])
      invariant forall k :: 0 <= k < j ==> temp[i, k] == Level(curve, t, i)[k]
    {
      temp[i, j] := Lerp(temp[i - 1, j], temp[i - 1, j + 1], t);
    }
  }

  /** At t = 0 every row of the triangle is a prefix of the curve. */
  lemma {:induction false} LevelAtZero(curve: seq<Point>, i: nat)
    requires i < |curve|
    ensures Level(curve, 0.0, i) == curve[..|curve| - i]
  {
    if i > 0 {
      LevelAtZero(curve, i - 1);
    }
  }

  /** At t = 1 every row of the triangle is a suffix of the curve. */
  lemma {:induction false} LevelAtOne(curve: seq<Point>, i: nat)
    requires i < |curve|
    ensures Level(curve, 1.0, i) == curve[i..]
  {
    if i > 0 {
      LevelAtOne(curve, i - 1);
    }
  }

  /** The curve starts at its first control point and ends at its last. */
  lemma EvalEndpoints(curve: seq<Point>)
    requires |curve| >= 1
    ensures Eval(curve, 0.0) == curve[0]
    ensures Eval(curve, 1.0) == curve[|curve| - 1]
  {
    LevelAtZero(curve, |curve| - 1);
    LevelAtOne(curve, |curve| - 1);
  }

  /** Every control point of `s` has its x-coordinate in [lo, hi]. */
  ghost predicate XWithin(s: seq<Point>, lo: real, hi: real) {
    forall k :: 0 <= k < |s| ==> lo <= s[k].x <= hi
  }

  /** For 0 <= t <= 1 every cell of the triangle is a convex combination of control points. */
  lemma {:induction false} LevelXWithin(curve: seq<Point>, t: real, i: nat, lo: real, hi: real)
    requires i < |curve| && 0.0 <= t <= 1.0
    requires XWithin(curve, lo, hi)
    ensures XWithin(Level(curve, t, i), lo, hi)
  {
    if i > 0 {
      LevelXWithin(curve, t, i - 1, lo, hi);
      RowXWithin(Level(curve, t, i - 1), t, lo, hi);
    }
  }

  /** One row of the triangle: interpolation keeps the x-coordinates within [lo, hi]. */
  lemma RowXWithin(row: seq<Point>, t: real, lo: real, hi: real)
    requires |row| >= 1 && 0.0 <= t <= 1.0
    requires XWithin(row, lo, hi)
    ensures XWithin(LerpRow(row, t), lo, hi)
  {
    var next := LerpRow(row, t);
    forall k | 0 <= k < |next|
      ensures lo <= next[k].x <= hi
    {
      assert next[k] == Lerp(row[k], row[k + 1], t);
      LerpPointWithin(row[k], row[k + 1], t, lo, hi);
    }
  }

  lemma LerpPointWithin(p: Point, q: Point, t: real, lo: real, hi: real)
    requires lo <= p.x <= hi && lo <= q.x <= hi && 0.0 <= t <= 1.0
    ensures lo <= Lerp(p, q, t).x <= hi
  {
    LerpWithin(p.x, q.x, t, lo, hi);
  }

  lemma LerpWithin(a: real, b: real, t: real, lo: real, hi: real)
    requires lo <= a <= hi && lo <= b <= hi && 0.0 <= t <= 1.0
    ensures lo <= (1.0 - t) * a + t * b <= hi
  {
    assert (1.0 - t) * a >= (1.0 - t) * lo && (1.0 - t) * a <= (1.0 - t) * hi;
    assert t * b >= t * lo && t * b <= t * hi;
  }

  /** Subdividing at 0 <= t <= 1 keeps both halves inside the x-range of the curve. */
  lemma HalvesXWithin(curve: seq<Point>, t: real, lo: real, hi: real)
    requires |curve| >= 1 && 0.0 <= t <= 1.0
    requires XWithin(curve, lo, hi)
    ensures XWithin(LeftHalf(curve, t), lo, hi)
    ensures XWithin(RightHalf(curve, t), lo, hi)
  {
    forall j | 0 <= j < |curve|
      ensures lo <= LeftHalf(curve, t)[j].x <= hi && lo <= RightHalf(curve, t)[j].x <= hi
    {
      LevelXWithin(curve, t, j, lo, hi);
      LevelXWithin(curve, t, |curve| - 1 - j, lo, hi);
      LeftHalfAt(curve, t, j);
      RightHalfAt(curve, t, j);
    }
  }

  /** Row i of the triangle over the part curve[a..b] is the matching part of row i over the whole curve. */
  lemma {:induction false} LevelOfSlice(curve: seq<Point>, t: real, a: nat, b: nat, i: nat)
    requires a <= b <= |curve| && i < b - a
    ensures Level(curve[a..b], t, i) == Level(curve, t, i)[a..b - i]
    decreases i
  {
    if i > 0 {
      var prev := Level(curve, t, i - 1);
      assert Level(curve[a..b], t, i - 1) == prev[a..b - i + 1] by {
        LevelOfSlice(curve, t, a, b, i - 1);
      }
      LerpRowOfSlice(prev, t, a, b - i + 1);
    }
  }

  /** The row below a part of a row is the matching part of the row below. */
  lemma LerpRowOfSlice(row: seq<Point>, t: real, a: nat, b: nat)
    requires a < b <= |row|
    ensures LerpRow(row[a..b], t) == LerpRow(row, t)[a..b - 1]
  {
    var lhs, rhs := LerpRow(row[a..b], t), LerpRow(row, t)[a..b - 1];
    forall k | 0 <= k < b - a - 1
      ensures lhs[k] == rhs[k]
    {
      assert rhs[k] == LerpRow(row, t)[a + k];
    }
  }

  /** Cell k of row i without the last control point is cell k of row i. */
  lemma FrontCell(curve: seq<Point>, t: real, i: nat, k: nat)
    requires i + k < |curve| - 1
    ensures Level(curve[..|curve| - 1], t, i)[k] == Level(curve, t, i)[k]
  {
    assert curve[0..|curve| - 1] == curve[..|curve| - 1];
    LevelOfSlice(curve, t, 0, |curve| - 1, i);
  }

  /** Cell k of row i without the first control point is cell k + 1 of row i. */
  lemma BackCell(curve: seq<Point>, t: real, i: nat, k: nat)
    requires i + k < |curve| - 1
    ensures Level(curve[1..], t, i)[k] == Level(curve, t, i)[k + 1]
  {
    assert curve[1..|curve|] == curve[1..];
    LevelOfSlice(curve, t, 1, |curve|, i);
  }

  /** Cell j of row i is the point at t of the part of the curve from control point j to control point j + i. */
  lemma SubCurveEval(curve: seq<Point>, t: real, i: nat, j: nat)
    requires i + j < |curve|
    ensures Level(curve, t, i)[j] == Eval(curve[j..j + i + 1], t)
  {
    LevelOfSlice(curve, t, j, j + i + 1, i);
  }

  /**
   * The last step of the recurrence: the point at t interpolates, at t, the
   * points of the curve without its last and without its first control point.
   */
  lemma EvalSplit(curve: seq<Point>, t: real)
    requires |curve| >= 2
    ensures Eval(curve, t) == Lerp(Eval(curve[..|curve| - 1], t), Eval(curve[1..], t), t)
  {
    var n := |curve| - 1;
    var prev := Level(curve, t, n - 1);
    assert Eval(curve, t) == Lerp(prev[0], prev[1], t);
    SubCurveEval(curve, t, n - 1, 0);
    SubCurveEval(curve, t, n - 1, 1);
    assert curve[0..n] == curve[..n];
    assert curve[1..n + 1] == curve[1..];
  }

  /** The curve whose control points interpolate, at u, those of `a` and `b`. */
  function Mix(a: seq<Point>, b: seq<Point>, u: real): (r: seq<Point>)
    requires |a| == |b|
    ensures |r| == |a|
  {
    seq(|a|, k requires 0 <= k < |a| => Lerp(a[k], b[k], u))
  }

  /** The triangle is linear in the control points: the triangle of a Mix is the Mix of the triangles. */
  lemma {:induction false} LevelOfMix(a: seq<Point>, b: seq<Point>, u: real, s: real, i: nat)
    requires |a| == |b| && i < |a|
    ensures Level(Mix(a, b, u), s, i) == Mix(Level(a, s, i), Level(b, s, i), u)
    decreases i
  {
    if i > 0 {
      LevelOfMix(a, b, u, s, i - 1);
      var pa, pb := Level(a, s, i - 1), Level(b, s, i - 1);
      var row := Level(Mix(a, b, u), s, i);
      forall k | 0 <= k < |a| - i
        ensures row[k] == Mix(Level(a, s, i), Level(b, s, i), u)[k]
      {
        assert row[k] == Lerp(Lerp(pa[k], pb[k], u), Lerp(pa[k + 1], pb[k + 1], u), s);
        assert Level(a, s, i)[k] == Lerp(pa[k], pa[k + 1], s);
        assert Level(b, s, i)[k] == Lerp(pb[k], pb[k + 1], s);
        LerpsCommute(pa[k], pb[k], pa[k + 1], pb[k + 1], u, s);
      }
    }
  }

  /** The point at s of a Mix is the Mix of the points at s. */
  lemma EvalOfMix(a: seq<Point>, b: seq<Point>, u: real, s: real)
    requires |a| == |b| >= 1
    ensures Eval(Mix(a, b, u), s) == Lerp(Eval(a, s), Eval(b, s), u)
  {
    LevelOfMix(a, b, u, s, |a| - 1);
  }

  lemma LerpsCommute(p: Point, q: Point, p': Point, q': Point, u: real, s: real)
    ensures Lerp(Lerp(p, q, u), Lerp(p', q', u), s) == Lerp(Lerp(p, p', s), Lerp(q, q', s), u)
  {
    var l, r := Lerp(Lerp(p, q, u), Lerp(p', q', u), s), Lerp(Lerp(p, p', s), Lerp(q, q', s), u);
    assert l.x == r.x by {
      RealLerpsCommute(p.x, q.x, p'.x, q'.x, u, s);
    }
    assert l.y == r.y by {
      RealLerpsCommute(p.y, q.y, p'.y, q'.y, u, s);
    }
  }

  lemma RealLerpsCommute(a: real, b: real, c: real, d: real, u: real, s: real)
    ensures (1.0 - s) * ((1.0 - u) * a + u * b) + s * ((1.0 - u) * c + u * d)
         == (1.0 - u) * ((1.0 - s) * a + s * c) + u * ((1.0 - s) * b + s * d)
  {
  }

  /**
   * The left half is the curve over [0, t]: at s it is the point of the
   * curve at t s.
   */
  lemma {:induction false} LeftHalfEval(curve: seq<Point>, t: real, s: real)
    requires |curve| >= 1
    ensures Eval(LeftHalf(curve, t), s) == Eval(curve, t * s)
    decreases |curve|
  {
    var n := |curve| - 1;
    var l := LeftHalf(curve, t);
    if n == 0 {
      LeftHalfAt(curve, t, 0);
      assert l == curve;
    } else {
      var front, back := curve[..n], curve[1..];
      var lf, lb := LeftHalf(front, t), LeftHalf(back, t);
      forall j | 0 <= j < n
        ensures l[j] == lf[j] && l[j + 1] == Lerp(lf[j], lb[j], t)
      {
        LeftHalfStep(curve, t, j);
      }
      assert l[..n] == lf;
      assert l[1..] == Mix(lf, lb, t);
      LeftHalfEval(front, t, s);
      LeftHalfEval(back, t, s);
      EvalSplit(l, s);
      EvalOfMix(lf, lb, t, s);
      EvalSplit(curve, t * s);
      LerpTowardStart(Eval(front, t * s), Eval(back, t * s), t, s);
    }
  }

  /**
   * The right half is the curve over [t, 1]: at s it is the point of the
   * curve at t + (1 - t) s.
   */
  lemma {:induction false} RightHalfEval(curve: seq<Point>, t: real, s: real)
    requires |curve| >= 1
    ensures Eval(RightHalf(curve, t), s) == Eval(curve, t + (1.0 - t) * s)
    decreases |curve|
  {
    var n := |curve| - 1;
    var r := RightHalf(curve, t);
    if n == 0 {
      RightHalfAt(curve, t, 0);
      assert r == curve;
    } else {
      var front, back := curve[..n], curve[1..];
      var rf, rb := RightHalf(front, t), RightHalf(back, t);
      forall j | 0 <= j < n
        ensures r[j] == Lerp(rf[j], rb[j], t) && r[j + 1] == rb[j]
      {
        RightHalfStep(curve, t, j);
      }
      assert r[..n] == Mix(rf, rb, t);
      assert r[1..] == rb;
      var u := t + (1.0 - t) * s;
      RightHalfEval(front, t, s);
      RightHalfEval(back, t, s);
      EvalSplit(r, s);
      EvalOfMix(rf, rb, t, s);
      EvalSplit(curve, u);
      LerpTowardEnd(Eval(front, u), Eval(back, u), t, s);
    }
  }

  /** Control points j and j + 1 of the left half, from the left halves of curve[..n] and curve[1..]. */
  lemma LeftHalfStep(curve: seq<Point>, t: real, j: nat)
    requires j < |curve| - 1
    ensures var n := |curve| - 1;
      LeftHalf(curve, t)[j] == LeftHalf(curve[..n], t)[j] &&
      LeftHalf(curve, t)[j + 1] == Lerp(LeftHalf(curve[..n], t)[j], LeftHalf(curve[1..], t)[j], t)
  {
    var n := |curve| - 1;
    var front, back := curve[..n], curve[1..];
    var row := Level(curve, t, j);
    assert LeftHalf(curve, t)[j] == LeftHalf(front, t)[j] by {
      LeftHalfAt(curve, t, j);
      LeftHalfAt(front, t, j);
      FrontCell(curve, t, j, 0);
    }
    assert LeftHalf(front, t)[j] == row[0] by {
      LeftHalfAt(front, t, j);
      FrontCell(curve, t, j, 0);
    }
    assert LeftHalf(back, t)[j] == row[1] by {
      LeftHalfAt(back, t, j);
      BackCell(curve, t, j, 0);
    }
    assert LeftHalf(curve, t)[j + 1] == Lerp(row[0], row[1], t) by {
      LeftHalfAt(curve, t, j + 1);
    }
  }

  /** Control points j and j + 1 of the right half, from the right halves of curve[..n] and curve[1..]. */
  lemma RightHalfStep(curve: seq<Point>, t: real, j: nat)
    requires j < |curve| - 1
    ensures var n := |curve| - 1;
      RightHalf(curve, t)[j] == Lerp(RightHalf(curve[..n], t)[j], RightHalf(curve[1..], t)[j], t) &&
      RightHalf(curve, t)[j + 1] == RightHalf(curve[1..], t)[j]
  {
    var n := |curve| - 1;
    var front, back := curve[..n], curve[1..];
    var row := Level(curve, t, n - 1 - j);
    assert RightHalf(front, t)[j] == row[j] by {
      RightHalfAt(front, t, j);
      FrontCell(curve, t, n - 1 - j, j);
    }
    assert RightHalf(back, t)[j] == row[j + 1] by {
      RightHalfAt(back, t, j);
      BackCell(curve, t, n - 1 - j, j);
    }
    assert RightHalf(curve, t)[j] == Lerp(row[j], row[j + 1], t) by {
      RightHalfAt(curve, t, j);
    }
    assert RightHalf(curve, t)[j + 1] == row[j + 1] by {
      RightHalfAt(curve, t, j + 1);
    }
  }

  lemma LerpTowardStart(p: Point, q: Point, t: real, s: real)
    ensures Lerp(p, Lerp(p, q, t), s) == Lerp(p, q, t * s)
  {
    var l, r := Lerp(p, Lerp(p, q, t), s), Lerp(p, q, t * s);
    assert l.x == r.x by {
      RealTowardStart(p.x, q.x, t, s);
    }
    assert l.y == r.y by {
      RealTowardStart(p.y, q.y, t, s);
    }
  }

  lemma RealTowardStart(a: real, b: real, t: real, s: real)
    ensures (1.0 - s) * a + s * ((1.0 - t) * a + t * b) == (1.0 - t * s) * a + (t * s) * b
  {
    assert s * ((1.0 - t) * a + t * b) == s * a - (s * t) * a + (s * t) * b;
  }

  lemma LerpTowardEnd(p: Point, q: Point, t: real, s: real)
    ensures Lerp(Lerp(p, q, t), q, s) == Lerp(p, q, t + (1.0 - t) * s)
  {
    var l, r := Lerp(Lerp(p, q, t), q, s), Lerp(p, q, t + (1.0 - t) * s);
    assert l.x == r.x by {
      RealTowardEnd(p.x, q.x, t, s);
    }
    assert l.y == r.y by {
      RealTowardEnd(p.y, q.y, t, s);
    }
  }

  lemma RealTowardEnd(a: real, b: real, t: real, s: real)
    ensures (1.0 - s) * ((1.0 - t) * a + t * b) + s * b == (1.0 - (t + (1.0 - t) * s)) * a + (t + (1.0 - t) * s) * b
  {
    assert (1.0 - s) * ((1.0 - t) * a + t * b) == (1.0 - s) * (1.0 - t) * a + (1.0 - s) * t * b;
    assert 1.0 - (t + (1.0 - t) * s) == (1.0 - s) * (1.0 - t);
  }

  /** Consecutive x-coordinates of `s` differ by h. */
  ghost predicate Spaced(s: seq<Point>, h: real) {
    forall k :: 0 <= k < |s| - 1 ==> Gap(s, k) == h
  }

  /** The step in x from control point k to control point k + 1. */
  ghost function Gap(s: seq<Point>, k: nat): real
    requires k + 1 < |s|
  {
    s[k + 1].x - s[k].x
  }

  /** Every row of the triangle over a polygon spaced by h is spaced by h. */
  lemma {:induction false} LevelSpaced(w: seq<Point>, t: real, i: nat, h: real)
    requires i < |w| && Spaced(w, h)
    ensures Spaced(Level(w, t, i), h)
  {
    if i > 0 {
      LevelSpaced(w, t, i - 1, h);
      var prev := Level(w, t, i - 1);
      var row := Level(w, t, i);
      forall k | 0 <= k < |row| - 1
        ensures Gap(row, k) == h
      {
        assert Gap(prev, k) == h && Gap(prev, k + 1) == h;
        assert row[k] == Lerp(prev[k], prev[k + 1], t);
        assert row[k + 1] == Lerp(prev[k + 1], prev[k + 2], t);
        LerpSpaced(prev[k], prev[k + 1], prev[k + 2], t, h);
      }
    }
  }

  /** Over a polygon spaced by h, row i of the triangle starts at x0 + i (t h). */
  lemma {:induction false} LevelStart(w: seq<Point>, t: real, i: nat, h: real)
    requires i < |w| && Spaced(w, h)
    ensures Level(w, t, i)[0].x == Start(w[0].x, t * h, i)
  {
    if i > 0 {
      LevelStart(w, t, i - 1, h);
      StartStep(w, t, i, h);
    }
  }

  /** One step of LevelStart: row i starts t h to the right of row i - 1. */
  lemma StartStep(w: seq<Point>, t: real, i: nat, h: real)
    requires 0 < i < |w| && Spaced(w, h)
    ensures Level(w, t, i)[0].x == Level(w, t, i - 1)[0].x + t * h
  {
    LevelSpaced(w, t, i - 1, h);
    var prev := Level(w, t, i - 1);
    assert Gap(prev, 0) == h;
    assert Level(w, t, i)[0] == Lerp(prev[0], prev[1], t);
    LerpStart(prev[0], prev[1], t, h);
  }

  /** x0 + i (t h): where row i of the triangle starts. */
  function Start(x0: real, th: real, i: nat): real {
    if i == 0 then x0 else Start(x0, th, i - 1) + th
  }

  lemma {:induction false} StartIsAffine(x0: real, th: real, i: nat)
    ensures Start(x0, th, i) == x0 + i as real * th
  {
    if i > 0 {
      StartIsAffine(x0, th, i - 1);
    }
  }

  lemma LerpSpaced(p: Point, q: Point, r: Point, t: real, h: real)
    requires q.x - p.x == h && r.x - q.x == h
    ensures Lerp(q, r, t).x - Lerp(p, q, t).x == h
  {
    assert Lerp(q, r, t).x - Lerp(p, q, t).x == (1.0 - t) * (q.x - p.x) + t * (r.x - q.x);
  }

  lemma LerpStart(p: Point, q: Point, t: real, h: real)
    requires q.x - p.x == h
    ensures Lerp(p, q, t).x == p.x + t * h
  {
  }

  /**
   * Over control points whose x-coordinates step evenly from 0 to 1 the
   * curve's x is its parameter: Eval(w, t).x == t.
   */
  lemma EvalOfSpaced(w: seq<Point>, t: real, h: real)
    requires |w| >= 2 && w[0].x == 0.0 && Spaced(w, h) && (|w| - 1) as real * h == 1.0
    ensures Eval(w, t).x == t
  {
    var n := |w| - 1;
    assert Level(w, t, n)[0].x == t by { ApexOfSpaced(w, t, h, n); }
  }

  /** The apex of the triangle over such a polygon has x-coordinate t. */
  lemma ApexOfSpaced(w: seq<Point>, t: real, h: real, n: nat)
    requires n == |w| - 1 && w[0].x == 0.0 && Spaced(w, h) && n as real * h == 1.0
    ensures Level(w, t, n)[0].x == t
  {
    LevelStart(w, t, n, h);
    StartAtLastRow(t, h, n);
  }

  lemma StartAtLastRow(t: real, h: real, n: nat)
    requires n as real * h == 1.0
    ensures Start(0.0, t * h, n) == t
  {
    StartIsAffine(0.0, t * h, n);
    assert n as real * (t * h) == t * (n as real * h);
  }
}
