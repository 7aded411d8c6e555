/**
 * The recursive subdivision root finder of jsplumb.JsBezier (findRoots with
 * its helpers getCrossingCount, isFlatEnough and computeXIntercept). It
 * works on a control polygon in Bezier form whose y-coordinates are the
 * coefficients of a polynomial and whose x-coordinates are the parameters
 * those coefficients sit at.
 *
 * Arithmetic is over exact reals. Where the source divides by zero (a chord
 * whose end points have the same height) IEEE doubles give an infinite or
 * NaN intercept; the consequence for the flatness test is written out
 * below, and computeXIntercept is only specified away from that case.
 */
module RootFinder {
  import opened Vectors
  import opened Wrappers
  import opened DeCasteljau

  /** jsplumb.JsBezier.MAX_RECURSION: the depth from which one crossing is reported without refinement. */
  const MaxRecursion: nat := 64

  /** jsplumb.JsBezier.FLATNESS_TOLERANCE, 2^-MaxRecursion (see FlatnessToleranceValue). */
  const FlatnessTolerance: real := 1.0 / 18446744073709551616.0

  /** 2^k. */
  function Pow2(k: nat): (r: real)
    ensures r >= 1.0
  {
    if k == 0 then 1.0 else 2.0 * Pow2(k - 1)
  }

  /** The tolerance is two to the power of minus the recursion limit. */
  lemma FlatnessToleranceValue()
    ensures FlatnessTolerance == 1.0 / Pow2(MaxRecursion)
    ensures 0.0 < FlatnessTolerance < 1.0
  {
    assert Pow2(8) == 256.0;
    Pow2Sum(8, 8);
    Pow2Sum(16, 16);
    Pow2Sum(32, 32);
  }

  lemma {:induction false} Pow2Sum(a: nat, b: nat)
    ensures Pow2(a + b) == Pow2(a) * Pow2(b)
  {
    if b > 0 {
      Pow2Sum(a, b - 1);
      assert Pow2(a + b) == 2.0 * (Pow2(a) * Pow2(b - 1));
    }
  }

  function Abs(r: real): real {
    if r < 0.0 then -r else r
  }

  // ---------------------------------------------------------------------
  // getCrossingCount
  // ---------------------------------------------------------------------

  /**
   * The sign getCrossingCount gives control point `i`: the first point is
   * positive only when its y is above zero, every later one when its y is
   * at least zero.
   */
  predicate Positive(w: seq<Point>, i: nat)
    requires i < |w|
  {
    if i == 0 then w[0].y > 0.0 else w[i].y >= 0.0
  }

  /** The number of sign changes between consecutive control points among w[0..k]. */
  function CrossingsUpTo(w: seq<Point>, k: nat): (n: nat)
    requires k < |w|
    ensures n <= k
  {
    if k == 0 then 0
    else CrossingsUpTo(w, k - 1) + (if Positive(w, k) != Positive(w, k - 1) then 1 else 0)
  }

  /** The crossing count of the whole polygon. */
  function Crossings(w: seq<Point>): nat
    requires |w| >= 1
  {
    CrossingsUpTo(w, |w| - 1)
  }

  /** jsplumb.JsBezier.getCrossingCount, with the degree taken as |w| - 1. */
  method GetCrossingCount(w: seq<Point>) returns (n: nat)
    requires |w| >= 1
    ensures n == Crossings(w)
    ensures n <= |w| - 1
    ensures (forall i :: 0 <= i < |w| ==> w[i].y > 0.0) ==> n == 0
  {
    n := 0;
    var sign := if w[0].y > 0.0 then 1 else -1;
    var oldSign := sign;
    for i := 1 to |w|
      invariant n == CrossingsUpTo(w, i - 1)
      invariant oldSign == if Positive(w, i - 1) then 1 else -1
    {
      sign := if w[i].y >= 0.0 then 1 else -1;
      if sign != oldSign {
        n := n + 1;
      }
      oldSign := sign;
    }
    if forall i :: 0 <= i < |w| ==> w[i].y > 0.0 {
      NoCrossingsIffConstantSign(w, |w| - 1);
    }
  }

  /** The crossing count is even exactly when the last point has the sign of the first. */
  lemma {:induction false} CrossingsParity(w: seq<Point>, k: nat)
    requires k < |w|
    ensures CrossingsUpTo(w, k) % 2 == 0 <==> Positive(w, k) == Positive(w, 0)
  {
    if k > 0 {
      CrossingsParity(w, k - 1);
    }
  }

  /** No crossing exactly when every point has the sign of the first. */
  lemma {:induction false} NoCrossingsIffConstantSign(w: seq<Point>, k: nat)
    requires k < |w|
    ensures CrossingsUpTo(w, k) == 0 <==> forall i :: 0 <= i <= k ==> Positive(w, i) == Positive(w, 0)
  {
    if k > 0 {
      NoCrossingsIffConstantSign(w, k - 1);
    }
  }

  /** The crossing count reaches its bound k exactly when the signs alternate all along. */
  lemma {:induction false} MaxCrossingsIffAlternating(w: seq<Point>, k: nat)
    requires k < |w|
    ensures CrossingsUpTo(w, k) == k <==> forall i :: 0 < i <= k ==> Positive(w, i) != Positive(w, i - 1)
  {
    if k > 0 {
      MaxCrossingsIffAlternating(w, k - 1);
    }
  }

  // ---------------------------------------------------------------------
  // isFlatEnough
  // ---------------------------------------------------------------------

  /** The line a * x + b * y + c = 0. */
  datatype Line = Line(a: real, b: real, c: real)

  /** The value of a * x + b * y + c at `p`: zero on the line, of one sign on either side. */
  function Side(l: Line, p: Point): real {
    l.a * p.x + l.b * p.y + l.c
  }

  /** The line through the first and the last control point, as isFlatEnough writes it. */
  function Chord(w: seq<Point>): Line
    requires |w| >= 1
  {
    var n := |w| - 1;
    Line(w[0].y - w[n].y, w[n].x - w[0].x, w[0].x * w[n].y - w[n].x * w[0].y)
  }

  /** The value isFlatEnough computes for control point `i`. */
  function ChordValue(w: seq<Point>, i: nat): real
    requires i < |w|
  {
    Side(Chord(w), w[i])
  }

  /** The line of ChordValue passes through the first and the last control point. */
  lemma ChordThroughEnds(w: seq<Point>)
    requires |w| >= 1
    ensures ChordValue(w, 0) == 0.0 && ChordValue(w, |w| - 1) == 0.0
  {
  }

  /** The largest chord value among the interior points w[1..k), or zero if none is larger. */
  function Above(w: seq<Point>, k: nat): (r: real)
    requires k <= |w|
    ensures r >= 0.0
  {
    if k <= 1 then 0.0
    else
      var v := ChordValue(w, k - 1);
      var m := Above(w, k - 1);
      if v > m then v else m
  }

  /** Above is the maximum of zero and the interior chord values. */
  lemma {:induction false} AboveIsMaximum(w: seq<Point>, k: nat)
    requires k <= |w|
    ensures forall i :: 1 <= i < k ==> ChordValue(w, i) <= Above(w, k)
    ensures Above(w, k) == 0.0 || exists i :: 1 <= i < k && ChordValue(w, i) == Above(w, k)
  {
    if k > 1 {
      AboveIsMaximum(w, k - 1);
    }
  }

  /** The smallest chord value among the interior points w[1..k), or zero if none is smaller. */
  function Below(w: seq<Point>, k: nat): (r: real)
    requires k <= |w|
    ensures r <= 0.0
  {
    if k <= 1 then 0.0
    else
      var v := ChordValue(w, k - 1);
      var m := Below(w, k - 1);
      if v < m then v else m
  }

  /** Below is the minimum of zero and the interior chord values. */
  lemma {:induction false} BelowIsMinimum(w: seq<Point>, k: nat)
    requires k <= |w|
    ensures forall i :: 1 <= i < k ==> Below(w, k) <= ChordValue(w, i)
    ensures Below(w, k) == 0.0 || exists i :: 1 <= i < k && ChordValue(w, i) == Below(w, k)
  {
    if k > 1 {
      BelowIsMinimum(w, k - 1);
    }
  }

  /**
   * The flatness criterion: the band between the highest and the lowest
   * interior chord value, measured along the x-axis, is narrower than
   * FlatnessTolerance. A chord whose end points have the same height is
   * never flat enough: there the source divides by zero and the band width
   * it computes is NaN or infinite, and neither is below the tolerance.
   */
  predicate IsFlat(w: seq<Point>)
    requires |w| >= 1
  {
    var n := |w| - 1;
    var det := w[n].y - w[0].y;
    det != 0.0 && (Above(w, n) - Below(w, n)) / Abs(det) < FlatnessTolerance
  }

  /** jsplumb.JsBezier.isFlatEnough, with the degree taken as |w| - 1. */
  method IsFlatEnough(w: seq<Point>) returns (flat: bool)
    requires |w| >= 1
    ensures flat == IsFlat(w)
  {
    var degree := |w| - 1;
    var a := w[0].y - w[degree].y;
    var b := w[degree].x - w[0].x;
    var c := w[0].x * w[degree].y - w[degree].x * w[0].y;
    var maxDistanceAbove, maxDistanceBelow := MaxDistances(w, a, b, c);
    flat := InterceptsClose(a, b, c, maxDistanceAbove, maxDistanceBelow);
    assert Abs(a) == Abs(w[degree].y - w[0].y);
  }

  /**
   * The second half of jsplumb.JsBezier.isFlatEnough: intersects the lines
   * a * x + b * y + c = above and = below, parallel to the chord, with the
   * x-axis and compares the distance between the two intercepts with the
   * tolerance.
   */
  method InterceptsClose(a: real, b: real, c: real, above: real, below: real) returns (flat: bool)
    requires below <= above
    ensures flat == (a != 0.0 && (above - below) / Abs(a) < FlatnessTolerance)
  {
    var a1, b1, c1 := 0.0, 1.0, 0.0;
    var a2, b2 := a, b;
    var det := a1 * b2 - a2 * b1;
    if det == 0.0 {
      // 1.0 / det is infinite: both intercepts are NaN or infinite and so is their distance
      return false;
    }
    var dInv := 1.0 / det;
    var c2 := c - above;
    var intercept1 := (b1 * c2 - b2 * c1) * dInv;
    c2 := c - below;
    var intercept2 := (b1 * c2 - b2 * c1) * dInv;
    var leftIntercept := if intercept1 < intercept2 then intercept1 else intercept2;
    var rightIntercept := if intercept1 < intercept2 then intercept2 else intercept1;
    var error := rightIntercept - leftIntercept;
    BandWidth(intercept1, intercept2, c, above, below, det);
    flat := error < FlatnessTolerance;
  }

  /**
   * The loop of jsplumb.JsBezier.isFlatEnough over the interior control
   * points: the largest and the smallest chord value, starting from zero.
   */
  method MaxDistances(w: seq<Point>, a: real, b: real, c: real) returns (above: real, below: real)
    requires |w| >= 1 && Line(a, b, c) == Chord(w)
    ensures above == Above(w, |w| - 1) && below == Below(w, |w| - 1)
  {
    var degree := |w| - 1;
    above := 0.0;
    below := above;
    var i := 1;
    while i < degree
      invariant 1 <= i <= |w| && (degree >= 1 ==> i <= degree)
      invariant above == Above(w, i) && below == Below(w, i)
    {
      var value := Side(Line(a, b, c), w[i]);
      if value > above {
        above := value;
      } else if value < below {
        below := value;
      }
      i := i + 1;
    }
  }

  /** The two intercepts computed by isFlatEnough lie (above - below) / |det| apart. */
  lemma BandWidth(intercept1: real, intercept2: real, c: real, above: real, below: real, det: real)
    requires det != 0.0 && below <= above
    requires intercept1 == (c - above) * (1.0 / det) && intercept2 == (c - below) * (1.0 / det)
    ensures (if intercept1 < intercept2 then intercept2 - intercept1 else intercept1 - intercept2) == (above - below) / Abs(det)
  {
    var dInv := 1.0 / det;
    assert intercept1 - intercept2 == (below - above) * dInv;
    if det > 0.0 {
      assert (below - above) * dInv == -((above - below) / det);
    } else {
      assert (below - above) * dInv == (above - below) / (-det);
    }
  }

  /** On a flat polygon every interior point is closer to the chord than the tolerance, measured along the x-axis. */
  lemma FlatBoundsChordValues(w: seq<Point>)
    requires |w| >= 1 && IsFlat(w)
    ensures forall i :: 0 < i < |w| - 1 ==> Abs(ChordValue(w, i)) / Abs(w[|w| - 1].y - w[0].y) < FlatnessTolerance
  {
    var n := |w| - 1;
    var d := Abs(w[n].y - w[0].y);
    AboveIsMaximum(w, n);
    BelowIsMinimum(w, n);
    forall i | 0 < i < n
      ensures Abs(ChordValue(w, i)) / d < FlatnessTolerance
    {
      assert Abs(ChordValue(w, i)) <= Above(w, n) - Below(w, n);
      DivideMonotone(Abs(ChordValue(w, i)), Above(w, n) - Below(w, n), d);
    }
  }

  lemma DivideMonotone(a: real, b: real, d: real)
    requires a <= b && d > 0.0
    ensures a / d <= b / d
  {
    assert b / d - a / d == (b - a) / d;
  }

  /** A polygon whose interior points all lie on a chord that is not horizontal is flat enough. */
  lemma CollinearIsFlat(w: seq<Point>)
    requires |w| >= 1
    requires w[|w| - 1].y != w[0].y
    requires forall i :: 0 < i < |w| - 1 ==> ChordValue(w, i) == 0.0
    ensures IsFlat(w)
  {
    var n := |w| - 1;
    AboveIsMaximum(w, n);
    BelowIsMinimum(w, n);
    assert Above(w, n) == 0.0;
    assert Below(w, n) == 0.0;
    assert FlatnessTolerance > 0.0;
  }

  // ---------------------------------------------------------------------
  // computeXIntercept
  // ---------------------------------------------------------------------

  /**
   * jsplumb.JsBezier.computeXIntercept: the x at which the chord from the
   * first to the last control point meets y = 0, that is, the point (r, 0)
   * lies on the line through both.
   */
  function ComputeXIntercept(w: seq<Point>): (r: real)
    requires |w| >= 1 && w[|w| - 1].y != w[0].y
    ensures r == w[0].x - w[0].y * (w[|w| - 1].x - w[0].x) / (w[|w| - 1].y - w[0].y)
  {
    var degree := |w| - 1;
    var xlk, ylk := 1.0, 0.0;
    var xnm, ynm := w[degree].x - w[0].x, w[degree].y - w[0].y;
    var xmk, ymk := w[0].x - 0.0, w[0].y - 0.0;
    var det := xnm * ylk - ynm * xlk;
    var detInv := 1.0 / det;
    var s := (xnm * ymk - ynm * xmk) * detInv;
    0.0 + xlk * s
  }

  /** The point (ComputeXIntercept(w), 0) lies on the chord's line: it is the chord's x-intercept. */
  lemma InterceptOnChord(w: seq<Point>)
    requires |w| >= 1 && w[|w| - 1].y != w[0].y
    ensures var r := ComputeXIntercept(w);
      (r - w[0].x) * (w[|w| - 1].y - w[0].y) == (w[|w| - 1].x - w[0].x) * (0.0 - w[0].y)
  {
    var n := |w| - 1;
    var xnm, ynm := w[n].x - w[0].x, w[n].y - w[0].y;
    assert ComputeXIntercept(w) == w[0].x - xnm * w[0].y / ynm;
  }

  /** When the chord crosses y = 0 between its end points, the intercept lies between their x-coordinates. */
  lemma InterceptBetween(w: seq<Point>, lo: real, hi: real)
    requires |w| >= 1 && w[|w| - 1].y != w[0].y
    requires w[0].y <= 0.0 <= w[|w| - 1].y || w[|w| - 1].y <= 0.0 <= w[0].y
    requires lo <= w[0].x <= hi && lo <= w[|w| - 1].x <= hi
    ensures lo <= ComputeXIntercept(w) <= hi
  {
    var n := |w| - 1;
    var r := ComputeXIntercept(w);
    var lambda := w[0].y / (w[0].y - w[n].y);
    assert 0.0 <= lambda <= 1.0 by {
      if w[0].y - w[n].y > 0.0 {
        assert w[0].y <= w[0].y - w[n].y;
      } else {
        assert w[0].y >= w[0].y - w[n].y;
      }
    }
    assert r == (1.0 - lambda) * w[0].x + lambda * w[n].x;
    LerpWithin(w[0].x, w[n].x, lambda, lo, hi);
  }

  // ---------------------------------------------------------------------
  // findRoots
  // ---------------------------------------------------------------------

  /**
   * The roots findRoots reports for polygon `w` at recursion depth `depth`,
   * left half before right half; None when the subdivision goes deeper than
   * `fuel` further levels. The source has no such bound: a crossing count
   * of two or more subdivides at every depth.
   */
  function Roots(w: seq<Point>, depth: nat, fuel: nat): Option<seq<real>>
    requires |w| >= 1
    decreases fuel
  {
    var leaf := Leaf(w, depth);
    if leaf.Some? then leaf
    else if fuel == 0 then None
    else
      var l := Roots(LeftHalf(w, 0.5), depth + 1, fuel - 1);
      var r := Roots(RightHalf(w, 0.5), depth + 1, fuel - 1);
      if l.Some? && r.Some? then Some(l.value + r.value) else None
  }

  /**
   * The switch on the crossing count in findRoots: the roots reported
   * without subdividing, or None when the polygon must be subdivided.
   */
  function Leaf(w: seq<Point>, depth: nat): Option<seq<real>>
    requires |w| >= 1
  {
    var crossings := Crossings(w);
    if crossings == 0 then Some([])
    else if crossings == 1 && depth >= MaxRecursion then Some([(w[0].x + w[|w| - 1].x) / 2.0])
    else if crossings == 1 && IsFlat(w) then Some([ComputeXIntercept(w)])
    else None
  }

  /**
   * jsplumb.JsBezier.findRoots. The roots the source writes into the
   * caller's array `t` are returned as a sequence, whose length is the
   * count the source returns.
   */
  method FindRoots(w: seq<Point>, depth: nat, fuel: nat) returns (roots: Option<seq<real>>)
    requires |w| >= 1
    ensures roots == Roots(w, depth, fuel)
    decreases fuel
  {
    var degree := |w| - 1;
    var crossings := GetCrossingCount(w);
    if crossings == 0 {
      return Some([]);
    }
    if crossings == 1 {
      if depth >= MaxRecursion {
        return Some([(w[0].x + w[degree].x) / 2.0]);
      }
      var flat := IsFlatEnough(w);
      if flat {
        return Some([ComputeXIntercept(w)]);
      }
    }
    assert Leaf(w, depth).None?;
    if fuel == 0 {
      return None;
    }
    var left := new Point[|w|];
    var right := new Point[|w|];
    var _ := Bezier(w, 0.5, left, right);
    var leftT := FindRoots(left[..], depth + 1, fuel - 1);
    var rightT := FindRoots(right[..], depth + 1, fuel - 1);
    if leftT.None? || rightT.None? {
      return None;
    }
    var t := JoinRoots(leftT.value, rightT.value);
    return Some(t);
  }

  /**
   * The two copy loops that end jsplumb.JsBezier.findRoots: the roots of the
   * left half go to the front of the caller's array, those of the right half
   * after them.
   */
  method JoinRoots(leftT: seq<real>, rightT: seq<real>) returns (roots: seq<real>)
    ensures roots == leftT + rightT
  {
    var leftCount, rightCount := |leftT|, |rightT|;
    var t := new real[leftCount + rightCount];
    for i := 0 to leftCount
      invariant forall k :: 0 <= k < i ==> t[k] == leftT[k]
    {
      t[i] := leftT[i];
    }
    for i := 0 to rightCount
      invariant forall k :: 0 <= k < leftCount ==> t[k] == leftT[k]
      invariant forall k :: 0 <= k < i ==> t[leftCount + k] == rightT[k]
    {
      t[i + leftCount] := rightT[i];
    }
    assert t[..] == leftT + rightT;
    roots := t[..];
  }

  /** More fuel never changes an answer that was reached with less. */
  lemma {:induction false} RootsFuelMonotone(w: seq<Point>, depth: nat, fuel: nat, more: nat)
    requires |w| >= 1 && fuel <= more
    requires Roots(w, depth, fuel).Some?
    ensures Roots(w, depth, more) == Roots(w, depth, fuel)
    decreases fuel
  {
    if Leaf(w, depth).None? {
      var lh, rh := LeftHalf(w, 0.5), RightHalf(w, 0.5);
      assert Roots(lh, depth + 1, fuel - 1).Some? && Roots(rh, depth + 1, fuel - 1).Some?;
      RootsFuelMonotone(lh, depth + 1, fuel - 1, more - 1);
      RootsFuelMonotone(rh, depth + 1, fuel - 1, more - 1);
    }
  }

  /** Every number of `s` lies in [lo, hi]. */
  ghost predicate AllWithin(s: seq<real>, lo: real, hi: real) {
    forall k :: 0 <= k < |s| ==> lo <= s[k] <= hi
  }

  /** Every reported root lies within the x-range of the polygon's control points. */
  lemma {:induction false} RootsWithin(w: seq<Point>, depth: nat, fuel: nat, lo: real, hi: real)
    requires |w| >= 1 && XWithin(w, lo, hi)
    requires Roots(w, depth, fuel).Some?
    ensures AllWithin(Roots(w, depth, fuel).value, lo, hi)
    decreases fuel
  {
    if Leaf(w, depth).Some? {
      LeafWithin(w, depth, lo, hi);
    } else {
      var lh, rh := LeftHalf(w, 0.5), RightHalf(w, 0.5);
      HalvesXWithin(w, 0.5, lo, hi);
      RootsWithin(lh, depth + 1, fuel - 1, lo, hi);
      RootsWithin(rh, depth + 1, fuel - 1, lo, hi);
      var l, r := Roots(lh, depth + 1, fuel - 1).value, Roots(rh, depth + 1, fuel - 1).value;
      assert Roots(w, depth, fuel).value == l + r;
      assert forall k :: 0 <= k < |l + r| ==> (l + r)[k] == if k < |l| then l[k] else r[k - |l|];
    }
  }

  /** A root reported without subdividing lies within the x-range of the control points. */
  lemma LeafWithin(w: seq<Point>, depth: nat, lo: real, hi: real)
    requires |w| >= 1 && XWithin(w, lo, hi)
    requires Leaf(w, depth).Some?
    ensures AllWithin(Leaf(w, depth).value, lo, hi)
  {
    var n := |w| - 1;
    var crossings := Crossings(w);
    if crossings == 1 && depth < MaxRecursion && IsFlat(w) {
      CrossingsParity(w, n);
      InterceptBetween(w, lo, hi);
    }
  }

  /**
   * A degree-5 polygon whose heights are s * (-1, 2, -4, 8, -16, 32), the
   * Bernstein coefficients of a multiple of (t - 1/3)^5: five sign changes
   * and a quintuple root.
   */
  ghost predicate QuinticRootPolygon(w: seq<Point>, s: real) {
    |w| == 6 && s > 0.0 &&
    w[0].y == -s && w[1].y == 2.0 * s && w[2].y == -4.0 * s &&
    w[3].y == 8.0 * s && w[4].y == -16.0 * s && w[5].y == 32.0 * s
  }

  /**
   * findRoots never finishes on such a polygon: every crossing count is
   * five, so neither the depth limit nor the flatness test applies, and the
   * right half of its left half is the same polygon scaled by 1/1024. No
   * amount of fuel is enough.
   */
  lemma {:induction false} QuinticRootNeverFinishes(w: seq<Point>, s: real, depth: nat, fuel: nat)
    requires QuinticRootPolygon(w, s)
    ensures Roots(w, depth, fuel) == None
    decreases fuel
  {
    if fuel >= 2 {
      QuinticRepeats(w, s);
      QuinticRootNeverFinishes(RightHalf(LeftHalf(w, 0.5), 0.5), s / 1024.0, depth + 2, fuel - 2);
    }
    QuinticStep(w, s, depth, fuel);
  }

  /** The right half of the left half of such a polygon is another one, scaled by 1/1024. */
  lemma QuinticRepeats(w: seq<Point>, s: real)
    requires QuinticRootPolygon(w, s)
    ensures QuinticRootPolygon(RightHalf(LeftHalf(w, 0.5), 0.5), s / 1024.0)
  {
    QuinticLeftHalf(w, s);
    QuinticLeftRight(LeftHalf(w, 0.5), s);
  }

  /**
   * Two levels of findRoots on such a polygon: it and its left half are
   * subdivided, so the search fails when the fuel runs out within two
   * levels or when it fails on the right half of the left half.
   */
  lemma QuinticStep(w: seq<Point>, s: real, depth: nat, fuel: nat)
    requires QuinticRootPolygon(w, s)
    requires fuel >= 2 ==> Roots(RightHalf(LeftHalf(w, 0.5), 0.5), depth + 2, fuel - 2).None?
    ensures Roots(w, depth, fuel).None?
  {
    assert |w| >= 1 && Leaf(w, depth).None? && Leaf(LeftHalf(w, 0.5), depth + 1).None? by {
      QuinticLeftHalf(w, s);
      QuinticSubdivides(w, s, depth);
    }
    TwoLevelsFail(w, depth, fuel);
  }

  /** A polygon subdivided twice over its left side fails when the right half of its left half does. */
  lemma TwoLevelsFail(w: seq<Point>, depth: nat, fuel: nat)
    requires |w| >= 1 && Leaf(w, depth).None? && Leaf(LeftHalf(w, 0.5), depth + 1).None?
    requires fuel >= 2 ==> Roots(RightHalf(LeftHalf(w, 0.5), 0.5), depth + 2, fuel - 2).None?
    ensures Roots(w, depth, fuel).None?
  {
    if fuel >= 1 {
      SubdivisionFails(LeftHalf(w, 0.5), depth + 1, fuel - 1);
    }
    SubdivisionFails(w, depth, fuel);
  }

  /** Neither such a polygon nor its left half yields a leaf: both have five crossings. */
  lemma QuinticSubdivides(w: seq<Point>, s: real, depth: nat)
    requires QuinticRootPolygon(w, s)
    requires var l := LeftHalf(w, 0.5);
      l[0].y == -s && l[1].y == s / 2.0 && l[2].y == -s / 4.0 &&
      l[3].y == s / 8.0 && l[4].y == -s / 16.0 && l[5].y == s / 32.0
    ensures Leaf(w, depth).None? && Leaf(LeftHalf(w, 0.5), depth + 1).None?
  {
    AlternatingCrossings(w);
    AlternatingCrossings(LeftHalf(w, 0.5));
  }

  /**
   * A polygon that has to be subdivided has no roots within the fuel when
   * the fuel is used up or either half has none.
   */
  lemma SubdivisionFails(w: seq<Point>, depth: nat, fuel: nat)
    requires |w| >= 1 && Leaf(w, depth).None?
    requires fuel == 0 || Roots(LeftHalf(w, 0.5), depth + 1, fuel - 1).None? || Roots(RightHalf(w, 0.5), depth + 1, fuel - 1).None?
    ensures Roots(w, depth, fuel).None?
  {
  }

  /** The heights of the left half at 1/2 of such a polygon: s * (-1, 1/2, -1/4, 1/8, -1/16, 1/32). */
  lemma QuinticLeftHalf(w: seq<Point>, s: real)
    requires QuinticRootPolygon(w, s)
    ensures var l := LeftHalf(w, 0.5);
      l[0].y == -s && l[1].y == s / 2.0 && l[2].y == -s / 4.0 &&
      l[3].y == s / 8.0 && l[4].y == -s / 16.0 && l[5].y == s / 32.0
  {
    LeftHalfAt(w, 0.5, 0);
    LeftHalfAt(w, 0.5, 1);
    LeftHalfAt(w, 0.5, 2);
    LeftHalfAt(w, 0.5, 3);
    LeftHalfAt(w, 0.5, 4);
    LeftHalfAt(w, 0.5, 5);
  }

  /** The right half at 1/2 of that left half is the original polygon scaled by 1/1024. */
  lemma QuinticLeftRight(l: seq<Point>, s: real)
    requires |l| == 6 && s > 0.0
    requires l[0].y == -s && l[1].y == s / 2.0 && l[2].y == -s / 4.0
    requires l[3].y == s / 8.0 && l[4].y == -s / 16.0 && l[5].y == s / 32.0
    ensures QuinticRootPolygon(RightHalf(l, 0.5), s / 1024.0)
  {
    RightHalfAt(l, 0.5, 0);
    RightHalfAt(l, 0.5, 1);
    RightHalfAt(l, 0.5, 2);
    RightHalfAt(l, 0.5, 3);
    RightHalfAt(l, 0.5, 4);
    RightHalfAt(l, 0.5, 5);
  }

  /** Every control point is off the axis and each is on the other side from the one before. */
  ghost predicate SignsAlternate(w: seq<Point>) {
    (forall i :: 0 <= i < |w| ==> w[i].y != 0.0) &&
    forall i :: 0 < i < |w| ==> (w[i].y > 0.0 <==> w[i - 1].y < 0.0)
  }

  /** Strictly alternating heights give the largest crossing count, the degree. */
  lemma AlternatingCrossings(w: seq<Point>)
    requires |w| >= 1 && SignsAlternate(w)
    ensures Crossings(w) == |w| - 1
  {
    MaxCrossingsIffAlternating(w, |w| - 1);
  }

  // ---------------------------------------------------------------------
  // A polygon of zero heights
  // ---------------------------------------------------------------------

  /**
   * Every height is 0, as for the polygon of a curve whose control points
   * coincide. The crossing test counts the first point as negative and
   * every later one as positive, so it sees one crossing at every level,
   * while the chord is horizontal and never flat: findRoots halves down to
   * depth MaxRecursion and reports one midpoint per piece. Zeros stay exact
   * under halving, in IEEE arithmetic too.
   */
  ghost predicate ZeroHeights(w: seq<Point>) {
    |w| >= 2 && forall i :: 0 <= i < |w| ==> w[i].y == 0.0
  }

  /** A zero polygon has one crossing. */
  lemma ZeroCrossings(w: seq<Point>)
    requires ZeroHeights(w)
    ensures Crossings(w) == 1
  {
    ZeroCrossingsUpTo(w, |w| - 1);
  }

  lemma {:induction false} ZeroCrossingsUpTo(w: seq<Point>, k: nat)
    requires ZeroHeights(w) && 1 <= k < |w|
    ensures CrossingsUpTo(w, k) == 1
  {
    assert !Positive(w, 0) && Positive(w, 1);
    if k > 1 {
      ZeroCrossingsUpTo(w, k - 1);
      assert Positive(w, k) && Positive(w, k - 1);
    }
  }

  /** findRoots reports a zero polygon's midpoint from depth MaxRecursion on, and subdivides it above that depth. */
  lemma ZeroLeaf(w: seq<Point>, depth: nat)
    requires ZeroHeights(w)
    ensures depth < MaxRecursion ==> Leaf(w, depth) == None
    ensures depth >= MaxRecursion ==> Leaf(w, depth) == Some([(w[0].x + w[|w| - 1].x) / 2.0])
  {
    ZeroCrossings(w);
    assert !IsFlat(w) by {
      assert w[|w| - 1].y == w[0].y;
    }
  }

  /** Both halves of a zero polygon are zero polygons. */
  lemma ZeroHalves(w: seq<Point>, t: real)
    requires ZeroHeights(w)
    ensures ZeroHeights(LeftHalf(w, t)) && ZeroHeights(RightHalf(w, t))
  {
    var n := |w| - 1;
    forall j | 0 <= j < |w|
      ensures LeftHalf(w, t)[j].y == 0.0 && RightHalf(w, t)[j].y == 0.0
    {
      LeftHalfAt(w, t, j);
      RightHalfAt(w, t, j);
      ZeroLevel(w, t, j);
      ZeroLevel(w, t, n - j);
    }
  }

  /** Every row of the triangle of a zero polygon has zero heights. */
  lemma {:induction false} ZeroLevel(w: seq<Point>, t: real, i: nat)
    requires ZeroHeights(w) && i < |w|
    ensures forall j :: 0 <= j < |w| - i ==> Level(w, t, i)[j].y == 0.0
    decreases i
  {
    if i > 0 {
      ZeroLevel(w, t, i - 1);
      var prev := Level(w, t, i - 1);
      forall j | 0 <= j < |w| - i
        ensures Level(w, t, i)[j].y == 0.0
      {
        assert Level(w, t, i)[j] == Lerp(prev[j], prev[j + 1], t);
        assert prev[j].y == 0.0 && prev[j + 1].y == 0.0;
      }
    }
  }

  /** Above depth MaxRecursion - fuel the search on a zero polygon runs out of fuel. */
  lemma {:induction false} ZeroNeedsDepth64(w: seq<Point>, depth: nat, fuel: nat)
    requires ZeroHeights(w) && depth + fuel < MaxRecursion
    ensures Roots(w, depth, fuel) == None
    decreases fuel
  {
    ZeroLeaf(w, depth);
    if fuel > 0 {
      ZeroHalves(w, 0.5);
      ZeroNeedsDepth64(LeftHalf(w, 0.5), depth + 1, fuel - 1);
    }
  }

  /**
   * With exactly enough fuel to reach depth MaxRecursion, the search on a
   * zero polygon at depth d reports 2^(MaxRecursion - d) roots: the whole
   * binary tree of halvings, one midpoint per leaf.
   */
  lemma {:induction false} ZeroRootCount(w: seq<Point>, d: nat)
    requires ZeroHeights(w) && d <= MaxRecursion
    ensures Roots(w, d, MaxRecursion - d).Some?
    ensures |Roots(w, d, MaxRecursion - d).value| as real == Pow2(MaxRecursion - d)
    decreases MaxRecursion - d
  {
    ZeroLeaf(w, d);
    if d < MaxRecursion {
      var fuel := MaxRecursion - d - 1;
      var l := Roots(LeftHalf(w, 0.5), d + 1, fuel);
      var r := Roots(RightHalf(w, 0.5), d + 1, fuel);
      assert l.Some? && r.Some? && |l.value| as real == Pow2(fuel) && |r.value| as real == Pow2(fuel) by {
        ZeroHalves(w, 0.5);
        ZeroRootCount(LeftHalf(w, 0.5), d + 1);
        ZeroRootCount(RightHalf(w, 0.5), d + 1);
      }
      assert Roots(w, d, fuel + 1) == Some(l.value + r.value);
    }
  }
}
