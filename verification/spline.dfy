/**
 * The cubic Hermite path spline `Spline3`: control points sorted by time, the
 * segment search with its wrap-around past the last control point, and the
 * value and derivative of the interpolant.  Times and coordinates are reals.
 */
module Splines {
  import opened Vectors

  /** A control point: its time, its position and its tangent (change of position per unit time). */
  datatype SplinePoint3 = SplinePoint3(t: real, p: Vec3, dp: Vec3)

  /** The order the control points are assumed to be in. */
  ghost predicate StrictlyIncreasing(points: seq<SplinePoint3>) {
    forall i, j :: 0 <= i < j < |points| ==> points[i].t < points[j].t
  }

  /** Time of the first control point; the earliest time when the points are sorted. */
  function MinTime(points: seq<SplinePoint3>): (r: real)
    requires |points| >= 1
    ensures StrictlyIncreasing(points) ==> forall k :: 0 <= k < |points| ==> r <= points[k].t
  {
    points[0].t
  }

  /** Time of the last control point; the latest time when the points are sorted. */
  function MaxTime(points: seq<SplinePoint3>): (r: real)
    requires |points| >= 1
    ensures StrictlyIncreasing(points) ==> forall k :: 0 <= k < |points| ==> points[k].t <= r
  {
    points[|points| - 1].t
  }

  // ---------------------------------------------------------------------------
  // fmod and the wrap-around of findSegment

  function Abs(x: real): real {
    if x < 0.0 then -x else x
  }

  /** Rounding toward zero, as C's fmod does with the quotient. */
  function Trunc(q: real): (n: int)
    ensures 0.0 <= q ==> 0 <= n && n as real <= q < n as real + 1.0
    ensures q <= 0.0 ==> n <= 0 && n as real - 1.0 < q <= n as real
  {
    if q >= 0.0 then
      assert q.Floor as real <= q < q.Floor as real + 1.0;
      q.Floor
    else
      var f := (-q).Floor;
      assert f as real <= -q < f as real + 1.0;
      -f
  }

  lemma MulOrder(y: real, a: real, b: real)
    requires a < b
    ensures 0.0 < y ==> y * a < y * b
    ensures y < 0.0 ==> y * b < y * a
  {
  }

  lemma MulLe(y: real, a: real, b: real)
    requires a <= b
    ensures 0.0 < y ==> y * a <= y * b
    ensures y < 0.0 ==> y * b <= y * a
  {
    if a < b {
      MulOrder(y, a, b);
    }
  }

  // The four sign cases of the remainder x - y * n, where n is the quotient x / y rounded toward zero.

  lemma RemainderPosPos(x: real, y: real, q: real, n: real)
    requires 0.0 < y && x == y * q && 0.0 <= q && n <= q < n + 1.0
    ensures 0.0 <= x && 0.0 <= x - y * n < y
  {
    MulLe(y, 0.0, q);
    var r := q - n;
    assert x - y * n == y * r;
    FractionOfPositive(y, r);
  }

  lemma FractionOfPositive(y: real, r: real)
    requires 0.0 < y && 0.0 <= r < 1.0
    ensures 0.0 <= y * r < y
  {
    MulLe(y, 0.0, r);
    MulOrder(y, r, 1.0);
  }

  lemma FractionOfNegative(y: real, r: real)
    requires y < 0.0 && 0.0 <= r < 1.0
    ensures y < y * r <= 0.0
  {
    MulLe(y, 0.0, r);
    MulOrder(y, r, 1.0);
  }

  lemma RemainderNegPos(x: real, y: real, q: real, n: real)
    requires y < 0.0 && x == y * q && 0.0 <= q && n <= q < n + 1.0
    ensures x <= 0.0 && y < x - y * n <= 0.0
  {
    MulLe(y, 0.0, q);
    var r := q - n;
    assert x - y * n == y * r;
    FractionOfNegative(y, r);
  }

  lemma RemainderPosNeg(x: real, y: real, q: real, n: real)
    requires 0.0 < y && x == y * q && q < 0.0 && n - 1.0 < q <= n
    ensures x < 0.0 && -y < x - y * n <= 0.0
  {
    MulOrder(y, q, 0.0);
    var r := n - q;
    assert x - y * n == -(y * r);
    FractionOfPositive(y, r);
  }

  lemma RemainderNegNeg(x: real, y: real, q: real, n: real)
    requires y < 0.0 && x == y * q && q < 0.0 && n - 1.0 < q <= n
    ensures 0.0 < x && 0.0 <= x - y * n < -y
  {
    MulOrder(y, q, 0.0);
    var r := n - q;
    assert x - y * n == -(y * r);
    FractionOfNegative(y, r);
  }

  lemma FmodBounds(x: real, y: real)
    requires y != 0.0
    ensures var r := x - y * Trunc(x / y) as real;
      (0.0 <= x ==> 0.0 <= r < Abs(y)) && (x <= 0.0 ==> -Abs(y) < r <= 0.0)
  {
    var q := x / y;
    assert x == y * q;
    var n := Trunc(q) as real;
    if 0.0 <= q && 0.0 < y {
      RemainderPosPos(x, y, q, n);
    } else if 0.0 <= q {
      RemainderNegPos(x, y, q, n);
    } else if 0.0 < y {
      RemainderPosNeg(x, y, q, n);
    } else {
      RemainderNegNeg(x, y, q, n);
    }
  }

  /** y taken a whole number n of times. */
  function Multiple(y: real, n: int): real {
    y * n as real
  }

  /** C's fmod(x, y) for y != 0: x less a whole multiple of y, with the sign of x and smaller than |y|. */
  function Fmod(x: real, y: real): (r: real)
    requires y != 0.0
    ensures exists n: int :: x - r == Multiple(y, n)
    ensures 0.0 <= x ==> 0.0 <= r < Abs(y)
    ensures x <= 0.0 ==> -Abs(y) < r <= 0.0
  {
    FmodBounds(x, y);
    var n := Trunc(x / y);
    assert x - (x - y * n as real) == Multiple(y, n);
    x - y * n as real
  }

  /** Adding one period to a non-negative dividend does not change fmod. */
  lemma FmodPeriodic(x: real, y: real)
    requires 0.0 <= x && 0.0 < y
    ensures Fmod(x + y, y) == Fmod(x, y)
  {
    var q := x / y;
    assert x == y * q;
    assert x + y == y * (q + 1.0);
    QuotientOfProduct(x + y, y, q + 1.0);
    var n := Trunc(q);
    assert Trunc(q + 1.0) == n + 1;
    assert y * (n + 1) as real == y * n as real + y;
  }

  lemma QuotientOfProduct(a: real, y: real, c: real)
    requires y != 0.0 && a == y * c
    ensures a / y == c
  {
  }

  /** findSegment's fmod is defined: dividing by a zero maxTime would give NaN. */
  predicate WrapDefined(points: seq<SplinePoint3>, t: real) {
    |points| >= 1 && (t > MaxTime(points) ==> MaxTime(points) != 0.0)
  }

  /** The time findSegment searches for: t itself, or fmod(t, maxTime) when t is past maxTime. */
  function WrappedTime(points: seq<SplinePoint3>, t: real): (r: real)
    requires WrapDefined(points, t)
    ensures t <= MaxTime(points) ==> r == t
    ensures t > MaxTime(points) > 0.0 ==> 0.0 <= r < MaxTime(points)
  {
    if t > MaxTime(points) then Fmod(t, MaxTime(points)) else t
  }

  /** Past maxTime the search time repeats with period maxTime, except at t == maxTime itself. */
  lemma WrappedTimePeriodic(points: seq<SplinePoint3>, t: real)
    requires |points| >= 1 && MaxTime(points) > 0.0
    requires 0.0 < t && t != MaxTime(points)
    ensures WrappedTime(points, t + MaxTime(points)) == WrappedTime(points, t)
  {
    var m := MaxTime(points);
    if t > m {
      FmodPeriodic(t, m);
    } else {
      FmodPeriodic(t, m);
      QuotientBelowOne(t, m);
      assert Trunc(t / m) == 0;
    }
  }

  lemma QuotientBelowOne(a: real, y: real)
    requires 0.0 <= a < y
    ensures 0.0 <= a / y < 1.0
  {
    var q := a / y;
    assert a == y * q;
    if q < 0.0 {
      MulOrder(y, q, 0.0);
    }
    if 1.0 <= q {
      MulLe(y, 1.0, q);
    }
  }

  // ---------------------------------------------------------------------------
  // The segment search

  /** How many control points, counted from the front, have time at most t (stopping at the first later one). */
  function LeadingCount(points: seq<SplinePoint3>, t: real): (n: nat)
    ensures n <= |points|
    ensures forall k :: 0 <= k < n ==> points[k].t <= t
    ensures n < |points| ==> t < points[n].t
  {
    if |points| == 0 || t < points[0].t then 0
    else
      var rest := LeadingCount(points[1..], t);
      assert forall k :: 1 <= k < 1 + rest ==> points[k] == points[1..][k - 1];
      1 + rest
  }

  /**
   * findSegment: wraps t past maxTime with fmod, then counts the leading points
   * whose time is at most the (new) t.  The result is one more than the index
   * of the segment's first point.
   */
  method FindSegment(points: seq<SplinePoint3>, t: real) returns (segment: nat, t': real)
    requires WrapDefined(points, t)
    ensures t' == WrappedTime(points, t)
    ensures segment == LeadingCount(points, t')
    ensures segment <= |points|
    ensures forall k :: 0 <= k < segment ==> points[k].t <= t'
    ensures segment < |points| ==> t' < points[segment].t
  {
    var maxTime := MaxTime(points);
    t' := t;
    if t' > maxTime {
      t' := Fmod(t', maxTime);
    }
    segment := 0;
    var i := 0;
    while i < |points|
      invariant segment == i <= |points|
      invariant forall k :: 0 <= k < i ==> points[k].t <= t'
    {
      if points[i].t <= t' {
        segment := segment + 1;
      } else {
        break;
      }
      i := i + 1;
    }
  }

  /** Monotone: a later search time never gives an earlier segment. */
  lemma {:induction false} LeadingCountMonotone(points: seq<SplinePoint3>, t: real, u: real)
    requires t <= u
    ensures LeadingCount(points, t) <= LeadingCount(points, u)
  {
    if |points| > 0 && points[0].t <= t {
      LeadingCountMonotone(points[1..], t, u);
    }
  }

  /** Number of control points (anywhere in the sequence) whose time is at most t. */
  function CountAtMost(points: seq<SplinePoint3>, t: real): nat {
    if |points| == 0 then 0
    else (if points[0].t <= t then 1 else 0) + CountAtMost(points[1..], t)
  }

  /** For sorted points the leading run is all of them: the segment is the number of points not after t. */
  lemma {:induction false} LeadingCountCountsAll(points: seq<SplinePoint3>, t: real)
    requires StrictlyIncreasing(points)
    ensures LeadingCount(points, t) == CountAtMost(points, t)
  {
    if |points| > 0 {
      assert StrictlyIncreasing(points[1..]) by {
        forall i, j | 0 <= i < j < |points[1..]| ensures points[1..][i].t < points[1..][j].t {
          assert points[1..][i] == points[i + 1] && points[1..][j] == points[j + 1];
        }
      }
      if points[0].t <= t {
        LeadingCountCountsAll(points[1..], t);
      } else {
        NoneAtMost(points[1..], t);
      }
    }
  }

  lemma {:induction false} NoneAtMost(points: seq<SplinePoint3>, t: real)
    requires forall k :: 0 <= k < |points| ==> t < points[k].t
    ensures CountAtMost(points, t) == 0
  {
    if |points| > 0 {
      NoneAtMost(points[1..], t);
    }
  }

  /** On sorted points, the count of leading points is k + 1 exactly when t lies in [points[k].t, points[k+1].t). */
  lemma LeadingCountAt(points: seq<SplinePoint3>, k: nat, t: real)
    requires StrictlyIncreasing(points) && k < |points|
    requires points[k].t <= t && (k + 1 < |points| ==> t < points[k + 1].t)
    ensures LeadingCount(points, t) == k + 1
  {
  }

  /** Exactly the times at which getValue and getDerivative index inside the vector: 1 <= segment < n. */
  predicate Queryable(points: seq<SplinePoint3>, t: real) {
    WrapDefined(points, t) && 1 <= LeadingCount(points, WrappedTime(points, t)) < |points|
  }

  /**
   * For a time in [minTime, maxTime) the segment lies in 1..n-1 and brackets t
   * as points[seg-1].t <= t < points[seg].t (the `i+1` form, not the `i` of the
   * comment on findSegment).
   */
  lemma SegmentBrackets(points: seq<SplinePoint3>, t: real)
    requires |points| >= 2 && MinTime(points) <= t < MaxTime(points)
    ensures Queryable(points, t)
    ensures var seg := LeadingCount(points, t);
      1 <= seg <= |points| - 1 && points[seg - 1].t <= t < points[seg].t
  {
  }

  /** With the first control point at time 0 (as in every path the application builds), every t >= 0 but maxTime itself is queryable. */
  lemma QueryableFromZero(points: seq<SplinePoint3>, t: real)
    requires |points| >= 2 && MinTime(points) == 0.0 < MaxTime(points)
    requires 0.0 <= t && t != MaxTime(points)
    ensures Queryable(points, t)
  {
    SegmentBrackets(points, WrappedTime(points, t));
  }

  // ---------------------------------------------------------------------------
  // Out-of-range lookups (the as-written behaviour at the edges)

  /** At t == maxTime no wrap happens and every point counts: segment == n, so points[n] is read. */
  lemma MaxTimeIsNotQueryable(points: seq<SplinePoint3>)
    requires |points| >= 1 && StrictlyIncreasing(points)
    ensures LeadingCount(points, WrappedTime(points, MaxTime(points))) == |points|
    ensures !Queryable(points, MaxTime(points))
  {
    LeadingCountAt(points, |points| - 1, MaxTime(points));
  }

  /** A search time below minTime gives segment 0, so points[-1] is read. */
  lemma BelowMinTimeIsNotQueryable(points: seq<SplinePoint3>, t: real)
    requires WrapDefined(points, t) && WrappedTime(points, t) < MinTime(points)
    ensures LeadingCount(points, WrappedTime(points, t)) == 0
    ensures !Queryable(points, t)
  {
  }

  /** Concretely: with control points at times 1 and 2, t = 2.5 wraps to 0.5, below minTime. */
  lemma WrapBelowMinTimeExample()
    ensures var pts := [SplinePoint3(1.0, Zero, Zero), SplinePoint3(2.0, Zero, Zero)];
      WrappedTime(pts, 2.5) == 0.5 && !Queryable(pts, 2.5)
  {
    var pts := [SplinePoint3(1.0, Zero, Zero), SplinePoint3(2.0, Zero, Zero)];
    assert Trunc(2.5 / 2.0) == 1;
    BelowMinTimeIsNotQueryable(pts, 2.5);
  }

  // ---------------------------------------------------------------------------
  // Hermite basis

  function H00(r: real): real { 2.0 * r * r * r - 3.0 * r * r + 1.0 }
  function H10(r: real): real { r * r * r - 2.0 * r * r + r }
  function H01(r: real): real { -2.0 * r * r * r + 3.0 * r * r }
  function H11(r: real): real { r * r * r - r * r }

  /** The coefficients getDerivative uses for the four basis polynomials. */
  function D00(r: real): real { 6.0 * r * r - 6.0 * r }
  function D10(r: real): real { 3.0 * r * r - 4.0 * r + 1.0 }
  function D01(r: real): real { -6.0 * r * r + 6.0 * r }
  function D11(r: real): real { 3.0 * r * r - 2.0 * r }

  /** Second-order remainders: H(r + e) - H(r) - e * D(r) == e * e * R(r, e). */
  function R00(r: real, e: real): real { 6.0 * r + 2.0 * e - 3.0 }
  function R10(r: real, e: real): real { 3.0 * r + e - 2.0 }
  function R01(r: real, e: real): real { -6.0 * r - 2.0 * e + 3.0 }
  function R11(r: real, e: real): real { 3.0 * r + e - 1.0 }

  /**
   * Each D is the derivative of the matching H with respect to the rescaled
   * time: the change over a step e differs from e * D by a multiple of e * e.
   */
  lemma BasisDerivatives(r: real, e: real)
    ensures H00(r + e) - H00(r) - e * D00(r) == e * e * R00(r, e)
    ensures H10(r + e) - H10(r) - e * D10(r) == e * e * R10(r, e)
    ensures H01(r + e) - H01(r) - e * D01(r) == e * e * R01(r, e)
    ensures H11(r + e) - H11(r) - e * D11(r) == e * e * R11(r, e)
  {
  }

  /** a * p0 + b * m0 + c * p1 + d * m1, the shape of both getValue's and getDerivative's sum. */
  function Blend(a: real, p0: Vec3, b: real, m0: Vec3, c: real, p1: Vec3, d: real, m1: Vec3): Vec3 {
    Vec3(a * p0.x + b * m0.x + c * p1.x + d * m1.x,
         a * p0.y + b * m0.y + c * p1.y + d * m1.y,
         a * p0.z + b * m0.z + c * p1.z + d * m1.z)
  }

  /** getValue's and getDerivative's rescaled time rt: how far t lies into the segment from k0 to k1. */
  function SegmentFraction(k0: SplinePoint3, k1: SplinePoint3, t: real): real
    requires k0.t < k1.t
  {
    (t - k0.t) / (k1.t - k0.t)
  }

  /** The interpolant of one segment, with both tangents multiplied by the segment's duration. */
  function HermiteSegment(k0: SplinePoint3, k1: SplinePoint3, t: real): Vec3
    requires k0.t < k1.t
  {
    var d := k1.t - k0.t;
    var rt := SegmentFraction(k0, k1, t);
    Blend(H00(rt), k0.p, H10(rt), Scale(d, k0.dp), H01(rt), k1.p, H11(rt), Scale(d, k1.dp))
  }

  /** getDerivative's sum for one segment: the derivative coefficients against the same scaled tangents. */
  function HermiteSegmentDerivative(k0: SplinePoint3, k1: SplinePoint3, t: real): Vec3
    requires k0.t < k1.t
  {
    var d := k1.t - k0.t;
    var rt := SegmentFraction(k0, k1, t);
    Blend(D00(rt), k0.p, D10(rt), Scale(d, k0.dp), D01(rt), k1.p, D11(rt), Scale(d, k1.dp))
  }

  /** A segment starts at its first control point: at rt = 0 only h00 is non-zero, and it is 1. */
  lemma SegmentStartsAtControlPoint(k0: SplinePoint3, k1: SplinePoint3)
    requires k0.t < k1.t
    ensures HermiteSegment(k0, k1, k0.t) == k0.p
  {
    assert SegmentFraction(k0, k1, k0.t) == 0.0;
    SegmentAt(k0, k1, k0.t, 0.0);
    assert H00(0.0) == 1.0 && H10(0.0) == 0.0 && H01(0.0) == 0.0 && H11(0.0) == 0.0;
  }

  /** A segment ends at its second control point: at rt = 1 only h01 is non-zero, and it is 1. */
  lemma SegmentEndsAtControlPoint(k0: SplinePoint3, k1: SplinePoint3)
    requires k0.t < k1.t
    ensures HermiteSegment(k0, k1, k1.t) == k1.p
  {
    var d := k1.t - k0.t;
    assert d / d == 1.0;
    SegmentAt(k0, k1, k1.t, 1.0);
    assert H00(1.0) == 0.0 && H10(1.0) == 0.0 && H01(1.0) == 1.0 && H11(1.0) == 0.0;
  }

  /** Adjacent segments meet: both evaluate to points[s].p at points[s].t, so the path is continuous. */
  lemma AdjacentSegmentsMeet(points: seq<SplinePoint3>, s: nat)
    requires StrictlyIncreasing(points) && 1 <= s && s + 1 < |points|
    ensures HermiteSegment(points[s - 1], points[s], points[s].t) == points[s].p
    ensures HermiteSegment(points[s], points[s + 1], points[s].t) == points[s].p
  {
    SegmentEndsAtControlPoint(points[s - 1], points[s]);
    SegmentStartsAtControlPoint(points[s], points[s + 1]);
  }

  lemma LineCoefficients(r: real)
    ensures H00(r) + H01(r) == 1.0
    ensures H10(r) + H01(r) + H11(r) == r
  {
  }

  lemma ScalarLine(p: real, v: real, d: real, r: real)
    ensures H00(r) * p + H10(r) * (d * v) + H01(r) * (p + d * v) + H11(r) * (d * v) == p + r * d * v
  {
    LineCoefficients(r);
    calc {
      H00(r) * p + H10(r) * (d * v) + H01(r) * (p + d * v) + H11(r) * (d * v);
      (H00(r) + H01(r)) * p + (H10(r) + H01(r) + H11(r)) * (d * v);
      p + r * (d * v);
    }
  }

  /**
   * Linear reproduction: when both tangents are v and p1 = p0 + v * (t1 - t0),
   * the segment is the constant-velocity line p0 + v * (t - t0).
   */
  lemma SegmentReproducesLines(k0: SplinePoint3, k1: SplinePoint3, v: Vec3, t: real)
    requires k0.t < k1.t
    requires k0.dp == v && k1.dp == v && k1.p == Add(k0.p, Scale(k1.t - k0.t, v))
    ensures HermiteSegment(k0, k1, t) == Add(k0.p, Scale(t - k0.t, v))
  {
    var d := k1.t - k0.t;
    var r := (t - k0.t) / d;
    assert r * d == t - k0.t;
    ScalarLine(k0.p.x, v.x, d, r);
    ScalarLine(k0.p.y, v.y, d, r);
    ScalarLine(k0.p.z, v.z, d, r);
    assert r * d * v.x == (t - k0.t) * v.x;
    assert r * d * v.y == (t - k0.t) * v.y;
    assert r * d * v.z == (t - k0.t) * v.z;
  }

  // ---------------------------------------------------------------------------
  // getValue

  /** getValue(t): the interpolant of the segment findSegment picks, at the wrapped time. */
  function GetValue(points: seq<SplinePoint3>, t: real): Vec3
    requires Queryable(points, t)
  {
    var tw := WrappedTime(points, t);
    var seg := LeadingCount(points, tw);
    HermiteSegment(points[seg - 1], points[seg], tw)
  }

  /** getValue's rescaled time rt always lies in [0, 1). */
  function RescaledTime(points: seq<SplinePoint3>, t: real): (rt: real)
    requires Queryable(points, t)
    ensures 0.0 <= rt < 1.0
  {
    var tw := WrappedTime(points, t);
    var seg := LeadingCount(points, tw);
    var d := points[seg].t - points[seg - 1].t;
    assert points[seg - 1].t <= tw < points[seg].t;
    QuotientBelowOne(tw - points[seg - 1].t, d);
    SegmentFraction(points[seg - 1], points[seg], tw)
  }

  /** Boundary exactness: at every control point but the last, getValue returns that point's position. */
  lemma GetValueAtControlPoint(points: seq<SplinePoint3>, k: nat)
    requires StrictlyIncreasing(points) && k + 1 < |points|
    ensures Queryable(points, points[k].t)
    ensures GetValue(points, points[k].t) == points[k].p
  {
    LeadingCountAt(points, k, points[k].t);
    SegmentStartsAtControlPoint(points[k], points[k + 1]);
  }

  /** On a two-point constant-velocity path getValue is exactly the line. */
  lemma GetValueOnLine(points: seq<SplinePoint3>, v: Vec3, t: real)
    requires |points| == 2 && points[0].t < points[1].t
    requires points[0].dp == v && points[1].dp == v
    requires points[1].p == Add(points[0].p, Scale(points[1].t - points[0].t, v))
    requires points[0].t <= t < points[1].t
    ensures Queryable(points, t)
    ensures GetValue(points, t) == Add(points[0].p, Scale(t - points[0].t, v))
  {
    SegmentBrackets(points, t);
    SegmentReproducesLines(points[0], points[1], v, t);
  }

  // ---------------------------------------------------------------------------
  // getDerivative, as written and corrected

  /** getDerivative(t) as written: the derivative with respect to rt, not t. */
  function GetDerivative(points: seq<SplinePoint3>, t: real): Vec3
    requires Queryable(points, t)
  {
    var tw := WrappedTime(points, t);
    var seg := LeadingCount(points, tw);
    HermiteSegmentDerivative(points[seg - 1], points[seg], tw)
  }

  /** The chain-rule derivative of one segment with respect to t: getDerivative's sum divided by the duration. */
  function SegmentVelocity(k0: SplinePoint3, k1: SplinePoint3, t: real): Vec3
    requires k0.t < k1.t
  {
    Scale(1.0 / (k1.t - k0.t), HermiteSegmentDerivative(k0, k1, t))
  }

  /** The corrected getDerivative: d/dt of getValue. */
  function Velocity(points: seq<SplinePoint3>, t: real): Vec3
    requires Queryable(points, t)
  {
    var tw := WrappedTime(points, t);
    var seg := LeadingCount(points, tw);
    SegmentVelocity(points[seg - 1], points[seg], tw)
  }

  /** The blend of the second-order remainders R at rescaled time r and rescaled step e. */
  function RemainderBlend(k0: SplinePoint3, k1: SplinePoint3, r: real, e: real): Vec3 {
    var d := k1.t - k0.t;
    Blend(R00(r, e), k0.p, R10(r, e), Scale(d, k0.dp), R01(r, e), k1.p, R11(r, e), Scale(d, k1.dp))
  }

  /** The second-order term left when SegmentVelocity predicts the change of HermiteSegment over a step h. */
  function SegmentRemainder(k0: SplinePoint3, k1: SplinePoint3, t: real, h: real): Vec3
    requires k0.t < k1.t
  {
    var d := k1.t - k0.t;
    Scale(1.0 / (d * d), RemainderBlend(k0, k1, SegmentFraction(k0, k1, t), h / d))
  }

  /** Blend is linear in its four coefficients. */
  lemma BlendDifference(a0: real, b0: real, c0: real, d0: real, a1: real, b1: real, c1: real, d1: real,
                        a2: real, b2: real, c2: real, d2: real, k: real, p0: Vec3, m0: Vec3, p1: Vec3, m1: Vec3)
    ensures Sub(Sub(Blend(a1, p0, b1, m0, c1, p1, d1, m1), Blend(a0, p0, b0, m0, c0, p1, d0, m1)),
                Scale(k, Blend(a2, p0, b2, m0, c2, p1, d2, m1)))
         == Blend(a1 - a0 - k * a2, p0, b1 - b0 - k * b2, m0, c1 - c0 - k * c2, p1, d1 - d0 - k * d2, m1)
  {
  }

  lemma BlendScale(k: real, a: real, b: real, c: real, d: real, p0: Vec3, m0: Vec3, p1: Vec3, m1: Vec3)
    ensures Blend(k * a, p0, k * b, m0, k * c, p1, k * d, m1) == Scale(k, Blend(a, p0, b, m0, c, p1, d, m1))
  {
  }

  lemma ScaleScale(j: real, k: real, v: Vec3)
    ensures Scale(j, Scale(k, v)) == Scale(j * k, v)
  {
  }

  /** The Taylor step of the four coefficients carries over to their blend. */
  lemma BlendTaylor(a0: real, b0: real, c0: real, d0: real, a1: real, b1: real, c1: real, d1: real,
                    a2: real, b2: real, c2: real, d2: real, a3: real, b3: real, c3: real, d3: real,
                    e: real, p0: Vec3, m0: Vec3, p1: Vec3, m1: Vec3)
    requires a1 - a0 - e * a2 == e * e * a3 && b1 - b0 - e * b2 == e * e * b3
    requires c1 - c0 - e * c2 == e * e * c3 && d1 - d0 - e * d2 == e * e * d3
    ensures Sub(Sub(Blend(a1, p0, b1, m0, c1, p1, d1, m1), Blend(a0, p0, b0, m0, c0, p1, d0, m1)),
                Scale(e, Blend(a2, p0, b2, m0, c2, p1, d2, m1)))
         == Scale(e * e, Blend(a3, p0, b3, m0, c3, p1, d3, m1))
  {
    calc {
      Sub(Sub(Blend(a1, p0, b1, m0, c1, p1, d1, m1), Blend(a0, p0, b0, m0, c0, p1, d0, m1)),
          Scale(e, Blend(a2, p0, b2, m0, c2, p1, d2, m1)));
      { BlendDifference(a0, b0, c0, d0, a1, b1, c1, d1, a2, b2, c2, d2, e, p0, m0, p1, m1); }
      Blend(a1 - a0 - e * a2, p0, b1 - b0 - e * b2, m0, c1 - c0 - e * c2, p1, d1 - d0 - e * d2, m1);
      Blend(e * e * a3, p0, e * e * b3, m0, e * e * c3, p1, e * e * d3, m1);
      { BlendScale(e * e, a3, b3, c3, d3, p0, m0, p1, m1); }
      Scale(e * e, Blend(a3, p0, b3, m0, c3, p1, d3, m1));
    }
  }

  /**
   * SegmentVelocity is the derivative of HermiteSegment with respect to t:
   * value(t + h) - value(t) - h * velocity(t) is h * h times a polynomial in h.
   */
  lemma VelocityIsTimeDerivative(k0: SplinePoint3, k1: SplinePoint3, t: real, h: real)
    requires k0.t < k1.t
    ensures Sub(Sub(HermiteSegment(k0, k1, t + h), HermiteSegment(k0, k1, t)), Scale(h, SegmentVelocity(k0, k1, t)))
         == Scale(h * h, SegmentRemainder(k0, k1, t, h))
  {
    var d := k1.t - k0.t;
    var r := (t - k0.t) / d;
    var e := h / d;
    SumOfQuotients(t - k0.t, h, d);
    var p0, m0, p1, m1 := k0.p, Scale(d, k0.dp), k1.p, Scale(d, k1.dp);
    var hermite := Blend(H00(r), p0, H10(r), m0, H01(r), p1, H11(r), m1);
    var stepped := Blend(H00(r + e), p0, H10(r + e), m0, H01(r + e), p1, H11(r + e), m1);
    var slope := Blend(D00(r), p0, D10(r), m0, D01(r), p1, D11(r), m1);
    calc {
      Sub(Sub(HermiteSegment(k0, k1, t + h), HermiteSegment(k0, k1, t)), Scale(h, SegmentVelocity(k0, k1, t)));
      { SegmentAt(k0, k1, t + h, r + e); SegmentAt(k0, k1, t, r); ScaledVelocity(k0, k1, t, h); }
      Sub(Sub(stepped, hermite), Scale(e, HermiteSegmentDerivative(k0, k1, t)));
      { assert HermiteSegmentDerivative(k0, k1, t) == slope; }
      Sub(Sub(stepped, hermite), Scale(e, slope));
      { HermiteTaylor(r, e, p0, m0, p1, m1); }
      Scale(e * e, Blend(R00(r, e), p0, R10(r, e), m0, R01(r, e), p1, R11(r, e), m1));
      Scale(e * e, RemainderBlend(k0, k1, r, e));
      { ScaledRemainder(k0, k1, t, h, r, e); }
      Scale(h * h, SegmentRemainder(k0, k1, t, h));
    }
  }

  /** The Taylor step of the basis, blended with arbitrary control data, in rescaled time. */
  lemma HermiteTaylor(r: real, e: real, p0: Vec3, m0: Vec3, p1: Vec3, m1: Vec3)
    ensures Sub(Sub(Blend(H00(r + e), p0, H10(r + e), m0, H01(r + e), p1, H11(r + e), m1),
                    Blend(H00(r), p0, H10(r), m0, H01(r), p1, H11(r), m1)),
                Scale(e, Blend(D00(r), p0, D10(r), m0, D01(r), p1, D11(r), m1)))
         == Scale(e * e, Blend(R00(r, e), p0, R10(r, e), m0, R01(r, e), p1, R11(r, e), m1))
  {
    BasisDerivatives(r, e);
    BlendTaylor(H00(r), H10(r), H01(r), H11(r), H00(r + e), H10(r + e), H01(r + e), H11(r + e),
                D00(r), D10(r), D01(r), D11(r), R00(r, e), R10(r, e), R01(r, e), R11(r, e),
                e, p0, m0, p1, m1);
  }

  lemma SegmentAt(k0: SplinePoint3, k1: SplinePoint3, t: real, s: real)
    requires k0.t < k1.t && s == (t - k0.t) / (k1.t - k0.t)
    ensures HermiteSegment(k0, k1, t)
         == Blend(H00(s), k0.p, H10(s), Scale(k1.t - k0.t, k0.dp), H01(s), k1.p, H11(s), Scale(k1.t - k0.t, k1.dp))
  {
  }

  lemma SlopeAt(k0: SplinePoint3, k1: SplinePoint3, t: real, s: real)
    requires k0.t < k1.t && s == (t - k0.t) / (k1.t - k0.t)
    ensures HermiteSegmentDerivative(k0, k1, t)
         == Blend(D00(s), k0.p, D10(s), Scale(k1.t - k0.t, k0.dp), D01(s), k1.p, D11(s), Scale(k1.t - k0.t, k1.dp))
  {
  }

  lemma SumOfQuotients(a: real, h: real, d: real)
    requires d != 0.0
    ensures (a + h) / d == a / d + h / d
  {
  }

  /** h times the velocity is the rescaled step h / d times getDerivative's sum. */
  lemma ScaledVelocity(k0: SplinePoint3, k1: SplinePoint3, t: real, h: real)
    requires k0.t < k1.t
    ensures Scale(h, SegmentVelocity(k0, k1, t)) == Scale(h / (k1.t - k0.t), HermiteSegmentDerivative(k0, k1, t))
  {
    ScaleDown(h, k1.t - k0.t, SegmentVelocity(k0, k1, t), HermiteSegmentDerivative(k0, k1, t));
  }

  /** Undoing the 1 / d of a velocity: h times it is the rescaled step h / d times the unscaled vector. */
  lemma ScaleDown(h: real, d: real, x: Vec3, w: Vec3)
    requires d != 0.0 && x == Scale(1.0 / d, w)
    ensures Scale(h, x) == Scale(h / d, w)
  {
    QuotientFactors(h, d);
    ScaleScale(h, 1.0 / d, w);
  }

  /** h * h times the remainder is the square of the rescaled step times the rescaled remainder. */
  lemma ScaledRemainder(k0: SplinePoint3, k1: SplinePoint3, t: real, h: real, r: real, e: real)
    requires k0.t < k1.t && r == (t - k0.t) / (k1.t - k0.t) && e == h / (k1.t - k0.t)
    ensures Scale(h * h, SegmentRemainder(k0, k1, t, h)) == Scale(e * e, RemainderBlend(k0, k1, r, e))
  {
    var d := k1.t - k0.t;
    assert SegmentRemainder(k0, k1, t, h) == Scale(1.0 / (d * d), RemainderBlend(k0, k1, r, e));
    ScaleBack(h, d, SegmentRemainder(k0, k1, t, h), RemainderBlend(k0, k1, r, e));
    assert e * e == (h / d) * (h / d);
  }

  /** Undoing the 1 / (d * d) of a remainder: h * h / (d * d) is the square of the rescaled step. */
  lemma ScaleBack(h: real, d: real, x: Vec3, w: Vec3)
    requires d != 0.0 && x == Scale(1.0 / (d * d), w)
    ensures Scale(h * h, x) == Scale((h / d) * (h / d), w)
  {
    QuotientFactors(h, d);
    ScaleScale(h * h, 1.0 / (d * d), w);
  }

  lemma QuotientFactors(h: real, d: real)
    requires d != 0.0
    ensures h * (1.0 / d) == h / d
    ensures h * h * (1.0 / (d * d)) == (h / d) * (h / d)
  {
    var e := h / d;
    assert h == e * d;
    assert h * h == (e * e) * (d * d);
  }

  /** The corrected derivative reproduces the control tangents at both ends of a segment. */
  lemma VelocityAtControlPoints(k0: SplinePoint3, k1: SplinePoint3)
    requires k0.t < k1.t
    ensures SegmentVelocity(k0, k1, k0.t) == k0.dp
    ensures SegmentVelocity(k0, k1, k1.t) == k1.dp
  {
    var d := k1.t - k0.t;
    SlopeAtEnds(k0, k1);
    ScaleInverse(d, k0.dp);
    ScaleInverse(d, k1.dp);
  }

  /** getDerivative's sum at the two ends of a segment: the duration times the control tangent. */
  lemma SlopeAtEnds(k0: SplinePoint3, k1: SplinePoint3)
    requires k0.t < k1.t
    ensures HermiteSegmentDerivative(k0, k1, k0.t) == Scale(k1.t - k0.t, k0.dp)
    ensures HermiteSegmentDerivative(k0, k1, k1.t) == Scale(k1.t - k0.t, k1.dp)
  {
    var d := k1.t - k0.t;
    SlopeAt(k0, k1, k0.t, 0.0);
    SlopeAt(k0, k1, k1.t, 1.0);
    BasisSlopeAtEnds(k0.p, Scale(d, k0.dp), k1.p, Scale(d, k1.dp));
  }

  lemma BasisSlopeAtEnds(p0: Vec3, m0: Vec3, p1: Vec3, m1: Vec3)
    ensures Blend(D00(0.0), p0, D10(0.0), m0, D01(0.0), p1, D11(0.0), m1) == m0
    ensures Blend(D00(1.0), p0, D10(1.0), m0, D01(1.0), p1, D11(1.0), m1) == m1
  {
    assert D00(0.0) == 0.0 && D10(0.0) == 1.0 && D01(0.0) == 0.0 && D11(0.0) == 0.0;
    assert D00(1.0) == 0.0 && D10(1.0) == 0.0 && D01(1.0) == 0.0 && D11(1.0) == 1.0;
  }

  /** Two multiples of one vector agree exactly when the factors agree or the vector is zero. */
  lemma ScaleCancel(a: real, b: real, v: Vec3)
    ensures Scale(a, v) == Scale(b, v) <==> (a == b || v == Zero)
  {
    if Scale(a, v) == Scale(b, v) && a != b {
      assert (a - b) * v.x == 0.0 && (a - b) * v.y == 0.0 && (a - b) * v.z == 0.0;
    }
  }

  /** As written, getDerivative is the segment duration times the true d/dt. */
  lemma GetDerivativeIsDurationTimesVelocity(points: seq<SplinePoint3>, t: real)
    requires Queryable(points, t)
    ensures var seg := LeadingCount(points, WrappedTime(points, t));
      GetDerivative(points, t) == Scale(points[seg].t - points[seg - 1].t, Velocity(points, t))
  {
    var tw := WrappedTime(points, t);
    var seg := LeadingCount(points, tw);
    ScaleInverse(points[seg].t - points[seg - 1].t, HermiteSegmentDerivative(points[seg - 1], points[seg], tw));
  }

  lemma ScaleInverse(d: real, v: Vec3)
    requires d != 0.0
    ensures Scale(d, Scale(1.0 / d, v)) == v
    ensures Scale(1.0 / d, Scale(d, v)) == v
  {
    assert d * (1.0 / d) == 1.0;
    assert (1.0 / d) * d == 1.0;
    ScaleScale(d, 1.0 / d, v);
    ScaleScale(1.0 / d, d, v);
  }

  /**
   * As written, at a control point getDerivative returns the duration times the
   * control tangent, so the two segments meeting there disagree unless their
   * durations match or the tangent is zero.
   */
  lemma WrittenDerivativeAtKnot(k0: SplinePoint3, k1: SplinePoint3, k2: SplinePoint3)
    requires k0.t < k1.t < k2.t
    ensures HermiteSegmentDerivative(k0, k1, k1.t) == Scale(k1.t - k0.t, k1.dp)
    ensures HermiteSegmentDerivative(k1, k2, k1.t) == Scale(k2.t - k1.t, k1.dp)
    ensures HermiteSegmentDerivative(k0, k1, k1.t) == HermiteSegmentDerivative(k1, k2, k1.t)
        <==> (k1.t - k0.t == k2.t - k1.t || k1.dp == Zero)
  {
    SlopeAtEnds(k0, k1);
    SlopeAtEnds(k1, k2);
    ScaleCancel(k1.t - k0.t, k2.t - k1.t, k1.dp);
  }

  /** The two-point curve (0, origin, (1,0,0)) -- (10, (15,0,0), (1,0,0)). */
  function ExampleCurve(): seq<SplinePoint3> {
    [SplinePoint3(0.0, Zero, Vec3(1.0, 0.0, 0.0)), SplinePoint3(10.0, Vec3(15.0, 0.0, 0.0), Vec3(1.0, 0.0, 0.0))]
  }

  /**
   * Regression values at t = 5 on ExampleCurve: the value is (7.5, 0, 0); the
   * true d/dt is (1.75, 0, 0) but getDerivative as written returns ten times it.
   */
  lemma ExampleCurveAtMidpoint(pts: seq<SplinePoint3>)
    requires pts == ExampleCurve()
    ensures Queryable(pts, 5.0)
    ensures GetValue(pts, 5.0) == Vec3(7.5, 0.0, 0.0)
    ensures Velocity(pts, 5.0) == Vec3(1.75, 0.0, 0.0)
    ensures GetDerivative(pts, 5.0) == Vec3(17.5, 0.0, 0.0)
  {
    ExampleCurveFirstSegment(pts);
    ExampleSegmentValue(pts[0], pts[1]);
    ExampleSegmentSlope(pts[0], pts[1]);
    ExampleSegmentVelocity(pts[0], pts[1]);
    InFirstSegment(pts, 5.0);
  }

  lemma ExampleCurveFirstSegment(pts: seq<SplinePoint3>)
    requires pts == ExampleCurve()
    ensures Queryable(pts, 5.0) && WrappedTime(pts, 5.0) == 5.0 && LeadingCount(pts, 5.0) == 1
  {
    SegmentBrackets(pts, 5.0);
  }

  /** When findSegment picks the first segment, the three evaluators use its two control points. */
  lemma InFirstSegment(points: seq<SplinePoint3>, t: real)
    requires Queryable(points, t) && WrappedTime(points, t) == t && LeadingCount(points, t) == 1
    ensures GetValue(points, t) == HermiteSegment(points[0], points[1], t)
    ensures GetDerivative(points, t) == HermiteSegmentDerivative(points[0], points[1], t)
    ensures Velocity(points, t) == SegmentVelocity(points[0], points[1], t)
  {
    ValueInFirstSegment(points, t);
    SlopeInFirstSegment(points, t);
    VelocityInFirstSegment(points, t);
  }

  lemma ValueInFirstSegment(points: seq<SplinePoint3>, t: real)
    requires Queryable(points, t) && WrappedTime(points, t) == t && LeadingCount(points, t) == 1
    ensures GetValue(points, t) == HermiteSegment(points[0], points[1], t)
  {
    assert LeadingCount(points, WrappedTime(points, t)) == 1;
  }

  lemma SlopeInFirstSegment(points: seq<SplinePoint3>, t: real)
    requires Queryable(points, t) && WrappedTime(points, t) == t && LeadingCount(points, t) == 1
    ensures GetDerivative(points, t) == HermiteSegmentDerivative(points[0], points[1], t)
  {
    assert LeadingCount(points, WrappedTime(points, t)) == 1;
  }

  lemma VelocityInFirstSegment(points: seq<SplinePoint3>, t: real)
    requires Queryable(points, t) && WrappedTime(points, t) == t && LeadingCount(points, t) == 1
    ensures Velocity(points, t) == SegmentVelocity(points[0], points[1], t)
  {
    assert LeadingCount(points, WrappedTime(points, t)) == 1;
  }

  lemma ExampleSegmentVelocity(k0: SplinePoint3, k1: SplinePoint3)
    requires k0.t == 0.0 && k1.t == 10.0
    requires HermiteSegmentDerivative(k0, k1, 5.0) == Vec3(17.5, 0.0, 0.0)
    ensures SegmentVelocity(k0, k1, 5.0) == Vec3(1.75, 0.0, 0.0)
  {
    var v := Scale(1.0 / (k1.t - k0.t), Vec3(17.5, 0.0, 0.0));
    assert v.x == 1.75 && v.y == 0.0 && v.z == 0.0;
  }

  lemma ExampleSegmentValue(k0: SplinePoint3, k1: SplinePoint3)
    requires k0 == SplinePoint3(0.0, Zero, Vec3(1.0, 0.0, 0.0))
    requires k1 == SplinePoint3(10.0, Vec3(15.0, 0.0, 0.0), Vec3(1.0, 0.0, 0.0))
    ensures HermiteSegment(k0, k1, 5.0) == Vec3(7.5, 0.0, 0.0)
  {
    var m := Vec3(10.0, 0.0, 0.0);
    assert Scale(10.0, k0.dp) == m && Scale(10.0, k1.dp) == m;
    SegmentAt(k0, k1, 5.0, 0.5);
    ValueAtHalf(Zero, m, k1.p, m);
    var v := Blend(0.5, Zero, 0.125, m, 0.5, k1.p, -0.125, m);
    assert v.x == 7.5 && v.y == 0.0 && v.z == 0.0;
  }

  lemma ValueAtHalf(p0: Vec3, m0: Vec3, p1: Vec3, m1: Vec3)
    ensures Blend(H00(0.5), p0, H10(0.5), m0, H01(0.5), p1, H11(0.5), m1) == Blend(0.5, p0, 0.125, m0, 0.5, p1, -0.125, m1)
  {
    assert H00(0.5) == 0.5 && H10(0.5) == 0.125 && H01(0.5) == 0.5 && H11(0.5) == -0.125;
  }

  lemma ExampleSegmentSlope(k0: SplinePoint3, k1: SplinePoint3)
    requires k0 == SplinePoint3(0.0, Zero, Vec3(1.0, 0.0, 0.0))
    requires k1 == SplinePoint3(10.0, Vec3(15.0, 0.0, 0.0), Vec3(1.0, 0.0, 0.0))
    ensures HermiteSegmentDerivative(k0, k1, 5.0) == Vec3(17.5, 0.0, 0.0)
  {
    var m := Vec3(10.0, 0.0, 0.0);
    assert Scale(10.0, k0.dp) == m && Scale(10.0, k1.dp) == m;
    SlopeAt(k0, k1, 5.0, 0.5);
    SlopeAtHalf(Zero, m, k1.p, m);
    var s := Blend(-1.5, Zero, -0.25, m, 1.5, k1.p, -0.25, m);
    assert s.x == 17.5 && s.y == 0.0 && s.z == 0.0;
  }

  lemma SlopeAtHalf(p0: Vec3, m0: Vec3, p1: Vec3, m1: Vec3)
    ensures Blend(D00(0.5), p0, D10(0.5), m0, D01(0.5), p1, D11(0.5), m1) == Blend(-1.5, p0, -0.25, m0, 1.5, p1, -0.25, m1)
  {
    assert D00(0.5) == -1.5 && D10(0.5) == -0.25 && D01(0.5) == 1.5 && D11(0.5) == -0.25;
  }

  // ---------------------------------------------------------------------------
  // The corrected segment search: clamp into [minTime, maxTime], last segment at maxTime

  /** The wrapped time, clamped into [minTime, maxTime] as the search's own comment asks. */
  function ClampedTime(points: seq<SplinePoint3>, t: real): (r: real)
    requires WrapDefined(points, t)
    ensures MinTime(points) <= MaxTime(points) ==> MinTime(points) <= r <= MaxTime(points)
    ensures MinTime(points) <= WrappedTime(points, t) <= MaxTime(points) ==> r == WrappedTime(points, t)
    ensures WrappedTime(points, t) < MinTime(points) ==> r == MinTime(points)
    ensures MinTime(points) <= MaxTime(points) < WrappedTime(points, t) ==> r == MaxTime(points)
  {
    var w := WrappedTime(points, t);
    if w < MinTime(points) then MinTime(points)
    else if w > MaxTime(points) then MaxTime(points)
    else w
  }

  /** The clamped time is the closest time in [minTime, maxTime] to the wrapped time. */
  lemma ClampedTimeIsClosest(points: seq<SplinePoint3>, t: real, s: real)
    requires WrapDefined(points, t) && MinTime(points) <= s <= MaxTime(points)
    ensures Abs(ClampedTime(points, t) - WrappedTime(points, t)) <= Abs(s - WrappedTime(points, t))
  {
  }

  /** The corrected segment: always in 1..n-1, with the clamped time inside it. */
  function ClampedSegment(points: seq<SplinePoint3>, t: real): (seg: nat)
    requires |points| >= 2 && StrictlyIncreasing(points) && WrapDefined(points, t)
    ensures 1 <= seg < |points|
    ensures points[seg - 1].t <= ClampedTime(points, t) <= points[seg].t
  {
    var s := LeadingCount(points, ClampedTime(points, t));
    if s == |points| then |points| - 1 else s
  }

  /** The corrected getValue, defined for every t. */
  function ClampedValue(points: seq<SplinePoint3>, t: real): Vec3
    requires |points| >= 2 && StrictlyIncreasing(points) && WrapDefined(points, t)
  {
    var seg := ClampedSegment(points, t);
    HermiteSegment(points[seg - 1], points[seg], ClampedTime(points, t))
  }

  /** Boundary exactness for every control point, the last one included. */
  lemma ClampedValueAtEveryControlPoint(points: seq<SplinePoint3>, k: nat)
    requires |points| >= 2 && StrictlyIncreasing(points) && k < |points|
    ensures ClampedValue(points, points[k].t) == points[k].p
  {
    LeadingCountAt(points, k, points[k].t);
    if k + 1 < |points| {
      SegmentStartsAtControlPoint(points[k], points[k + 1]);
    } else {
      SegmentEndsAtControlPoint(points[k - 1], points[k]);
    }
  }

  /** Wherever the original getValue is defined, the corrected one agrees with it. */
  lemma ClampedValueAgrees(points: seq<SplinePoint3>, t: real)
    requires |points| >= 2 && StrictlyIncreasing(points) && Queryable(points, t)
    ensures ClampedValue(points, t) == GetValue(points, t)
  {
    var w := WrappedTime(points, t);
    var s := LeadingCount(points, w);
    assert points[0].t <= points[s - 1].t <= w < points[s].t <= points[|points| - 1].t;
  }
}
