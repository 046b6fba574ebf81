/**
 * The natural cubic spline through a scalar control path (TrajCNF.py,
 * NaturalCubicSpline). Segment i covers [times[i], times[i+1]] and carries the
 * coefficients (a, b, two_c, three_d) of
 *
 *     a + b·f + (two_c / 2)·f² + (three_d / 3)·f³,   f = t - times[i].
 *
 * For more than two knots the knot derivatives come from the tridiagonal
 * system solved by the Thomas algorithm. Channels and batch dimensions are
 * independent copies of this scalar construction.
 */
module Spline {
  import opened Wrappers
  import Tridiagonal

  /** Why a spline cannot be built. */
  datatype SplineError =
    | TooShort    // fewer than two knots: TrajCNF.py raises ValueError
    | Degenerate  // TrajCNF.py divides by zero (a repeated time or a zero pivot) and yields inf/NaN

  /** Per-segment coefficients together with the knot times. */
  datatype Spline = Spline(times: seq<real>, a: seq<real>, b: seq<real>, twoC: seq<real>, threeD: seq<real>)
  {
    /** At least one segment, and one coefficient of each kind per segment. */
    predicate Valid() {
      && 2 <= |times|
      && |a| == |times| - 1
      && |b| == |a| && |twoC| == |a| && |threeD| == |a|
    }
  }

  /** No two consecutive knot times coincide, so every reciprocal time step exists. */
  predicate DistinctSteps(times: seq<real>) {
    forall i :: 0 <= i < |times| - 1 ==> times[i] != times[i + 1]
  }

  /** The knot times increase strictly. */
  ghost predicate StrictlyIncreasing(times: seq<real>) {
    forall i, j :: 0 <= i < j < |times| ==> times[i] < times[j]
  }

  /** Strictly increasing knot times have distinct consecutive entries. */
  lemma IncreasingIsDistinct(times: seq<real>)
    requires StrictlyIncreasing(times)
    ensures DistinctSteps(times)
  {
    forall i | 0 <= i < |times| - 1
      ensures times[i] != times[i + 1]
    {
      assert times[i] < times[i + 1];
    }
  }

  /** The reciprocal time steps 1 / (times[i+1] - times[i]). */
  function Reciprocals(times: seq<real>): (r: seq<real>)
    requires 1 <= |times| && DistinctSteps(times)
    ensures |r| == |times| - 1
  {
    seq(|times| - 1, i requires 0 <= i < |times| - 1 => 1.0 / (times[i + 1] - times[i]))
  }

  /** Each reciprocal time step times its time step is one. */
  lemma ReciprocalStep(times: seq<real>, i: nat)
    requires 1 <= |times| && DistinctSteps(times) && i < |times| - 1
    ensures Reciprocals(times)[i] * (times[i + 1] - times[i]) == 1.0
  {
  }

  /** `path_diffs_scaled` for one segment: 3·d·q² for path difference d and reciprocal step q. */
  function ScaledDiff(d: real, q: real): real {
    3.0 * d * (q * q)
  }

  /** The scaled path differences of all segments (`path_diffs_scaled`). */
  function ScaledDiffs(path: seq<real>, r: seq<real>): (sd: seq<real>)
    requires |r| == |path| - 1
    ensures |sd| == |r|
  {
    seq(|r|, i requires 0 <= i < |r| => ScaledDiff(path[i + 1] - path[i], r[i]))
  }

  /** One element of the scaled path differences. */
  lemma ScaledDiffAt(path: seq<real>, r: seq<real>, i: nat)
    requires |r| == |path| - 1 && i < |r|
    ensures ScaledDiffs(path, r)[i] == ScaledDiff(path[i + 1] - path[i], r[i])
  {
  }

  /**
   * v[i] + v[i-1] with a missing neighbour contributing 0, for i in [0, |v|]:
   * the pattern `x[:-1] = v; x[-1] = 0; x[1:] += v` fills x with.
   */
  function NeighbourSum(v: seq<real>, i: nat): real
    requires i <= |v|
  {
    (if i < |v| then v[i] else 0.0) + (if 0 < i then v[i - 1] else 0.0)
  }

  /**
   * The knot-derivative system for reciprocal steps r and scaled differences
   * sd: diagonal 2·(r[i] + r[i-1]), both off-diagonals r, right-hand side
   * sd[i] + sd[i-1].
   */
  function KnotSystem(r: seq<real>, sd: seq<real>): (s: Tridiagonal.System)
    requires 1 <= |r| && |sd| == |r|
    ensures s.WellShaped() && |s.diag| == |r| + 1
  {
    var n := |r| + 1;
    var diag := seq(n, i requires 0 <= i < n => 2.0 * NeighbourSum(r, i));
    var rhs := seq(n, i requires 0 <= i < n => NeighbourSum(sd, i));
    Tridiagonal.System(r, diag, r, rhs)
  }

  /** The knot-derivative system of the knot times and values. */
  function SplineSystem(times: seq<real>, path: seq<real>): (s: Tridiagonal.System)
    requires |times| == |path| >= 2 && DistinctSteps(times)
    ensures s.WellShaped() && |s.diag| == |path|
  {
    var r := Reciprocals(times);
    KnotSystem(r, ScaledDiffs(path, r))
  }

  /** `two_c` of one segment with path difference d, reciprocal step q and knot derivatives k0, k1. */
  function SegmentTwoC(d: real, q: real, k0: real, k1: real): real {
    (2.0 * (3.0 * d) * q - 4.0 * k0 - 2.0 * k1) * q
  }

  /** `three_d` of one segment with path difference d, reciprocal step q and knot derivatives k0, k1. */
  function SegmentThreeD(d: real, q: real, k0: real, k1: real): real {
    (-(2.0 * (3.0 * d)) * q + 3.0 * (k0 + k1)) * (q * q)
  }

  /** The segment coefficients determined by the knot values, reciprocal steps r and knot derivatives k. */
  function FromKnotDerivatives(times: seq<real>, path: seq<real>, r: seq<real>, k: seq<real>): (s: Spline)
    requires |times| == |path| == |k| >= 2 && |r| == |path| - 1
    ensures s.Valid() && s.times == times
  {
    var n := |path|;
    var twoC := seq(n - 1, i requires 0 <= i < n - 1 => SegmentTwoC(path[i + 1] - path[i], r[i], k[i], k[i + 1]));
    var threeD := seq(n - 1, i requires 0 <= i < n - 1 => SegmentThreeD(path[i + 1] - path[i], r[i], k[i], k[i + 1]));
    Spline(times, path[..n - 1], k[..n - 1], twoC, threeD)
  }

  /** The coefficients of segment i of the cubic built from knot derivatives k. */
  lemma CoefficientsAt(times: seq<real>, path: seq<real>, r: seq<real>, k: seq<real>, i: nat)
    requires |times| == |path| == |k| == |r| + 1 && i < |r|
    ensures var s := FromKnotDerivatives(times, path, r, k);
            && s.a[i] == path[i] && s.b[i] == k[i]
            && s.twoC[i] == SegmentTwoC(path[i + 1] - path[i], r[i], k[i], k[i + 1])
            && s.threeD[i] == SegmentThreeD(path[i + 1] - path[i], r[i], k[i], k[i + 1])
  {
  }

  /**
   * Builds the spline (the constructor and `_coefficients`): two knots give a
   * single linear segment, more knots solve the knot-derivative system.
   */
  function Coefficients(times: seq<real>, path: seq<real>): (r: Result<Spline, SplineError>)
    requires |times| == |path|
    ensures r == Failure(TooShort) <==> |path| < 2
    ensures r.Success? ==> r.value.Valid() && r.value.times == times
    ensures 2 <= |path| && !DistinctSteps(times) ==> r == Failure(Degenerate)
    ensures 2 <= |path| && StrictlyIncreasing(times) ==> r.Success?
  {
    if |path| < 2 then Failure(TooShort)
    else if !DistinctSteps(times) then Failure(Degenerate)
    else if |path| == 2 then
      var slope := (path[1] - path[0]) / (times[1] - times[0]);
      Success(Spline(times, [path[0]], [slope], [0.0], [0.0]))
    else
      var r := Reciprocals(times);
      KnotSystemSolvable(times, path);
      match Tridiagonal.Solve(SplineSystem(times, path))
      case None => Failure(Degenerate)
      case Some(k) => Success(FromKnotDerivatives(times, path, r, k))
  }

  /** For strictly increasing times the knot-derivative system is diagonally dominant. */
  lemma KnotSystemSolvable(times: seq<real>, path: seq<real>)
    requires |times| == |path| >= 2 && DistinctSteps(times)
    ensures StrictlyIncreasing(times) ==> Tridiagonal.Solve(SplineSystem(times, path)).Some?
  {
    if StrictlyIncreasing(times) {
      var r := Reciprocals(times);
      var s := SplineSystem(times, path);
      forall i | 0 <= i < |r|
        ensures 0.0 < r[i]
      {
        assert times[i] < times[i + 1];
        ReciprocalStep(times, i);
      }
      forall i | 0 <= i < |s.diag|
        ensures Tridiagonal.OffDiagonal(s, i) < s.diag[i]
      {
      }
      Tridiagonal.DominantSystemSolvable(s);
    }
  }

  /** The number of knot times strictly below t (the sum of `t > times`). */
  function CountBelow(times: seq<real>, t: real): (c: nat)
    ensures c <= |times|
  {
    if |times| == 0 then 0
    else CountBelow(times[..|times| - 1], t) + (if times[|times| - 1] < t then 1 else 0)
  }

  /** If exactly the first m knot times lie below t, then CountBelow is m. */
  lemma {:induction false} CountBelowExact(times: seq<real>, t: real, m: nat)
    requires m <= |times|
    requires forall j :: 0 <= j < m ==> times[j] < t
    requires forall j :: m <= j < |times| ==> t <= times[j]
    ensures CountBelow(times, t) == m
    decreases |times|
  {
    if |times| > 0 {
      var init := times[..|times| - 1];
      if m == |times| {
        CountBelowExact(init, t, m - 1);
      } else {
        CountBelowExact(init, t, m);
      }
    }
  }

  /**
   * `_interpret_t`: the segment index (count of knot times below t, minus one,
   * clamped to the segment range) and the offset of t from that segment's
   * start. The last knot time never starts a segment.
   */
  function InterpretT(s: Spline, t: real): (r: (real, nat))
    requires s.Valid()
    ensures r.1 < |s.b| && r.1 <= |s.times| - 2
    ensures r.0 == t - s.times[r.1]
  {
    var maxlen := |s.b| - 1;
    var index := CountBelow(s.times, t) - 1;
    var clamped := if index < 0 then 0 else if index > maxlen then maxlen else index;
    (t - s.times[clamped], clamped)
  }

  /** Value of segment i at offset f, by Horner's rule as in `evaluate`. */
  function SegmentValue(s: Spline, i: nat, f: real): real
    requires s.Valid() && i < |s.a|
  {
    var inner := 0.5 * s.twoC[i] + s.threeD[i] * f / 3.0;
    var inner' := s.b[i] + inner * f;
    s.a[i] + inner' * f
  }

  /** First derivative of segment i at offset f, as in `derivative`. */
  function SegmentSlope(s: Spline, i: nat, f: real): real
    requires s.Valid() && i < |s.a|
  {
    var inner := s.twoC[i] + s.threeD[i] * f;
    s.b[i] + inner * f
  }

  /** Second derivative of segment i at offset f (not computed by TrajCNF.py; used to state the boundary conditions). */
  function SegmentCurvature(s: Spline, i: nat, f: real): real
    requires s.Valid() && i < |s.a|
  {
    s.twoC[i] + 2.0 * s.threeD[i] * f
  }

  /**
   * Segment i is the piece of the spline that covers t: t in (times[i], times[i+1]],
   * or t at or before the first knot for the first segment, or t after the
   * last knot for the last segment.
   */
  predicate Covers(s: Spline, t: real, i: nat)
    requires s.Valid()
  {
    && i < |s.a|
    && (|| s.times[i] < t <= s.times[i + 1]
        || (i == 0 && t <= s.times[0])
        || (i == |s.a| - 1 && s.times[i + 1] < t))
  }

  /** For increasing knots the lookup picks the segment that covers t. */
  lemma LookupCovers(s: Spline, t: real)
    requires s.Valid()
    ensures StrictlyIncreasing(s.times) ==> forall i: nat :: Covers(s, t, i) ==> InterpretT(s, t) == (t - s.times[i], i)
  {
    if StrictlyIncreasing(s.times) {
      forall i: nat | Covers(s, t, i)
        ensures InterpretT(s, t) == (t - s.times[i], i)
      {
        if i == 0 && s.times[1] < t {
          assert |s.b| == 1;
        } else {
          SegmentLookup(s, t, i);
        }
      }
    }
  }

  /**
   * `evaluate`: the spline's value at t. For increasing knots it is the cubic
   * of the segment covering t, extrapolated beyond the first and last knots.
   */
  function Evaluate(s: Spline, t: real): (v: real)
    requires s.Valid()
    ensures StrictlyIncreasing(s.times) ==> forall i: nat :: Covers(s, t, i) ==> v == SegmentValue(s, i, t - s.times[i])
  {
    LookupCovers(s, t);
    var r := InterpretT(s, t);
    SegmentValue(s, r.1, r.0)
  }

  /** `derivative`: the spline's first derivative at t, the slope of the segment covering t. */
  function Derivative(s: Spline, t: real): (v: real)
    requires s.Valid()
    ensures StrictlyIncreasing(s.times) ==> forall i: nat :: Covers(s, t, i) ==> v == SegmentSlope(s, i, t - s.times[i])
  {
    LookupCovers(s, t);
    var r := InterpretT(s, t);
    SegmentSlope(s, r.1, r.0)
  }

  /**
   * The segment lookup for strictly increasing knots: t at or before the
   * first knot uses segment 0, t in (times[i], times[i+1]] uses segment i,
   * and t after the last knot uses the last segment.
   */
  lemma SegmentLookup(s: Spline, t: real, i: nat)
    requires s.Valid() && StrictlyIncreasing(s.times) && i <= |s.times| - 2
    requires if i == 0 then t <= s.times[1] else s.times[i] < t <= s.times[i + 1] || (i == |s.times| - 2 && s.times[i] < t)
    ensures InterpretT(s, t).1 == i
  {
    var n := |s.times|;
    if t <= s.times[0] {
      CountBelowExact(s.times, t, 0);
    } else if t <= s.times[i + 1] {
      CountBelowExact(s.times, t, i + 1);
    } else {
      CountBelowExact(s.times, t, n);
    }
  }

  /**
   * The identities behind interpolation and C1 continuity: with the segment
   * coefficients built from knot values p0, p1 and any knot derivatives
   * k0, k1, the cubic reaches p1 with slope k1 at the end of the segment.
   */
  lemma CubicEndpoint(p0: real, p1: real, h: real, r: real, k0: real, k1: real)
    requires r * h == 1.0
    ensures var twoC, threeD := SegmentTwoC(p1 - p0, r, k0, k1), SegmentThreeD(p1 - p0, r, k0, k1);
            && p0 + (k0 + (0.5 * twoC + threeD * h / 3.0) * h) * h == p1
            && k0 + (twoC + threeD * h) * h == k1
  {
    var d := p1 - p0;
    var twoC := (6.0 * d * r - 4.0 * k0 - 2.0 * k1) * r;
    var threeD := (-6.0 * d * r + 3.0 * (k0 + k1)) * (r * r);
    assert twoC * h == 6.0 * d * r - 4.0 * k0 - 2.0 * k1 by {
      assert twoC * h == (6.0 * d * r - 4.0 * k0 - 2.0 * k1) * (r * h);
    }
    assert threeD * h * h == -6.0 * d * r + 3.0 * (k0 + k1) by {
      assert threeD * h * h == (-6.0 * d * r + 3.0 * (k0 + k1)) * ((r * h) * (r * h));
    }
    assert d * r * h == d by {
      assert d * r * h == d * (r * h);
    }
    calc {
      p0 + (k0 + (0.5 * twoC + threeD * h / 3.0) * h) * h;
      p0 + k0 * h + 0.5 * (twoC * h) * h + (threeD * h * h) * h / 3.0;
      p0 + k0 * h + 0.5 * (6.0 * d * r - 4.0 * k0 - 2.0 * k1) * h + (-6.0 * d * r + 3.0 * (k0 + k1)) * h / 3.0;
      p0 + 3.0 * (d * r * h) - 2.0 * (d * r * h);
      p1;
    }
    calc {
      k0 + (twoC + threeD * h) * h;
      k0 + twoC * h + threeD * h * h;
      k1;
    }
  }

  /**
   * Two knots: the slope m = d / h used as both knot derivatives gives a
   * segment with two_c = three_d = 0 and satisfies both rows of the system.
   */
  lemma FlatSegment(d: real, h: real, q: real, m: real)
    requires q * h == 1.0 && m == d / h
    ensures SegmentTwoC(d, q, m, m) == 0.0 && SegmentThreeD(d, q, m, m) == 0.0
    ensures 2.0 * q * m + q * m == ScaledDiff(d, q)
  {
    assert m == d * q by {
      assert m * h == d;
      assert d * q * h == d * (q * h) == d;
      assert (m - d * q) * h == 0.0;
    }
  }

  /**
   * Every spline the constructor returns is the cubic determined by the knot
   * values and some knot derivatives k, and those k solve the knot-derivative
   * system. For two knots k is the constant slope, which solves the system too.
   */
  lemma KnotDerivatives(times: seq<real>, path: seq<real>) returns (k: seq<real>)
    requires |times| == |path| && Coefficients(times, path).Success?
    ensures |k| == |path| && DistinctSteps(times)
    ensures Coefficients(times, path).value == FromKnotDerivatives(times, path, Reciprocals(times), k)
    ensures Tridiagonal.Solves(SplineSystem(times, path), k)
  {
    if |path| == 2 {
      var h := times[1] - times[0];
      var m := (path[1] - path[0]) / h;
      k := [m, m];
      var r := Reciprocals(times);
      var d := path[1] - path[0];
      ReciprocalStep(times, 0);
      FlatSegment(d, h, r[0], m);
      var sp := FromKnotDerivatives(times, path, r, k);
      assert sp.twoC == [0.0] && sp.threeD == [0.0];
      assert sp.a == [path[0]] && sp.b == [m];
      var sd := ScaledDiffs(path, r);
      var sys := KnotSystem(r, sd);
      assert sys.diag[0] == 2.0 * r[0] && sys.diag[1] == 2.0 * r[0];
      assert sys.rhs[0] == sd[0] && sys.rhs[1] == sd[0];
      assert Tridiagonal.Row(sys, k, 0) == sys.rhs[0];
      assert Tridiagonal.Row(sys, k, 1) == sys.rhs[1];
    } else {
      k := Tridiagonal.Solve(SplineSystem(times, path)).value;
    }
  }

  /** Each segment of the cubic built from knot derivatives k starts at path[i] with slope k[i]. */
  lemma SegmentStart(times: seq<real>, path: seq<real>, r: seq<real>, k: seq<real>, i: nat)
    requires |times| == |path| == |k| >= 2 && |r| == |path| - 1 && i < |path| - 1
    ensures var s := FromKnotDerivatives(times, path, r, k);
            SegmentValue(s, i, 0.0) == path[i] && SegmentSlope(s, i, 0.0) == k[i]
  {
  }

  /**
   * A segment whose coefficients are built from knot values p0, p1 and knot
   * derivatives k0, k1 ends at p1 with slope k1.
   */
  lemma SegmentEndpoint(s: Spline, i: nat, p0: real, p1: real, h: real, q: real, k0: real, k1: real)
    requires s.Valid() && i < |s.a| && q * h == 1.0
    requires s.a[i] == p0 && s.b[i] == k0
    requires s.twoC[i] == SegmentTwoC(p1 - p0, q, k0, k1) && s.threeD[i] == SegmentThreeD(p1 - p0, q, k0, k1)
    ensures SegmentValue(s, i, h) == p1 && SegmentSlope(s, i, h) == k1
  {
    CubicEndpoint(p0, p1, h, q, k0, k1);
  }

  /** Each segment of the cubic built from knot derivatives k ends at path[i+1] with slope k[i+1]. */
  lemma SegmentEnd(times: seq<real>, path: seq<real>, k: seq<real>, i: nat)
    requires |times| == |path| == |k| >= 2 && DistinctSteps(times) && i < |path| - 1
    ensures var s := FromKnotDerivatives(times, path, Reciprocals(times), k);
            var h := times[i + 1] - times[i];
            SegmentValue(s, i, h) == path[i + 1] && SegmentSlope(s, i, h) == k[i + 1]
  {
    var r := Reciprocals(times);
    ReciprocalStep(times, i);
    SegmentEndpoint(FromKnotDerivatives(times, path, r, k), i, path[i], path[i + 1], times[i + 1] - times[i], r[i], k[i], k[i + 1]);
  }

  /**
   * Where the segment lookup for a knot picks segment j, `evaluate` and
   * `derivative` at that knot are segment j's value and slope there.
   */
  lemma AtKnotFromSegment(s: Spline, times: seq<real>, i: nat, j: nat, v: real, d: real)
    requires s.Valid() && s.times == times && StrictlyIncreasing(times) && i < |times| && j <= |times| - 2
    requires (i == 0 && j == 0) || j + 1 == i
    requires SegmentValue(s, j, times[i] - times[j]) == v && SegmentSlope(s, j, times[i] - times[j]) == d
    ensures Evaluate(s, times[i]) == v && Derivative(s, times[i]) == d
  {
    SegmentLookup(s, times[i], j);
  }

  /** At the first knot, the cubic built from knot derivatives k takes the value path[0] and the slope k[0]. */
  lemma AtFirstKnot(times: seq<real>, path: seq<real>, k: seq<real>)
    requires |times| == |path| == |k| >= 2 && StrictlyIncreasing(times) && DistinctSteps(times)
    ensures var s := FromKnotDerivatives(times, path, Reciprocals(times), k);
            Evaluate(s, times[0]) == path[0] && Derivative(s, times[0]) == k[0]
  {
    SegmentStart(times, path, Reciprocals(times), k, 0);
    AtKnotFromSegment(FromKnotDerivatives(times, path, Reciprocals(times), k), times, 0, 0, path[0], k[0]);
  }

  /** At knot j+1, the end of segment j, the cubic takes the value path[j+1] and the slope k[j+1]. */
  lemma AtSegmentEnd(times: seq<real>, path: seq<real>, k: seq<real>, j: nat)
    requires |times| == |path| == |k| >= 2 && StrictlyIncreasing(times) && DistinctSteps(times) && j + 1 < |path|
    ensures var s := FromKnotDerivatives(times, path, Reciprocals(times), k);
            Evaluate(s, times[j + 1]) == path[j + 1] && Derivative(s, times[j + 1]) == k[j + 1]
  {
    SegmentEnd(times, path, k, j);
    AtKnotFromSegment(FromKnotDerivatives(times, path, Reciprocals(times), k), times, j + 1, j, path[j + 1], k[j + 1]);
  }

  /** At knot i, the cubic built from knot derivatives k takes the value path[i] and the slope k[i]. */
  lemma AtKnot(times: seq<real>, path: seq<real>, k: seq<real>, i: nat)
    requires |times| == |path| == |k| >= 2 && StrictlyIncreasing(times) && i < |path|
    ensures DistinctSteps(times)
    ensures var s := FromKnotDerivatives(times, path, Reciprocals(times), k);
            Evaluate(s, times[i]) == path[i] && Derivative(s, times[i]) == k[i]
  {
    IncreasingIsDistinct(times);
    if i == 0 {
      AtFirstKnot(times, path, k);
    } else {
      AtSegmentEnd(times, path, k, i - 1);
    }
  }

  /** Interpolation: for strictly increasing times, `evaluate` at each knot returns the knot value. */
  lemma Interpolates(times: seq<real>, path: seq<real>)
    requires |times| == |path| >= 2 && StrictlyIncreasing(times)
    ensures Coefficients(times, path).Success?
    ensures forall i :: 0 <= i < |path| ==> Evaluate(Coefficients(times, path).value, times[i]) == path[i]
  {
    var k := KnotDerivatives(times, path);
    forall i | 0 <= i < |path|
      ensures Evaluate(Coefficients(times, path).value, times[i]) == path[i]
    {
      AtKnot(times, path, k, i);
    }
  }

  /**
   * For strictly increasing times, `derivative` at each knot returns that
   * knot's derivative from the solve: at an interior knot, the end slope of
   * the segment before it equals the start slope b of the segment after it.
   */
  lemma DerivativeAtKnots(times: seq<real>, path: seq<real>)
    requires |times| == |path| >= 2 && StrictlyIncreasing(times)
    ensures Coefficients(times, path).Success?
    ensures var s := Coefficients(times, path).value;
            forall i :: 0 < i < |path| - 1 ==> Derivative(s, times[i]) == s.b[i]
  {
    var k := KnotDerivatives(times, path);
    forall i | 0 < i < |path| - 1
      ensures Derivative(Coefficients(times, path).value, times[i]) == Coefficients(times, path).value.b[i]
    {
      AtKnot(times, path, k, i);
    }
  }

  /**
   * C1 continuity: wherever the constructor succeeds, each segment ends with
   * the value and slope with which the next one starts.
   */
  lemma ContinuousAcrossKnots(times: seq<real>, path: seq<real>, i: nat)
    requires |times| == |path| && Coefficients(times, path).Success? && i + 2 < |path|
    ensures var s := Coefficients(times, path).value;
            var h := times[i + 1] - times[i];
            && SegmentValue(s, i, h) == SegmentValue(s, i + 1, 0.0) == path[i + 1]
            && SegmentSlope(s, i, h) == SegmentSlope(s, i + 1, 0.0) == s.b[i + 1]
  {
    var k := KnotDerivatives(times, path);
    SegmentEnd(times, path, k, i);
    SegmentStart(times, path, Reciprocals(times), k, i + 1);
  }

  /**
   * `derivative` is the exact derivative of the cubic `evaluate` uses: moving
   * the offset by e changes the value by e·slope plus a term of order e².
   */
  lemma SlopeIsDerivative(s: Spline, i: nat, f: real, e: real)
    requires s.Valid() && i < |s.a|
    ensures SegmentValue(s, i, f + e)
         == SegmentValue(s, i, f) + e * SegmentSlope(s, i, f)
            + e * e * (0.5 * s.twoC[i] + s.threeD[i] * f + s.threeD[i] * e / 3.0)
  {
    var a, b, c, d := s.a[i], s.b[i], s.twoC[i], s.threeD[i];
    calc {
      SegmentValue(s, i, f + e);
      a + b * (f + e) + 0.5 * c * (f + e) * (f + e) + d * (f + e) * (f + e) * (f + e) / 3.0;
      a + b * f + 0.5 * c * f * f + d * f * f * f / 3.0
        + e * (b + c * f + d * f * f)
        + e * e * (0.5 * c + d * f + d * e / 3.0);
    }
  }

  /** The same at the level of `evaluate`/`derivative`: the slope at t is the linear term of the cubic used at t. */
  lemma DerivativeOfEvaluate(s: Spline, t: real, e: real)
    requires s.Valid()
    ensures var (f, i) := InterpretT(s, t);
            SegmentValue(s, i, f + e)
            == Evaluate(s, t) + e * Derivative(s, t)
               + e * e * (0.5 * s.twoC[i] + s.threeD[i] * f + s.threeD[i] * e / 3.0)
  {
    var (f, i) := InterpretT(s, t);
    SlopeIsDerivative(s, i, f, e);
  }

  /** The curvature is the derivative of the slope. */
  lemma CurvatureIsDerivative(s: Spline, i: nat, f: real, e: real)
    requires s.Valid() && i < |s.a|
    ensures SegmentSlope(s, i, f + e) == SegmentSlope(s, i, f) + e * SegmentCurvature(s, i, f) + e * e * s.threeD[i]
  {
  }

  /** Curvature at the end of a segment built from knot derivatives k0, k1. */
  lemma EndCurvature(d: real, h: real, q: real, k0: real, k1: real)
    requires q * h == 1.0
    ensures SegmentTwoC(d, q, k0, k1) + 2.0 * SegmentThreeD(d, q, k0, k1) * h
            == -6.0 * d * (q * q) + 2.0 * q * k0 + 4.0 * q * k1
  {
    var threeD := SegmentThreeD(d, q, k0, k1);
    assert threeD * h == (-6.0 * d * q + 3.0 * (k0 + k1)) * q by {
      assert threeD * h == (-6.0 * d * q + 3.0 * (k0 + k1)) * q * (q * h);
    }
  }

  /** The first row of the knot-derivative system, written out. */
  lemma KnotRowFirst(r: seq<real>, sd: seq<real>, k: seq<real>)
    requires 1 <= |r| && |sd| == |r| && |k| == |r| + 1
    requires Tridiagonal.Row(KnotSystem(r, sd), k, 0) == KnotSystem(r, sd).rhs[0]
    ensures 2.0 * r[0] * k[0] + r[0] * k[1] == sd[0]
  {
    var sys := KnotSystem(r, sd);
    assert sys.diag[0] == 2.0 * NeighbourSum(r, 0) == 2.0 * r[0];
    assert sys.rhs[0] == NeighbourSum(sd, 0);
  }

  /** The last row of the knot-derivative system, written out. */
  lemma KnotRowLast(r: seq<real>, sd: seq<real>, k: seq<real>)
    requires 1 <= |r| && |sd| == |r| && |k| == |r| + 1
    requires Tridiagonal.Row(KnotSystem(r, sd), k, |r|) == KnotSystem(r, sd).rhs[|r|]
    ensures var j := |r| - 1;
            r[j] * k[j] + 2.0 * r[j] * k[j + 1] == sd[j]
  {
    var sys, j := KnotSystem(r, sd), |r| - 1;
    assert sys.diag[j + 1] == 2.0 * NeighbourSum(r, j + 1) == 2.0 * r[j];
    assert sys.rhs[j + 1] == NeighbourSum(sd, j + 1);
  }

  /** Interior row j+1 of the knot-derivative system, written out. */
  lemma KnotRowInterior(r: seq<real>, sd: seq<real>, k: seq<real>, j: nat)
    requires |sd| == |r| && |k| == |r| + 1 && j + 1 < |r|
    requires Tridiagonal.Row(KnotSystem(r, sd), k, j + 1) == KnotSystem(r, sd).rhs[j + 1]
    ensures r[j] * k[j] + 2.0 * (r[j + 1] + r[j]) * k[j + 1] + r[j + 1] * k[j + 2] == sd[j + 1] + sd[j]
  {
    var sys := KnotSystem(r, sd);
    assert sys.diag[j + 1] == 2.0 * (r[j + 1] + r[j]);
    assert sys.rhs[j + 1] == sd[j + 1] + sd[j];
  }

  /** First row: 2·q·k0 + q·k1 = 3·d·q², which makes two_c of the first segment vanish. */
  lemma StartCurvatureZero(d: real, q: real, k0: real, k1: real)
    requires 2.0 * q * k0 + q * k1 == ScaledDiff(d, q)
    ensures SegmentTwoC(d, q, k0, k1) == 0.0
  {
  }

  /** Last row: q·k0 + 2·q·k1 = 3·d·q², which makes the curvature at the end of the last segment vanish. */
  lemma EndCurvatureZero(d: real, h: real, q: real, k0: real, k1: real)
    requires q * h == 1.0
    requires q * k0 + 2.0 * q * k1 == ScaledDiff(d, q)
    ensures SegmentTwoC(d, q, k0, k1) + 2.0 * SegmentThreeD(d, q, k0, k1) * h == 0.0
  {
    EndCurvature(d, h, q, k0, k1);
  }

  /** Interior row: the curvature at the end of one segment equals that at the start of the next. */
  lemma CurvatureMatches(d0: real, d1: real, h: real, q0: real, q1: real, k0: real, k1: real, k2: real)
    requires q0 * h == 1.0
    requires q0 * k0 + 2.0 * (q1 + q0) * k1 + q1 * k2 == ScaledDiff(d1, q1) + ScaledDiff(d0, q0)
    ensures SegmentTwoC(d0, q0, k0, k1) + 2.0 * SegmentThreeD(d0, q0, k0, k1) * h == SegmentTwoC(d1, q1, k1, k2)
  {
    EndCurvature(d0, h, q0, k0, k1);
  }

  /** Natural boundary at the first knot: the second derivative of the first segment is zero at its start. */
  lemma FirstCurvature(times: seq<real>, path: seq<real>, k: seq<real>)
    requires |times| == |path| == |k| >= 2 && DistinctSteps(times)
    requires Tridiagonal.Solves(SplineSystem(times, path), k)
    ensures SegmentCurvature(FromKnotDerivatives(times, path, Reciprocals(times), k), 0, 0.0) == 0.0
  {
    var r := Reciprocals(times);
    Tridiagonal.SolvesRow(SplineSystem(times, path), k, 0);
    KnotRowFirst(r, ScaledDiffs(path, r), k);
    StartCurvatureZero(path[1] - path[0], r[0], k[0], k[1]);
  }

  /** The last row of the knot system of the knot times and values, for the last segment's path difference. */
  lemma LastKnotRow(times: seq<real>, path: seq<real>, k: seq<real>)
    requires |times| == |path| == |k| >= 2 && DistinctSteps(times)
    requires Tridiagonal.Solves(SplineSystem(times, path), k)
    ensures var r, j := Reciprocals(times), |path| - 2;
            r[j] * k[j] + 2.0 * r[j] * k[j + 1] == ScaledDiff(path[j + 1] - path[j], r[j])
  {
    var r, j := Reciprocals(times), |path| - 2;
    Tridiagonal.SolvesRow(SplineSystem(times, path), k, j + 1);
    KnotRowLast(r, ScaledDiffs(path, r), k);
    ScaledDiffAt(path, r, j);
  }

  /** A segment whose knot derivatives satisfy the last row has zero curvature at its end. */
  lemma SegmentEndCurvature(times: seq<real>, path: seq<real>, r: seq<real>, k: seq<real>, j: nat)
    requires |times| == |path| == |k| == |r| + 1 && j < |r|
    requires r[j] * (times[j + 1] - times[j]) == 1.0
    requires r[j] * k[j] + 2.0 * r[j] * k[j + 1] == ScaledDiff(path[j + 1] - path[j], r[j])
    ensures SegmentCurvature(FromKnotDerivatives(times, path, r, k), j, times[j + 1] - times[j]) == 0.0
  {
    CoefficientsAt(times, path, r, k, j);
    EndCurvatureZero(path[j + 1] - path[j], times[j + 1] - times[j], r[j], k[j], k[j + 1]);
  }

  /** Natural boundary at the last knot: the second derivative of the last segment is zero at its end. */
  lemma LastCurvature(times: seq<real>, path: seq<real>, k: seq<real>)
    requires |times| == |path| == |k| >= 2 && DistinctSteps(times)
    requires Tridiagonal.Solves(SplineSystem(times, path), k)
    ensures var n := |path|;
            SegmentCurvature(FromKnotDerivatives(times, path, Reciprocals(times), k), n - 2, times[n - 1] - times[n - 2]) == 0.0
  {
    var j := |path| - 2;
    LastKnotRow(times, path, k);
    ReciprocalStep(times, j);
    SegmentEndCurvature(times, path, Reciprocals(times), k, j);
  }

  /** Interior row i+1 of the knot-derivative system in terms of the segments on either side. */
  lemma InteriorRow(path: seq<real>, r: seq<real>, k: seq<real>, i: nat)
    requires |path| == |k| == |r| + 1 && i + 1 < |r|
    requires Tridiagonal.Solves(KnotSystem(r, ScaledDiffs(path, r)), k)
    ensures r[i] * k[i] + 2.0 * (r[i + 1] + r[i]) * k[i + 1] + r[i + 1] * k[i + 2]
            == ScaledDiffs(path, r)[i + 1] + ScaledDiffs(path, r)[i]
  {
    Tridiagonal.SolvesRow(KnotSystem(r, ScaledDiffs(path, r)), k, i + 1);
    KnotRowInterior(r, ScaledDiffs(path, r), k, i);
  }

  /** The same with the scaled differences written out. */
  lemma InteriorRowScaled(path: seq<real>, r: seq<real>, k: seq<real>, i: nat)
    requires |path| == |k| == |r| + 1 && i + 1 < |r|
    requires Tridiagonal.Solves(KnotSystem(r, ScaledDiffs(path, r)), k)
    ensures r[i] * k[i] + 2.0 * (r[i + 1] + r[i]) * k[i + 1] + r[i + 1] * k[i + 2]
            == ScaledDiff(path[i + 2] - path[i + 1], r[i + 1]) + ScaledDiff(path[i + 1] - path[i], r[i])
  {
    InteriorRow(path, r, k, i);
    ScaledDiffAt(path, r, i);
    ScaledDiffAt(path, r, i + 1);
  }

  /** Segments i and i+1 meet with equal curvature when two_c + 2·three_d·h of the first is two_c of the second. */
  lemma CurvatureAcross(s: Spline, i: nat, h: real, c0: real, t0: real, c1: real)
    requires s.Valid() && i + 1 < |s.a|
    requires s.twoC[i] == c0 && s.threeD[i] == t0 && s.twoC[i + 1] == c1 && c0 + 2.0 * t0 * h == c1
    ensures SegmentCurvature(s, i, h) == SegmentCurvature(s, i + 1, 0.0)
  {
  }

  /** The same for the cubic built from knot derivatives k. */
  lemma SegmentsAcross(times: seq<real>, path: seq<real>, r: seq<real>, k: seq<real>, i: nat, h: real)
    requires |times| == |path| == |k| == |r| + 1 && i + 1 < |r| && r[i] * h == 1.0
    requires r[i] * k[i] + 2.0 * (r[i + 1] + r[i]) * k[i + 1] + r[i + 1] * k[i + 2]
             == ScaledDiff(path[i + 2] - path[i + 1], r[i + 1]) + ScaledDiff(path[i + 1] - path[i], r[i])
    ensures var s := FromKnotDerivatives(times, path, r, k);
            SegmentCurvature(s, i, h) == SegmentCurvature(s, i + 1, 0.0)
  {
    var d0, d1 := path[i + 1] - path[i], path[i + 2] - path[i + 1];
    CoefficientsAt(times, path, r, k, i);
    CoefficientsAt(times, path, r, k, i + 1);
    CurvatureMatches(d0, d1, h, r[i], r[i + 1], k[i], k[i + 1], k[i + 2]);
    CurvatureAcross(FromKnotDerivatives(times, path, r, k), i, h,
                    SegmentTwoC(d0, r[i], k[i], k[i + 1]), SegmentThreeD(d0, r[i], k[i], k[i + 1]),
                    SegmentTwoC(d1, r[i + 1], k[i + 1], k[i + 2]));
  }

  /** Curvature continuity at interior knot i+1 for any reciprocal steps r and any solution k of the system they define. */
  lemma KnotCurvatureMatches(times: seq<real>, path: seq<real>, r: seq<real>, k: seq<real>, i: nat, h: real)
    requires |times| == |path| == |k| == |r| + 1 && i + 1 < |r| && r[i] * h == 1.0
    requires Tridiagonal.Solves(KnotSystem(r, ScaledDiffs(path, r)), k)
    ensures var s := FromKnotDerivatives(times, path, r, k);
            SegmentCurvature(s, i, h) == SegmentCurvature(s, i + 1, 0.0)
  {
    InteriorRowScaled(path, r, k, i);
    SegmentsAcross(times, path, r, k, i, h);
  }

  /** At each interior knot the second derivatives of the two adjoining segments agree. */
  lemma InteriorCurvature(times: seq<real>, path: seq<real>, k: seq<real>, i: nat)
    requires |times| == |path| == |k| >= 2 && DistinctSteps(times) && i < |path| - 2
    requires Tridiagonal.Solves(SplineSystem(times, path), k)
    ensures var s := FromKnotDerivatives(times, path, Reciprocals(times), k);
            SegmentCurvature(s, i, times[i + 1] - times[i]) == SegmentCurvature(s, i + 1, 0.0)
  {
    ReciprocalStep(times, i);
    KnotCurvatureMatches(times, path, Reciprocals(times), k, i, times[i + 1] - times[i]);
  }

  /**
   * The natural boundary condition and C2 continuity: wherever the
   * constructor succeeds, the second derivative is zero at the first and at
   * the last knot, and agrees on both sides of every interior knot.
   */
  lemma NaturalBoundary(times: seq<real>, path: seq<real>)
    requires |times| == |path| && Coefficients(times, path).Success?
    ensures var s := Coefficients(times, path).value;
            var n := |path|;
            && s.twoC[0] == 0.0
            && SegmentCurvature(s, n - 2, times[n - 1] - times[n - 2]) == 0.0
            && forall i :: 0 <= i < n - 2 ==>
                 SegmentCurvature(s, i, times[i + 1] - times[i]) == SegmentCurvature(s, i + 1, 0.0)
  {
    var k := KnotDerivatives(times, path);
    FirstCurvature(times, path, k);
    LastCurvature(times, path, k);
    forall i | 0 <= i < |path| - 2
      ensures var s := FromKnotDerivatives(times, path, Reciprocals(times), k);
              SegmentCurvature(s, i, times[i + 1] - times[i]) == SegmentCurvature(s, i + 1, 0.0)
    {
      InteriorCurvature(times, path, k, i);
    }
  }

  /**
   * Two knots give one linear segment: a = p0, b = the slope, two_c =
   * three_d = 0, so `derivative` is that slope and `evaluate` the line
   * through both knots, for every t.
   */
  lemma ShortPathIsLinear(times: seq<real>, path: seq<real>)
    requires |times| == |path| == 2 && times[0] != times[1]
    ensures var m := (path[1] - path[0]) / (times[1] - times[0]);
            && Coefficients(times, path) == Success(Spline(times, [path[0]], [m], [0.0], [0.0]))
            && (forall t :: Derivative(Coefficients(times, path).value, t) == m)
            && (forall t :: Evaluate(Coefficients(times, path).value, t) == path[0] + m * (t - times[0]))
  {
    var s := Coefficients(times, path).value;
    var m := (path[1] - path[0]) / (times[1] - times[0]);
    forall t
      ensures Derivative(s, t) == m && Evaluate(s, t) == path[0] + m * (t - times[0])
    {
      assert InterpretT(s, t).1 == 0;
    }
  }
}
