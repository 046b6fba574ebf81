/**
 * The Thomas algorithm for a tridiagonal linear system, the solver behind the
 * knot derivatives of the natural cubic spline. A system of size k stores only
 * its three diagonals. The solver runs a forward elimination sweep and then a
 * back substitution, and builds a fresh value per index instead of updating a
 * buffer in place; here both passes are recursive functions over sequences.
 *
 * Floating-point division by a zero pivot yields inf/NaN in the Python code; the
 * model reports that outcome as `None`.
 */
module Tridiagonal {
  import opened Wrappers

  /**
   * The system A·x = rhs where
   *
   *     D[0] U[0]
   *     L[0] D[1] U[1]
   *          L[1] D[2] U[2]
   *                ...
   *                  L[k-2] D[k-1]
   *
   * with D = diag, U = upper and L = lower.
   */
  datatype System = System(upper: seq<real>, diag: seq<real>, lower: seq<real>, rhs: seq<real>)
  {
    /** The shapes the solver broadcasts its arguments to: k >= 1 rows. */
    predicate WellShaped() {
      && 1 <= |diag|
      && |rhs| == |diag|
      && |upper| == |diag| - 1
      && |lower| == |diag| - 1
    }
  }

  /** Row i of A·x. */
  function Row(s: System, x: seq<real>, i: nat): real
    requires s.WellShaped() && |x| == |s.diag| && i < |x|
  {
    (if 0 < i then s.lower[i - 1] * x[i - 1] else 0.0)
    + s.diag[i] * x[i]
    + (if i + 1 < |x| then s.upper[i] * x[i + 1] else 0.0)
  }

  /** x satisfies the first n rows of A·x = rhs. */
  ghost predicate SolvesRows(s: System, x: seq<real>, n: nat)
    requires s.WellShaped() && |x| == |s.diag| && n <= |x|
  {
    forall i {:trigger Row(s, x, i)} :: 0 <= i < n ==> Row(s, x, i) == s.rhs[i]
  }

  /** x solves A·x = rhs. */
  ghost predicate Solves(s: System, x: seq<real>)
    requires s.WellShaped()
  {
    |x| == |s.diag| && SolvesRows(s, x, |x|)
  }

  /**
   * The upper-bidiagonal system left by the forward sweep: the new pivots on
   * the diagonal, the original super-diagonal, and the updated right-hand side.
   */
  datatype Sweep = Sweep(pivots: seq<real>, rhs: seq<real>)

  /** Row i of the swept (upper-bidiagonal) system applied to x. */
  function SweptRow(s: System, e: Sweep, x: seq<real>, i: nat): real
    requires s.WellShaped() && |x| == |s.diag| && i < |x| && i < |e.pivots|
  {
    e.pivots[i] * x[i] + (if i + 1 < |x| then s.upper[i] * x[i + 1] else 0.0)
  }

  /** x satisfies the first n rows of the swept system. */
  ghost predicate SolvesSweptRows(s: System, e: Sweep, x: seq<real>, n: nat)
    requires s.WellShaped() && |x| == |s.diag| && n <= |x|
    requires n <= |e.pivots| && n <= |e.rhs|
  {
    forall i {:trigger SweptRow(s, e, x, i)} :: 0 <= i < n ==> SweptRow(s, e, x, i) == e.rhs[i]
  }

  /**
   * Forward elimination over the first n rows. Row i is reduced with the
   * multiplier w = L[i-1] / P[i-1]: P[i] = D[i] - w·U[i-1] and
   * R[i] = rhs[i] - w·R[i-1]. `None` when a pivot that is divided by is zero.
   */
  function ForwardSweep(s: System, n: nat): (r: Option<Sweep>)
    requires s.WellShaped() && 1 <= n <= |s.diag|
    ensures r.Some? ==> |r.value.pivots| == n && |r.value.rhs| == n
    ensures r.Some? ==> forall i :: 0 <= i < n - 1 ==> r.value.pivots[i] != 0.0
    ensures r.Some? ==> r.value.pivots[0] == s.diag[0] && r.value.rhs[0] == s.rhs[0]
    decreases n
  {
    if n == 1 then
      Some(Sweep([s.diag[0]], [s.rhs[0]]))
    else
      match ForwardSweep(s, n - 1)
      case None => None
      case Some(e) =>
        var p := e.pivots[n - 2];
        if p == 0.0 then None
        else
          var w := s.lower[n - 2] / p;
          Some(Sweep(e.pivots + [s.diag[n - 1] - w * s.upper[n - 2]],
                     e.rhs + [s.rhs[n - 1] - w * e.rhs[n - 2]]))
  }

  /**
   * Back substitution from row k-1 down to row i: returns x[i..k) with
   * x[k-1] = R[k-1] / P[k-1] and x[j] = (R[j] - U[j]·x[j+1]) / P[j].
   * The result solves rows i..k-1 of the swept system.
   */
  function BackSubstitute(s: System, e: Sweep, i: nat): (x: seq<real>)
    requires s.WellShaped() && |e.pivots| == |s.diag| && |e.rhs| == |s.diag| && i < |s.diag|
    requires forall j :: i <= j < |e.pivots| ==> e.pivots[j] != 0.0
    ensures |x| == |s.diag| - i
    ensures SolvesSweptFrom(s, e, x, i)
    decreases |s.diag| - i
  {
    if i == |s.diag| - 1 then
      DivideOut(e.rhs[i], e.pivots[i]);
      [e.rhs[i] / e.pivots[i]]
    else
      var rest := BackSubstitute(s, e, i + 1);
      var head := (e.rhs[i] - s.upper[i] * rest[0]) / e.pivots[i];
      DivideOut(e.rhs[i] - s.upper[i] * rest[0], e.pivots[i]);
      var x := [head] + rest;
      BackSubstituteStep(s, e, i, rest, x);
      x
  }

  /** The suffix x of a candidate solution, starting at row i, satisfies swept rows i..k-1. */
  ghost predicate SolvesSweptFrom(s: System, e: Sweep, x: seq<real>, i: nat)
    requires s.WellShaped() && |e.pivots| == |s.diag| && |e.rhs| == |s.diag|
    requires i < |s.diag| && |x| == |s.diag| - i
  {
    forall j :: i <= j < |s.diag| ==>
      e.pivots[j] * x[j - i] + (if j + 1 < |s.diag| then s.upper[j] * x[j + 1 - i] else 0.0) == e.rhs[j]
  }

  /** Prepending a value that satisfies swept row i to a solution of rows i+1.. solves rows i.. . */
  lemma BackSubstituteStep(s: System, e: Sweep, i: nat, rest: seq<real>, x: seq<real>)
    requires s.WellShaped() && |e.pivots| == |s.diag| && |e.rhs| == |s.diag| && i + 1 < |s.diag|
    requires |rest| == |s.diag| - i - 1 && SolvesSweptFrom(s, e, rest, i + 1)
    requires |x| == |rest| + 1 && x[1..] == rest
    requires e.pivots[i] * x[0] + s.upper[i] * rest[0] == e.rhs[i]
    ensures SolvesSweptFrom(s, e, x, i)
  {
    forall j | i <= j < |s.diag|
      ensures e.pivots[j] * x[j - i] + (if j + 1 < |s.diag| then s.upper[j] * x[j + 1 - i] else 0.0) == e.rhs[j]
    {
      if j > i {
        assert x[j - i] == rest[j - (i + 1)];
        if j + 1 < |s.diag| {
          assert x[j + 1 - i] == rest[j + 1 - (i + 1)];
        }
      }
    }
  }

  lemma DivideOut(a: real, p: real)
    requires p != 0.0
    ensures p * (a / p) == a
  {
  }

  /**
   * One elimination step, on reals: with w = L / P, the swept row
   * (D - w·U)·x1 + up = b - w·Rp has the same residual as the original row
   * L·x0 + D·x1 + up = b wherever the previous swept row P·x0 + U·x1 = Rp holds.
   */
  lemma EliminationStep(l: real, d: real, u: real, b: real, p: real, rp: real, x0: real, x1: real, up: real,
                        pn: real, rn: real)
    requires p != 0.0 && pn == d - l / p * u && rn == b - l / p * rp
    requires p * x0 + u * x1 == rp
    ensures pn * x1 + up - rn == l * x0 + d * x1 + up - b
  {
    var w := l / p;
    assert w * p == l;
    calc {
      pn * x1 + up - rn;
      (d - w * u) * x1 + up - (b - w * rp);
      { assert w * rp == w * p * x0 + w * u * x1; }
      l * x0 + d * x1 + up - b;
    }
  }

  /** One more elimination step leaves the earlier swept rows as they were. */
  lemma SweepPrefix(s: System, n: nat, x: seq<real>)
    requires s.WellShaped() && 2 <= n <= |s.diag| && |x| == |s.diag|
    requires ForwardSweep(s, n).Some?
    ensures ForwardSweep(s, n - 1).Some?
    ensures SolvesSweptRows(s, ForwardSweep(s, n).value, x, n - 1)
        <==> SolvesSweptRows(s, ForwardSweep(s, n - 1).value, x, n - 1)
  {
    var e := ForwardSweep(s, n).value;
    var e' := ForwardSweep(s, n - 1).value;
    forall i | 0 <= i < n - 1
      ensures SweptRow(s, e, x, i) == SweptRow(s, e', x, i) && e.rhs[i] == e'.rhs[i]
    {
      assert e.pivots[i] == e'.pivots[i];
    }
    assert SolvesSweptRows(s, e, x, n - 1) <==> SolvesSweptRows(s, e', x, n - 1);
  }

  /** The entries the n-th elimination step appends to the sweep of n-1 rows. */
  lemma SweepLastEntries(s: System, n: nat)
    requires s.WellShaped() && 2 <= n <= |s.diag| && ForwardSweep(s, n).Some?
    ensures ForwardSweep(s, n - 1).Some?
    ensures var e, e' := ForwardSweep(s, n).value, ForwardSweep(s, n - 1).value;
            var p := e'.pivots[n - 2];
            && p != 0.0
            && e.pivots[n - 1] == s.diag[n - 1] - s.lower[n - 2] / p * s.upper[n - 2]
            && e.rhs[n - 1] == s.rhs[n - 1] - s.lower[n - 2] / p * e'.rhs[n - 2]
  {
  }

  /**
   * The new swept row n-1 is the original row n-1 minus w = L[n-2] / P[n-2]
   * times the previous swept row; so where x satisfies that previous swept
   * row, the new swept row and the original row n-1 have the same residual.
   */
  lemma SweepNewRow(s: System, e: Sweep, e': Sweep, n: nat, x: seq<real>)
    requires s.WellShaped() && 2 <= n <= |s.diag| && |x| == |s.diag|
    requires |e.pivots| == |e.rhs| == n && |e'.pivots| == |e'.rhs| == n - 1
    requires var p := e'.pivots[n - 2];
             && p != 0.0
             && e.pivots[n - 1] == s.diag[n - 1] - s.lower[n - 2] / p * s.upper[n - 2]
             && e.rhs[n - 1] == s.rhs[n - 1] - s.lower[n - 2] / p * e'.rhs[n - 2]
    ensures SweptRow(s, e', x, n - 2) == e'.rhs[n - 2] ==>
              SweptRow(s, e, x, n - 1) - e.rhs[n - 1] == Row(s, x, n - 1) - s.rhs[n - 1]
  {
    var up := if n < |x| then s.upper[n - 1] * x[n] else 0.0;
    if SweptRow(s, e', x, n - 2) == e'.rhs[n - 2] {
      assert Row(s, x, n - 1) == s.lower[n - 2] * x[n - 2] + s.diag[n - 1] * x[n - 1] + up;
      assert SweptRow(s, e, x, n - 1) == e.pivots[n - 1] * x[n - 1] + up;
      EliminationStep(s.lower[n - 2], s.diag[n - 1], s.upper[n - 2], s.rhs[n - 1], e'.pivots[n - 2], e'.rhs[n - 2],
                      x[n - 2], x[n - 1], up, e.pivots[n - 1], e.rhs[n - 1]);
    }
  }

  /** The same for the sweep of the whole system: row n-1 keeps its residual once row n-2 is satisfied. */
  lemma SweepResidual(s: System, n: nat, x: seq<real>)
    requires s.WellShaped() && 2 <= n <= |s.diag| && |x| == |s.diag| && ForwardSweep(s, n).Some?
    ensures ForwardSweep(s, n - 1).Some?
    ensures var e, e' := ForwardSweep(s, n).value, ForwardSweep(s, n - 1).value;
            SweptRow(s, e', x, n - 2) == e'.rhs[n - 2] ==>
              SweptRow(s, e, x, n - 1) - e.rhs[n - 1] == Row(s, x, n - 1) - s.rhs[n - 1]
  {
    SweepLastEntries(s, n);
    SweepNewRow(s, ForwardSweep(s, n).value, ForwardSweep(s, n - 1).value, n, x);
  }

  /** Satisfying n rows is satisfying n-1 rows and row n-1. */
  lemma RowsExtend(s: System, x: seq<real>, n: nat)
    requires s.WellShaped() && |x| == |s.diag| && 1 <= n <= |x|
    ensures SolvesRows(s, x, n) <==> SolvesRows(s, x, n - 1) && Row(s, x, n - 1) == s.rhs[n - 1]
  {
  }

  /** The same for the swept system. */
  lemma SweptRowsExtend(s: System, e: Sweep, x: seq<real>, n: nat)
    requires s.WellShaped() && |x| == |s.diag| && 1 <= n <= |x| && n <= |e.pivots| && n <= |e.rhs|
    ensures SolvesSweptRows(s, e, x, n) <==> SolvesSweptRows(s, e, x, n - 1) && SweptRow(s, e, x, n - 1) == e.rhs[n - 1]
  {
  }

  /** A solution satisfies each single row. */
  lemma SolvesRow(s: System, x: seq<real>, i: nat)
    requires s.WellShaped() && Solves(s, x) && i < |x|
    ensures Row(s, x, i) == s.rhs[i]
  {
  }

  /**
   * The row operations of the forward sweep do not change the solution set:
   * x satisfies the first n rows of the original system exactly when it
   * satisfies the first n rows of the swept one.
   */
  lemma {:induction false} SweepPreservesSolutions(s: System, n: nat, x: seq<real>)
    requires s.WellShaped() && 1 <= n <= |s.diag| && |x| == |s.diag|
    requires ForwardSweep(s, n).Some?
    ensures SolvesRows(s, x, n) <==> SolvesSweptRows(s, ForwardSweep(s, n).value, x, n)
    decreases n
  {
    var e := ForwardSweep(s, n).value;
    if n == 1 {
      assert Row(s, x, 0) == SweptRow(s, e, x, 0);
    } else {
      var e' := ForwardSweep(s, n - 1).value;
      SweepPrefix(s, n, x);
      SweepResidual(s, n, x);
      SweepPreservesSolutions(s, n - 1, x);
      RowsExtend(s, x, n);
      SweptRowsExtend(s, e, x, n);
      SweptRowsExtend(s, e', x, n - 1);
    }
  }

  /**
   * The solver: forward sweep over all k rows, then back substitution.
   * `None` exactly models the runs that divide by a zero pivot; any returned
   * vector solves the system.
   */
  function Solve(s: System): (r: Option<seq<real>>)
    requires s.WellShaped()
    ensures r.Some? ==> Solves(s, r.value)
  {
    var k := |s.diag|;
    match ForwardSweep(s, k)
    case None => None
    case Some(e) =>
      if e.pivots[k - 1] == 0.0 then None
      else
        var x := BackSubstitute(s, e, 0);
        SweptFromZero(s, e, x);
        SweepPreservesSolutions(s, k, x);
        Some(x)
  }

  /** A back-substituted solution from row 0 satisfies every swept row. */
  lemma SweptFromZero(s: System, e: Sweep, x: seq<real>)
    requires s.WellShaped() && |e.pivots| == |s.diag| && |e.rhs| == |s.diag| && |x| == |s.diag|
    requires SolvesSweptFrom(s, e, x, 0)
    ensures SolvesSweptRows(s, e, x, |x|)
  {
    forall j | 0 <= j < |x|
      ensures SweptRow(s, e, x, j) == e.rhs[j]
    {
      assert x[j - 0] == x[j];
      if j + 1 < |x| {
        assert x[j + 1 - 0] == x[j + 1];
      }
    }
  }

  /** A solution of an upper-bidiagonal system with nonzero pivots is unique from row i down. */
  lemma {:induction false} SweptSolutionUnique(s: System, e: Sweep, x: seq<real>, y: seq<real>, i: nat)
    requires s.WellShaped() && |x| == |s.diag| && |y| == |s.diag| && i < |s.diag|
    requires |e.pivots| == |s.diag| && |e.rhs| == |s.diag|
    requires forall j :: 0 <= j < |e.pivots| ==> e.pivots[j] != 0.0
    requires SolvesSweptRows(s, e, x, |x|) && SolvesSweptRows(s, e, y, |y|)
    ensures x[i..] == y[i..]
    decreases |s.diag| - i
  {
    var k := |s.diag|;
    if i < k - 1 {
      SweptSolutionUnique(s, e, x, y, i + 1);
      assert x[i + 1] == x[i + 1..][0] == y[i + 1..][0] == y[i + 1];
    }
    assert SweptRow(s, e, x, i) == e.rhs[i] == SweptRow(s, e, y, i);
    assert e.pivots[i] * x[i] == e.pivots[i] * y[i];
    assert x[i..] == [x[i]] + x[i + 1..];
    assert y[i..] == [y[i]] + y[i + 1..];
  }

  /** Whenever the solver returns x, x is the only solution of the system. */
  lemma SolutionIsUnique(s: System, y: seq<real>)
    requires s.WellShaped() && Solve(s).Some? && Solves(s, y)
    ensures y == Solve(s).value
  {
    var k := |s.diag|;
    var e := ForwardSweep(s, k).value;
    var x := Solve(s).value;
    SweepPreservesSolutions(s, k, x);
    SweepPreservesSolutions(s, k, y);
    SweptSolutionUnique(s, e, x, y, 0);
    assert x == x[0..] && y == y[0..];
  }

  /** The off-diagonal entries of row i. */
  function OffDiagonal(s: System, i: nat): real
    requires s.WellShaped() && i < |s.diag|
  {
    (if 0 < i then s.lower[i - 1] else 0.0) + (if i < |s.upper| then s.upper[i] else 0.0)
  }

  /**
   * Nonnegative off-diagonals and a strictly dominant diagonal: the shape of
   * the spline's knot-derivative system for strictly increasing times.
   */
  ghost predicate DiagonallyDominant(s: System)
    requires s.WellShaped()
  {
    && (forall i :: 0 <= i < |s.upper| ==> 0.0 <= s.upper[i] && 0.0 <= s.lower[i])
    && (forall i :: 0 <= i < |s.diag| ==> OffDiagonal(s, i) < s.diag[i])
  }

  /** One step of the dominance argument, on reals: with 0 <= U < P, the new pivot D - (L / P)·U stays above U'. */
  lemma DominantStep(l: real, u: real, p: real, d: real, u': real)
    requires 0.0 <= l && 0.0 <= u < p && l + u' < d
    ensures d - l / p * u > u'
  {
    assert l / p * u == l * (u / p);
    assert u / p < 1.0;
    assert l * (u / p) <= l;
  }

  /** The sweep of n rows exists once that of n-1 rows exists with a nonzero last pivot. */
  lemma SweepExtends(s: System, n: nat)
    requires s.WellShaped() && 2 <= n <= |s.diag| && ForwardSweep(s, n - 1).Some?
    requires ForwardSweep(s, n - 1).value.pivots[n - 2] != 0.0
    ensures ForwardSweep(s, n).Some?
    ensures var p := ForwardSweep(s, n - 1).value.pivots[n - 2];
            ForwardSweep(s, n).value.pivots[n - 1] == s.diag[n - 1] - s.lower[n - 2] / p * s.upper[n - 2]
  {
  }

  /** Row i (i >= 1) of a dominant system, written out. */
  lemma DominantRow(s: System, i: nat)
    requires s.WellShaped() && DiagonallyDominant(s) && 1 <= i < |s.diag|
    ensures 0.0 <= s.lower[i - 1] && 0.0 <= s.upper[i - 1]
    ensures s.lower[i - 1] + (if i < |s.upper| then s.upper[i] else 0.0) < s.diag[i]
  {
    assert OffDiagonal(s, i) < s.diag[i];
  }

  /** On a dominant system every pivot exceeds the super-diagonal entry of its row. */
  lemma {:induction false} DominantPivots(s: System, n: nat)
    requires s.WellShaped() && DiagonallyDominant(s) && 1 <= n <= |s.diag|
    ensures ForwardSweep(s, n).Some?
    ensures ForwardSweep(s, n).value.pivots[n - 1] > (if n - 1 < |s.upper| then s.upper[n - 1] else 0.0)
    decreases n
  {
    if n == 1 {
      assert OffDiagonal(s, 0) < s.diag[0];
    } else {
      DominantPivots(s, n - 1);
      var p := ForwardSweep(s, n - 1).value.pivots[n - 2];
      DominantRow(s, n - 1);
      SweepExtends(s, n);
      DominantStep(s.lower[n - 2], s.upper[n - 2], p, s.diag[n - 1], if n - 1 < |s.upper| then s.upper[n - 1] else 0.0);
    }
  }

  /** A diagonally dominant system never meets a zero pivot, so the solver succeeds. */
  lemma DominantSystemSolvable(s: System)
    requires s.WellShaped() && DiagonallyDominant(s)
    ensures Solve(s).Some?
  {
    DominantPivots(s, |s.diag|);
  }
}
