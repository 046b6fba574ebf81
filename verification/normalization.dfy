/**
 * The affine rescaling of data columns to [0, 1] and back (InD.py,
 * `normalize` and `denormalize`), with the boundaries the inD loader uses.
 * A point is one row of the last axis: value c is rescaled with boundary c.
 *
 * A point whose width differs from the number of boundaries is reported as
 * a width mismatch. numpy raises there too unless one of the two sizes is 1:
 * then it broadcasts the single value or the single boundary row across the
 * other, a case this model reports as a mismatch; the loader always passes
 * matching widths. A boundary with equal ends makes `normalize` divide by
 * zero (inf/NaN); that is reported as an error here.
 */
module Normalization {
  import opened Wrappers

  /** One column's boundary row [lo, hi]. */
  datatype Interval = Interval(lo: real, hi: real)
  {
    function Width(): real { hi - lo }
  }

  type Boundaries = seq<Interval>

  datatype NormError =
    | WidthMismatch  // the point's width is not the number of boundaries
    | ZeroWidth      // some boundary has hi == lo

  /** The boundaries of x and y position (`spatial_boundaries`). */
  const SpatialBoundaries: Boundaries := [Interval(25.0, 85.0), Interval(-65.0, -10.0)]

  /** The boundaries of heading, x/y velocity and x/y acceleration (`feature_boundaries`). */
  const FeatureBoundaries: Boundaries :=
    [Interval(0.0, 360.0), Interval(-10.0, 10.0), Interval(-10.0, 10.0), Interval(-5.0, 5.0), Interval(-5.0, 5.0)]

  /** Every boundary has distinct ends. */
  predicate NonDegenerate(bounds: Boundaries) {
    forall c :: 0 <= c < |bounds| ==> bounds[c].Width() != 0.0
  }

  function NormalizeValue(x: real, b: Interval): real
    requires b.Width() != 0.0
  {
    (x - b.lo) / b.Width()
  }

  function DenormalizeValue(y: real, b: Interval): real {
    y * b.Width() + b.lo
  }

  /** `normalize` on one point. */
  function NormalizePoint(p: seq<real>, bounds: Boundaries): (r: Result<seq<real>, NormError>)
    ensures r.Failure? <==> |p| != |bounds| || !NonDegenerate(bounds)
    ensures r.Success? ==> |r.value| == |p|
  {
    if |p| != |bounds| then Failure(WidthMismatch)
    else if !NonDegenerate(bounds) then Failure(ZeroWidth)
    else Success(seq(|p|, c requires 0 <= c < |p| => NormalizeValue(p[c], bounds[c])))
  }

  /** `denormalize` on one point. */
  function DenormalizePoint(p: seq<real>, bounds: Boundaries): (r: Result<seq<real>, NormError>)
    ensures r.Failure? <==> |p| != |bounds|
    ensures r.Success? ==> |r.value| == |p|
  {
    if |p| != |bounds| then Failure(WidthMismatch)
    else Success(seq(|p|, c requires 0 <= c < |p| => DenormalizeValue(p[c], bounds[c])))
  }

  /** `normalize` on a sequence of points; the first failing point decides the error. */
  function Normalize(data: seq<seq<real>>, bounds: Boundaries): (r: Result<seq<seq<real>>, NormError>)
    ensures r.Success? ==> |r.value| == |data|
    decreases |data|
  {
    if |data| == 0 then Success([])
    else
      match NormalizePoint(data[0], bounds)
      case Failure(e) => Failure(e)
      case Success(p) =>
        match Normalize(data[1..], bounds)
        case Failure(e) => Failure(e)
        case Success(rest) => Success([p] + rest)
  }

  /** `denormalize` on a sequence of points. */
  function Denormalize(data: seq<seq<real>>, bounds: Boundaries): (r: Result<seq<seq<real>>, NormError>)
    ensures r.Success? ==> |r.value| == |data|
    decreases |data|
  {
    if |data| == 0 then Success([])
    else
      match DenormalizePoint(data[0], bounds)
      case Failure(e) => Failure(e)
      case Success(p) =>
        match Denormalize(data[1..], bounds)
        case Failure(e) => Failure(e)
        case Success(rest) => Success([p] + rest)
  }

  /** Rescaling a value and scaling it back gives the value, in both orders. */
  lemma ValueRoundTrip(x: real, b: Interval)
    requires b.Width() != 0.0
    ensures DenormalizeValue(NormalizeValue(x, b), b) == x
    ensures NormalizeValue(DenormalizeValue(x, b), b) == x
  {
    var w := b.Width();
    assert (x - b.lo) / w * w == x - b.lo;
    assert (x * w + b.lo - b.lo) / w == x * w / w == x;
  }

  /** The lower bound goes to 0 and the upper bound to 1. */
  lemma BoundsToUnit(b: Interval)
    requires b.Width() != 0.0
    ensures NormalizeValue(b.lo, b) == 0.0 && NormalizeValue(b.hi, b) == 1.0
  {
    var w := b.Width();
    assert (b.hi - b.lo) / w == w / w == 1.0;
  }

  /** `normalize` is increasing when lo < hi. */
  lemma Increasing(x: real, y: real, b: Interval)
    requires b.lo < b.hi && x <= y
    ensures NormalizeValue(x, b) <= NormalizeValue(y, b)
  {
    assert NormalizeValue(y, b) - NormalizeValue(x, b) == (y - x) / b.Width();
  }

  /** For an increasing boundary, `normalize` is increasing and maps [lo, hi] into [0, 1]. */
  lemma NormalizeMonotone(x: real, y: real, b: Interval)
    requires b.lo < b.hi && x <= y
    ensures NormalizeValue(x, b) <= NormalizeValue(y, b)
    ensures b.lo <= x <= b.hi ==> 0.0 <= NormalizeValue(x, b) <= 1.0
  {
    Increasing(x, y, b);
    if b.lo <= x <= b.hi {
      BoundsToUnit(b);
      Increasing(b.lo, x, b);
      Increasing(x, b.hi, b);
    }
  }

  /** Point-level round trips. */
  lemma PointRoundTrip(p: seq<real>, bounds: Boundaries)
    requires |p| == |bounds| && NonDegenerate(bounds)
    ensures NormalizePoint(p, bounds).Success?
    ensures DenormalizePoint(NormalizePoint(p, bounds).value, bounds) == Success(p)
    ensures NormalizePoint(DenormalizePoint(p, bounds).value, bounds) == Success(p)
  {
    var n := NormalizePoint(p, bounds).value;
    var d := DenormalizePoint(p, bounds).value;
    forall c | 0 <= c < |p|
      ensures DenormalizeValue(n[c], bounds[c]) == p[c] && NormalizeValue(d[c], bounds[c]) == p[c]
    {
      ValueRoundTrip(p[c], bounds[c]);
    }
    assert DenormalizePoint(n, bounds).value == p;
    assert NormalizePoint(d, bounds).value == p;
  }

  /** `normalize` succeeds on data exactly when every point has the right width and no boundary is degenerate (or there are no points). */
  lemma {:induction false} NormalizeSucceeds(data: seq<seq<real>>, bounds: Boundaries)
    ensures Normalize(data, bounds).Success?
        <==> |data| == 0 || (NonDegenerate(bounds) && forall i :: 0 <= i < |data| ==> |data[i]| == |bounds|)
    decreases |data|
  {
    if |data| > 0 {
      NormalizeSucceeds(data[1..], bounds);
      if NonDegenerate(bounds) && |data[0]| == |bounds| && |data| > 1 {
        assert (forall i :: 0 <= i < |data| ==> |data[i]| == |bounds|)
           <==> (forall i :: 0 <= i < |data| - 1 ==> |data[1..][i]| == |bounds|);
      }
    }
  }

  /**
   * `denormalize(normalize(data))` is the data itself, wherever `normalize`
   * succeeds.
   */
  lemma {:induction false} RoundTrip(data: seq<seq<real>>, bounds: Boundaries)
    requires Normalize(data, bounds).Success?
    ensures Denormalize(Normalize(data, bounds).value, bounds) == Success(data)
    decreases |data|
  {
    if |data| > 0 {
      PointRoundTrip(data[0], bounds);
      RoundTrip(data[1..], bounds);
      var n := Normalize(data, bounds).value;
      assert n[0] == NormalizePoint(data[0], bounds).value;
      assert n[1..] == Normalize(data[1..], bounds).value;
      assert data == [data[0]] + data[1..];
    }
  }

  /** And the other order: `normalize(denormalize(data))` is the data wherever no boundary is degenerate. */
  lemma {:induction false} RoundTripBack(data: seq<seq<real>>, bounds: Boundaries)
    requires Denormalize(data, bounds).Success? && NonDegenerate(bounds)
    ensures Normalize(Denormalize(data, bounds).value, bounds) == Success(data)
    decreases |data|
  {
    if |data| > 0 {
      PointRoundTrip(data[0], bounds);
      RoundTripBack(data[1..], bounds);
      var d := Denormalize(data, bounds).value;
      assert d[0] == DenormalizePoint(data[0], bounds).value;
      assert d[1..] == Denormalize(data[1..], bounds).value;
      assert data == [data[0]] + data[1..];
    }
  }

  /** The loader's boundaries are never degenerate and increase, so both rescalings are total on points of their width. */
  lemma LoaderBoundaries()
    ensures NonDegenerate(SpatialBoundaries) && NonDegenerate(FeatureBoundaries)
    ensures forall c :: 0 <= c < |SpatialBoundaries| ==> SpatialBoundaries[c].lo < SpatialBoundaries[c].hi
    ensures forall c :: 0 <= c < |FeatureBoundaries| ==> FeatureBoundaries[c].lo < FeatureBoundaries[c].hi
  {
  }
}
