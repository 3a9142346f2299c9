/**
 What the curve-fitting stage demands of its input and how many samples it
 draws. The fitted values themselves are floating-point numerics of an
 external solver and are not modelled; only the acceptance conditions of the
 solver and the number of evenly spaced samples are.
 */
module Sampling {
  import opened Results
  import opened Geometry
  import opened Normalization

  /** Samples drawn per normalized point in the interactive routine. */
  const OversamplingFactor: nat := 3

  predicate Increasing(xs: seq<int>)
  {
    forall i, j :: 0 <= i < j < |xs| ==> xs[i] < xs[j]
  }

  /** The cubic-spline solver accepts at least two abscissae, strictly
      increasing, with one ordinate each. */
  predicate SplineAccepts(xs: seq<int>, ys: seq<int>)
  {
    |xs| >= 2 && |ys| == |xs| && Increasing(xs)
  }

  /** Why the stand-alone helper can fail: the solver refused its input, or
      the requested number of samples is negative. */
  datatype SplineFault = InputRejected | NegativeSampleCount

  /** The stand-alone spline helper with multiplier `factor` (3 when the caller
      gives none): the number of samples it returns, `factor` per input point,
      or why it fails. The solver is built before the samples are counted, so
      a refused input is reported even when the count is also negative. */
  function InterpolateCount(xs: seq<int>, ys: seq<int>, factor: int): (r: Result<nat, SplineFault>)
    ensures r.Success? <==> SplineAccepts(xs, ys) && factor >= 0
    ensures !SplineAccepts(xs, ys) ==> r == Failure(InputRejected)
    ensures SplineAccepts(xs, ys) && factor < 0 ==> r == Failure(NegativeSampleCount)
    ensures r.Success? ==> r.value == factor * |xs| && r.value >= 2 * factor
  {
    if !SplineAccepts(xs, ys) then Failure(InputRejected)
    else if factor < 0 then
      assert factor * |xs| < 0;
      Failure(NegativeSampleCount)
    else Success(factor * |xs|)
  }

  /** The fitting step of the interactive routine on a normalized point set:
      it fails exactly when fewer than two points remain, and otherwise draws
      three samples per point. */
  function FitSamples(u: seq<Point>): (r: Result<nat, Fault>)
    requires XStrict(u)
    ensures r.Success? <==> |u| >= 2
    ensures r.Failure? ==> r.error == SplineRejected
    ensures r.Success? ==> r.value == OversamplingFactor * |u| && r.value >= 6
  {
    if !SplineAccepts(Xs(u), Ys(u)) then Failure(SplineRejected)
    else Success(OversamplingFactor * |Xs(u)|)
  }

  /** The interactive routine counts its samples exactly as the stand-alone
      helper would with its default multiplier. */
  lemma FitAgreesWithHelper(u: seq<Point>)
    requires XStrict(u)
    ensures FitSamples(u).Success? <==> InterpolateCount(Xs(u), Ys(u), OversamplingFactor).Success?
    ensures FitSamples(u).Success? ==>
      FitSamples(u).value == InterpolateCount(Xs(u), Ys(u), OversamplingFactor).value
  {
  }

  /** On a normalized contour, fitting fails exactly when the contour touches
      fewer than two columns, and otherwise draws three samples per distinct
      column. */
  lemma FitOfNormalized(pts: seq<Point>)
    ensures FitSamples(Normalize(pts)).Success? <==> |XSet(pts)| >= 2
    ensures FitSamples(Normalize(pts)).Success? ==>
      FitSamples(Normalize(pts)).value == OversamplingFactor * |XSet(pts)|
  {
    NormalizeCount(pts);
  }
}
