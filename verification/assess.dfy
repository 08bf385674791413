/** `assessAnswer`: the judge that discretizes a curve and rates the
    result. The source reports its verdict by printing a message; here the
    verdict is a value, one constructor per message (or per way the source
    stops). */
module Assess {
  import opened Geometry
  import opened Differences
  import opened Curves
  import opened Sampler
  import opened Sorting

  /** A curve that may be missing, as a null `Curve2D*` is. */
  datatype Option<T> = None | Some(value: T)

  /** The five closing messages, best first. */
  datatype Rating = BeyondExpectation | Optimal | Exceptional | WellOnWay | Ballpark

  /** The outcome of `assessAnswer`. `TooFewPoints` stands for a list that
      passes the endpoint checks with fewer than five entries: the source
      then runs `calcVelocityAcc` on fewer than three points. With none,
      the size of its difference vector wraps around and the vector's
      constructor throws; with one or two, it reads an empty vector. */
  datatype Verdict =
    | NoInputCurve
    | EmptyParameters
    | NegativePoint
    | PointAboveOne
    | WrongEndpoints
    | TooFewPoints
    | ExceedsThreshold
    | Scored(points: nat, rating: Rating)

  /** The message chosen for a score: more than 100 points, more than 38,
      more than 25, exactly 25, or fewer. */
  function Rate(score: nat): (r: Rating)
    ensures r == Ballpark <==> score > 100
    ensures r == WellOnWay <==> 38 < score <= 100
    ensures r == Exceptional <==> 25 < score <= 38
    ensures r == Optimal <==> score == 25
    ensures r == BeyondExpectation <==> score < 25
  {
    if score > 100 then Ballpark
    else if score > 38 then WellOnWay
    else if score > 25 then Exceptional
    else if score == 25 then Optimal
    else BeyondExpectation
  }

  /** Position of a rating, best first. */
  function Rank(r: Rating): nat
  {
    match r
    case BeyondExpectation => 0
    case Optimal => 1
    case Exceptional => 2
    case WellOnWay => 3
    case Ballpark => 4
  }

  /** Fewer points never earn a worse rating. */
  lemma {:induction false} FewerPointsRateNoWorse(fewer: nat, more: nat)
    requires fewer <= more
    ensures Rank(Rate(fewer)) <= Rank(Rate(more))
  {
  }

  /** Every entry lies in `[0, 1]`. */
  predicate InUnit(params: seq<real>)
  {
    forall i :: 0 <= i < |params| ==> 0.0 <= params[i] <= 1.0
  }

  /** The list passes every check before the acceleration test: at least
      five entries, all inside `[0, 1]`, with 0 and 1 among them. */
  predicate PassesChecks(params: seq<real>)
  {
    |params| >= 5 && InUnit(params) && 0.0 in params && 1.0 in params
  }

  /** The sorted list without its first and last entry: the parameters at
      which `assessAnswer` evaluates the curve. */
  function Inner(sorted: seq<real>): (r: seq<real>)
    requires |sorted| >= 2
    ensures |r| == |sorted| - 2
    ensures forall i :: 0 <= i < |r| ==> r[i] == sorted[i + 1]
  {
    sorted[1..|sorted| - 1]
  }

  /** Every window of three consecutive points has its second difference
      within the threshold. */
  predicate AllWindowsWithin(points: seq<Point>, threshold: real)
  {
    forall i :: 0 <= i < |points| - 2 ==> WithinThreshold(AccAt(points, i), threshold)
  }

  /** The maximum acceleration is within the threshold exactly when every
      window's acceleration is. */
  lemma {:induction false} MaxWithinIffAllWithin(points: seq<Point>, threshold: real)
    requires |points| >= 3
    ensures WithinThreshold(CalcVelocityAcc(points).maxAcc, threshold) <==> AllWindowsWithin(points, threshold)
  {
    var k := CalcVelocityAcc(points);
    if WithinThreshold(k.maxAcc, threshold) {
      forall i | 0 <= i < |points| - 2
        ensures WithinThreshold(AccAt(points, i), threshold)
      {
        assert AccAt(points, i) <= k.maxAcc;
      }
    } else {
      var i :| 0 <= i < |points| - 2 && AccAt(points, i) == k.maxAcc;
      assert !WithinThreshold(AccAt(points, i), threshold);
    }
  }

  /** The checks of `assessAnswer` on a parameter list, in the source's
      order: fewer than two entries, then the sort, then the checks on the
      sorted list (`CheckSorted`). */
  function AssessParams(f: real -> Point, params: seq<real>, threshold: real): (v: Verdict)
    ensures v != NoInputCurve
    ensures v.Scored? ==> v.points == |params| - 2 && v.rating == Rate(v.points)
  {
    if |params| < 2 then EmptyParameters
    else CheckSorted(f, Sort(params), threshold)
  }

  /** The checks on the sorted list: a negative first entry, a last entry
      above 1, endpoints other than 0 and 1, then the acceleration of the
      curve at the list without its ends against `threshold`. A passing list
      scores one point per evaluated parameter. */
  function CheckSorted(f: real -> Point, sorted: seq<real>, threshold: real): (v: Verdict)
    requires |sorted| >= 2
    ensures v != NoInputCurve
    ensures v.Scored? ==> v.points == |sorted| - 2 && v.rating == Rate(v.points)
  {
    var last := |sorted| - 1;
    if sorted[0] < 0.0 then NegativePoint
    else if sorted[last] > 1.0 then PointAboveOne
    else if sorted[0] != 0.0 || sorted[last] != 1.0 then WrongEndpoints
    else if |sorted| < 5 then TooFewPoints
    else
      var points := EvalCurve(f, Inner(sorted));
      if !WithinThreshold(CalcVelocityAcc(points).maxAcc, threshold) then ExceedsThreshold
      else Scored(|points|, Rate(|points|))
  }

  /** Each verdict of `AssessParams`, characterised on the unsorted list:
      which check a list fails depends only on its length, its least and
      greatest entry and whether 0 and 1 occur; a list passing the checks
      exceeds the threshold exactly when some window of the curve at its
      inner parameters does. */
  lemma {:induction false} AssessParamsVerdicts(f: real -> Point, params: seq<real>, threshold: real)
    ensures var v := AssessParams(f, params, threshold);
      (v == EmptyParameters <==> |params| < 2) &&
      (v == NegativePoint <==> |params| >= 2 && exists i :: 0 <= i < |params| && params[i] < 0.0) &&
      (v == PointAboveOne <==>
         |params| >= 2 && (forall i :: 0 <= i < |params| ==> params[i] >= 0.0) &&
         exists i :: 0 <= i < |params| && params[i] > 1.0) &&
      (v == WrongEndpoints <==> |params| >= 2 && InUnit(params) && (0.0 !in params || 1.0 !in params)) &&
      (v == TooFewPoints <==> 2 <= |params| < 5 && InUnit(params) && 0.0 in params && 1.0 in params)
    ensures var v := AssessParams(f, params, threshold);
      (v == ExceedsThreshold || v.Scored?) <==> PassesChecks(params)
    ensures var v := AssessParams(f, params, threshold);
      PassesChecks(params) ==>
        (v == ExceedsThreshold <==> !AllWindowsWithin(EvalCurve(f, Inner(Sort(params))), threshold))
  {
    if |params| >= 2 {
      var sorted := Sort(params);
      SortedEnds(params);
      var lo, hi := sorted[0], sorted[|sorted| - 1];
      assert InUnit(params) <==> 0.0 <= lo && hi <= 1.0;
      assert 0.0 <= lo ==> (0.0 in params <==> lo == 0.0);
      assert hi <= 1.0 ==> (1.0 in params <==> hi == 1.0);
      if PassesChecks(params) {
        MaxWithinIffAllWithin(EvalCurve(f, Inner(sorted)), threshold);
      }
    }
  }

  /** `assessAnswer`: a null curve is rejected; otherwise the curve's
      discretization, sampled with `samplingThreshold`, is checked against
      `accThreshold`. The program passes the same configured threshold for
      both. */
  function AssessAnswer(curve: Option<real -> Point>, samplingThreshold: real, accThreshold: real): (v: Verdict)
    ensures curve.None? <==> v == NoInputCurve
  {
    match curve
    case None => NoInputCurve
    case Some(f) => AssessParams(f, DiscretizeCurve(f, samplingThreshold), accThreshold)
  }

  /** The discretization is already sorted, so the sort in `assessAnswer`
      leaves it unchanged. */
  lemma SortingIsRedundant(f: real -> Point, threshold: real)
    ensures Sort(DiscretizeCurve(f, threshold)) == DiscretizeCurve(f, threshold)
  {
    var r := DiscretizeCurve(f, threshold);
    assert SortedAsc(r);
    SortSortedIdentity(r);
  }

  /** A discretization always passes the range and endpoint checks, so
      `calcVelocityAcc` gets at least three points: `assessAnswer` on any
      curve either reports the acceleration or scores it, and the score is
      the number of samples `pointSampling` stored. */
  lemma DiscretizationPassesChecks(f: real -> Point, samplingThreshold: real, accThreshold: real)
    ensures PassesChecks(DiscretizeCurve(f, samplingThreshold))
    ensures var v := AssessAnswer(Some(f), samplingThreshold, accThreshold);
      v == ExceedsThreshold || v.Scored?
    ensures var v := AssessAnswer(Some(f), samplingThreshold, accThreshold);
      v.Scored? ==>
        v.points == |PointSampling(f, AccelerationTest(samplingThreshold), 0.0, 1.0)| && v.points >= 3
  {
    var r := DiscretizeCurve(f, samplingThreshold);
    assert DiscretizedShape(r);
    assert r[0] == 0.0 && r[|r| - 1] == 1.0;
    assert PassesChecks(r);
    AssessParamsVerdicts(f, r, accThreshold);
    DiscretizationLength(f, samplingThreshold);
  }

  /** The discretization has two entries more than the samples it comes
      from: the first and the last are written twice. */
  lemma DiscretizationLength(f: real -> Point, threshold: real)
    ensures |DiscretizeCurve(f, threshold)| == |PointSampling(f, AccelerationTest(threshold), 0.0, 1.0)| + 2
  {
  }

  /** A curve whose three points at `0, 0.5, 1` have a second difference
      within both thresholds is sampled only there; `assessAnswer` then evaluates it at those
      same three parameters, so it
      scores 3 points and gets the best rating. */
  lemma FlatCurveAssessment(f: real -> Point, samplingThreshold: real, accThreshold: real)
    requires WithinThreshold(NormSq(SecondDifference(f(0.0), f(0.5), f(1.0))), samplingThreshold)
    requires WithinThreshold(NormSq(SecondDifference(f(0.0), f(0.5), f(1.0))), accThreshold)
    ensures AssessAnswer(Some(f), samplingThreshold, accThreshold) == Scored(3, BeyondExpectation)
  {
    FlatDiscretization(f, samplingThreshold);
    FlatParamsScore(f, DiscretizeCurve(f, samplingThreshold), accThreshold);
  }

  /** The list `0, 0, 0.5, 1, 1` is already sorted and scores 3 points on a
      curve flat over `[0, 1]`. */
  lemma {:induction false} FlatParamsScore(f: real -> Point, params: seq<real>, threshold: real)
    requires params == [0.0, 0.0, 0.5, 1.0, 1.0]
    requires WithinThreshold(NormSq(SecondDifference(f(0.0), f(0.5), f(1.0))), threshold)
    ensures AssessParams(f, params, threshold) == Scored(3, BeyondExpectation)
  {
    assert SortedAsc(params);
    SortSortedIdentity(params);
    FlatSortedScore(f, params, threshold);
  }

  /** The checks after the sort on `0, 0, 0.5, 1, 1`: the curve is
      evaluated at `0, 0.5, 1`, one window, which passes. */
  lemma {:induction false} FlatSortedScore(f: real -> Point, sorted: seq<real>, threshold: real)
    requires sorted == [0.0, 0.0, 0.5, 1.0, 1.0]
    requires WithinThreshold(NormSq(SecondDifference(f(0.0), f(0.5), f(1.0))), threshold)
    ensures CheckSorted(f, sorted, threshold) == Scored(3, BeyondExpectation)
  {
    var points := EvalCurve(f, Inner(sorted));
    assert |points| == 3;
    assert points[0] == f(sorted[1]) && points[1] == f(sorted[2]) && points[2] == f(sorted[3]);
    assert points == [f(0.0), f(0.5), f(1.0)];
    assert CalcVelocityAcc(points).maxAcc == WindowAcc(f(0.0), f(0.5), f(1.0));
    assert Rate(|points|) == BeyondExpectation;
  }

  /** With non-negative thresholds, `assessAnswer` on a straight line
      scores 3 points and gives the best rating. */
  lemma StraightAssessment(line: Straight, samplingThreshold: real, accThreshold: real)
    requires samplingThreshold >= 0.0 && accThreshold >= 0.0
    ensures AssessAnswer(Some(StraightCurve(line)), samplingThreshold, accThreshold) == Scored(3, BeyondExpectation)
  {
    StraightIsFlat(line, samplingThreshold);
    StraightIsFlat(line, accThreshold);
    FlatCurveAssessment(StraightCurve(line), samplingThreshold, accThreshold);
  }
}
