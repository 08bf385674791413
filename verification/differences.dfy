/** The finite-difference estimates of `Curve2D::normFrobenius` and
    `Curve2D::calcVelocityAcc`. Both are static members in the source, so
    here they are functions of the point list alone.

    Dafny has no square root, so every norm is carried as its SQUARE. A
    comparison `sqrt(a) <= threshold` becomes `WithinThreshold(a, threshold)`;
    `ThresholdOnSquares` shows the two agree for every real threshold. */
module Differences {
  import opened Geometry

  /** The result of `calcVelocityAcc`, each norm squared. */
  datatype Kinematics = Kinematics(startVel: real, endVel: real, maxAcc: real)

  /** The discrete second difference `c - 2b + a` of three consecutive points. */
  function SecondDifference(a: Point, b: Point, c: Point): Point
  {
    Point(c.x - 2.0 * b.x + a.x, c.y - 2.0 * b.y + a.y)
  }

  /** Squared acceleration norm of the second difference at index `i`. */
  function AccAt(ps: seq<Point>, i: nat): real
    requires i + 2 < |ps|
  {
    NormSq(SecondDifference(ps[i], ps[i + 1], ps[i + 2]))
  }

  /** `sqrt(acc) <= threshold`, stated on the squared norm `acc`. */
  predicate WithinThreshold(acc: real, threshold: real)
  {
    0.0 <= threshold && acc <= threshold * threshold
  }

  /** Comparing squares is the same as comparing the norms themselves: for a
      norm `n >= 0`, `n <= threshold` exactly when `WithinThreshold(n*n, threshold)`. */
  lemma ThresholdOnSquares(n: real, threshold: real)
    requires n >= 0.0
    ensures WithinThreshold(n * n, threshold) <==> n <= threshold
  {
    if n <= threshold {
      assert n * n <= n * threshold <= threshold * threshold;
    } else if 0.0 <= threshold {
      assert threshold * threshold <= threshold * n < n * n;
    }
  }

  /** A vanishing acceleration is within every non-negative threshold. */
  lemma NoAccelerationIsWithin(acc: real, threshold: real)
    requires acc == 0.0
    requires threshold >= 0.0
    ensures WithinThreshold(acc, threshold)
  {
    ThresholdOnSquares(0.0, threshold);
  }

  /** Successive deltas `ps[i+1] - ps[i]`: the loops filling
      `vecFirstDiffs` and `vecSecondDiffs`. An empty list would make the
      source's `size() - 1` wrap around, so one point is the least it takes. */
  function Deltas(ps: seq<Point>): (r: seq<Point>)
    requires |ps| > 0
    ensures |r| == |ps| - 1
  {
    seq(|ps| - 1, i requires 0 <= i < |ps| - 1 => Sub(ps[i + 1], ps[i]))
  }

  /** `normFrobenius`: one norm per vector, in order. Every entry is
      non-negative and vanishes exactly on the zero vector. */
  function NormFrobenius(vs: seq<Point>): (r: seq<real>)
    ensures |r| == |vs|
    ensures forall i :: 0 <= i < |r| ==> r[i] >= 0.0
    ensures forall i :: 0 <= i < |r| ==> (r[i] == 0.0 <==> vs[i] == Origin)
  {
    seq(|vs|, i requires 0 <= i < |vs| => NormSq(vs[i]))
  }

  /** The value `*std::max_element(s)`: an entry of `s` no smaller than any other. */
  function MaxElement(s: seq<real>): (r: real)
    requires |s| > 0
    ensures forall i :: 0 <= i < |s| ==> s[i] <= r
    ensures exists i :: 0 <= i < |s| && s[i] == r
  {
    if |s| == 1 then s[0]
    else
      var rest := MaxElement(s[1..]);
      assert forall i :: 1 <= i < |s| ==> s[i] == s[1..][i - 1];
      if s[0] < rest then rest else s[0]
  }

  /** `calcVelocityAcc`: start and end velocity are the norms of the first
      and last first difference, and the maximum acceleration is the largest
      second-difference norm `|p[i+2] - 2 p[i+1] + p[i]|`. With one or two
      points the source reads an element of an empty vector, and with none
      the size of its first vector wraps around, so three points are
      required. */
  function CalcVelocityAcc(ps: seq<Point>): (r: Kinematics)
    requires |ps| >= 3
    ensures r.startVel == NormSq(Sub(ps[1], ps[0]))
    ensures r.endVel == NormSq(Sub(ps[|ps| - 1], ps[|ps| - 2]))
    ensures forall i :: 0 <= i < |ps| - 2 ==> AccAt(ps, i) <= r.maxAcc
    ensures exists i :: 0 <= i < |ps| - 2 && AccAt(ps, i) == r.maxAcc
    ensures r.startVel >= 0.0 && r.endVel >= 0.0 && r.maxAcc >= 0.0
  {
    var firstDiffs := Deltas(ps);
    var vels := NormFrobenius(firstDiffs);
    var secondDiffs := Deltas(firstDiffs);
    var accs := NormFrobenius(secondDiffs);
    SecondDeltas(ps);
    Kinematics(vels[0], vels[|vels| - 1], MaxElement(accs))
  }

  /** Entry `i` of the deltas of the deltas is the second difference at `i`. */
  lemma {:induction false} SecondDeltas(ps: seq<Point>)
    requires |ps| >= 2
    ensures forall i :: 0 <= i < |ps| - 2 ==>
      NormFrobenius(Deltas(Deltas(ps)))[i] == AccAt(ps, i)
  {
    var firstDiffs := Deltas(ps);
    var secondDiffs := Deltas(firstDiffs);
    forall i | 0 <= i < |ps| - 2
      ensures NormFrobenius(secondDiffs)[i] == AccAt(ps, i)
    {
      assert secondDiffs[i] == Sub(firstDiffs[i + 1], firstDiffs[i]);
      assert secondDiffs[i] == SecondDifference(ps[i], ps[i + 1], ps[i + 2]);
    }
  }

  /** On a three-point window, as the sampler uses it, the maximum
      acceleration is the single second difference of the window. */
  lemma WindowAcceleration(a: Point, b: Point, c: Point)
    ensures CalcVelocityAcc([a, b, c]).maxAcc == NormSq(SecondDifference(a, b, c))
  {
    assert AccAt([a, b, c], 0) == NormSq(SecondDifference(a, b, c));
  }
}
