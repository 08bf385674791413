# Adaptive curve discretization, modelled in Dafny

This project models the adaptive curve sampler of `curve2d.cpp` and the judge
`assessAnswer` in `main.cpp`.

The sampler discretizes a parametric 2D curve on `[0, 1]`:

- `RecursiveSampling` evaluates the midpoint of a window `[from, to]`.
- It computes the window's acceleration with `calcVelocityAcc`.
- It stops when the acceleration is within the configured threshold, or when
  the incremented depth exceeds 50. On stopping it appends the midpoint and
  `to`.
- Otherwise it recurses on the left half and then on the right half.
- `pointSampling` stores the sample at `t1` in front of what the recursion
  appends.
- `discretizeCurve` samples `[0, 1]` and returns the parameters, with the first
  one written twice and the last one appended again.

`assessAnswer` then judges the result:

- It rejects a null curve.
- It discretizes the curve and rejects a list of fewer than two parameters.
- It sorts the parameters.
- It rejects lists that are out of range, or do not start at 0 and end at 1.
- It evaluates the curve at the sorted list without its two ends.
- It rejects an acceleration above the threshold.
- Otherwise it rates the number of evaluated points.

## Modelling choices

- **Modules.** There are six:
  - `Geometry`: `Point2D`
  - `Differences`: `normFrobenius`, `calcVelocityAcc`
  - `Curves`: `Straight`, `Ellipse`, the vector `evalCurve`
  - `Sampler`: `RecursiveSampling`, `pointSampling`, `discretizeCurve`
  - `Sorting`: `std::sort`
  - `Assess`: `assessAnswer`
- **Reals.** Values are mathematical reals, and points are immutable `Point`
  values.
- **Curves.** A curve is its evaluation function `real -> Point`.
- **Squared norms.** Dafny has no square root, so every norm is carried
  squared. A comparison `sqrt(a) <= threshold` becomes
  `WithinThreshold(a, threshold)`. `Differences.ThresholdOnSquares` shows the
  two agree for every real threshold, negative ones included.
- **Generic flatness test.** The sampler is stated for any flatness test
  `flat` on a window's three points. The source's test is
  `AccelerationTest(threshold)`: `calcVelocityAcc` on the window, compared
  with the threshold.
- **Thresholds as parameters.** The threshold the source reads from
  `sysconfig.h` is a parameter. `sysconfig.h` is not part of this model.
- **Depth.** The source shares one depth counter by reference: it increments
  the counter on entry and decrements it on exit. So every call sees its
  caller's value plus one. Here `depth` is passed by value, and the stopping
  rule compares `depth + 1` with `MaxDepth` (50).
- **Call tree.** `SamplingWindows` lists the leaf windows of the recursion's
  call tree. `SamplingEmitsWindows` ties it to the samples appended: the
  midpoint and right end of each leaf, in order.
- **Verdicts.** Each message of `assessAnswer` is a constructor of `Verdict`.
  A score is `Scored(points, rating)`.
- **Two thresholds.** `assessAnswer` takes its own threshold, whose default is
  the same configured value the sampler uses. `AssessAnswer` keeps the two
  apart as `samplingThreshold` and `accThreshold`.

## Model

| member | source | states |
|---|---|---|
| Geometry.AccessorsRoundTrip | curve2d.h:11-16 | a point built from `x, y` reads back `x` and `y`; setting x then y, or y then x, gives the same point `Point(x, y)` |
| Geometry.SetX | curve2d.h:15 | `setX` stores the new x and leaves y unchanged; the point is unchanged exactly when the new x equals the old |
| Geometry.SetY | curve2d.h:16 | `setY` stores the new y and leaves x unchanged; the point is unchanged exactly when the new y equals the old |
| Geometry.NormSq | curve2d.cpp:110-112 | the squared norm is never negative and is zero exactly for the zero vector |
| Differences.ThresholdOnSquares | curve2d.cpp:29 | for a norm `n >= 0`, `n <= threshold` holds exactly when the squared comparison `WithinThreshold(n*n, threshold)` holds |
| Differences.NormFrobenius | curve2d.cpp:105-116 | one norm per vector, in order; each is non-negative and is zero exactly for the zero vector |
| Differences.MaxElement | curve2d.cpp:93-94 | the value found by `max_element` is at least every entry and is one of the entries |
| Differences.Deltas | curve2d.cpp:75-80 | on a non-empty list, one difference per neighbouring pair; the contract states only this length, and `SecondDeltas` ties down the contents |
| Differences.SecondDeltas | curve2d.cpp:75-92 | entry `i` of the norms of the differences of the differences is the norm of the second difference `p[i+2] - 2p[i+1] + p[i]` |
| Differences.CalcVelocityAcc | curve2d.cpp:71-95 | on at least three points: start and end velocity are the norms of the first and last first differences, and the maximum acceleration bounds every window's second difference and is attained by one |
| Differences.WindowAcceleration | curve2d.cpp:25-27 | on the three points of a sampling window, the maximum acceleration is the norm of its single second difference |
| Curves.ConstructorsKeepArguments | curve2d.h:35-62 | `Straight` keeps its end points and `Ellipse` its centre and radii unchanged; an ellipse is a circle exactly when the radii are equal |
| Curves.StraightAt | curve2d.cpp:135-141 | the line passes through its start point at `t = 0` and its end point at `t = 1` |
| Curves.StraightHasNoAcceleration | curve2d.cpp:135-141 | over any interval and its midpoint, the second difference of a straight line is the zero vector, so its acceleration is 0 |
| Curves.StraightCurveHasNoAcceleration | curve2d.cpp:135-141 | the straight-line curve's points at 0, 0.5 and 1 have the zero vector as second difference |
| Curves.CirclePointOnCircle | curve2d.cpp:144-150 | for a circle, wherever `cos^2 + sin^2 = 1`, the evaluated point lies at squared distance `radius^2` from the centre |
| Curves.EvalCurve | curve2d.cpp:97-103 | the vector evaluation keeps length and order: entry `i` is the curve at parameter `i` |
| Sampler.Evaluate | curve2d.cpp:21-22 | a new sample stores the parameter and the curve's point at that parameter |
| Sampler.WindowAcc | curve2d.cpp:25-27 | the acceleration `calcVelocityAcc` reports for a window is the squared norm of its second difference |
| Sampler.AccelerationTestIsSecondDifference | curve2d.cpp:25-29 | a window passes the stopping test exactly when its second-difference norm is within the threshold; with a negative threshold no window passes |
| Sampler.RecursiveSampling | curve2d.cpp:15-40 | every call appends at least two samples and the last one is `to` |
| Sampler.SamplingIncreasing | curve2d.cpp:19-38 | on a proper interval the appended parameters are strictly increasing and lie in `(from.t, to.t]` |
| Sampler.SamplingEmitsWindows | curve2d.cpp:29-38 | the appended samples are exactly the midpoint and right end of every leaf window of the call tree, left to right |
| Sampler.SamplingEvenLength | curve2d.cpp:29-38 | the number of appended samples is even |
| Sampler.WindowsStop | curve2d.cpp:19-39 | the leaf windows tile `[from, to]`; in each the midpoint is the curve halfway along and the window is flat or its incremented depth exceeds 50; from depth 0 no leaf lies deeper than 51 |
| Sampler.SplitAncestors | curve2d.cpp:29-38 | the converse of `WindowsStop`: each leaf is the starting window itself, or hangs below a chain of windows starting at `[from, to]`, each a half of the one before, every one of which has the curve at its midpoint, is not flat and lies at a level of at most 50, so the call splits only such windows |
| Sampler.WindowWidth | curve2d.cpp:21-37 | each leaf window spans the starting interval halved once per level below the starting call |
| Sampler.WindowsCachedFrom | curve2d.cpp:19-22 | every stored point is the curve's value at its stored parameter |
| Sampler.WindowCount | curve2d.cpp:29-38 | a call at depth `d` produces at most `2^(50-d)` leaf windows, and exactly that many when no window is ever flat |
| Sampler.PointSampling | curve2d.cpp:43-54 | the stored samples start at `t1` and end at `t2`, number at least three and are all coherently cached; for `t1 < t2` they are strictly increasing inside `[t1, t2]` |
| Sampler.SampledFromWindows | curve2d.cpp:43-54 | the stored samples are the sample at `t1` followed by the midpoint and right end of every leaf window |
| Sampler.SampleCount | curve2d.cpp:15-54 | at most `2^51 + 1` samples are stored, and exactly that many when no window is ever flat |
| Sampler.FlatPointSampling | curve2d.cpp:29-33 | when the whole interval is flat, exactly the two ends and the midpoint are stored |
| Sampler.SampledWindowsStop | curve2d.cpp:29-37 | the output splits into consecutive windows `r[2j], r[2j+1], r[2j+2]`; each has the curve at its midpoint and is flat unless it is a narrowest window, `2^-50` of the interval wide |
| Sampler.SampledAccelerationWithin | curve2d.cpp:24-33 | every window of the samples behind `discretizeCurve` has its acceleration within the threshold, unless it is `2^-50` wide |
| Sampler.DiscretizeCurve | curve2d.cpp:120-131 | the result is `[0, 0] ++ interior ++ [1, 1]` with a non-empty interior strictly increasing inside `(0, 1)`; the whole list is non-decreasing inside `[0, 1]` |
| Sampler.DiscretizedFromSamples | curve2d.cpp:124-130 | the returned list is the parameters `pointSampling` stored over `[0, 1]`, in order: entry `i + 1` is the `i`-th sample's parameter, with the first and last written once more at the ends |
| Sampler.DiscretizedAccelerationWithin | curve2d.cpp:120-131 | on the returned list itself, evaluating the curve at `r[2j+1], r[2j+2], r[2j+3]` gives a second difference within the threshold for every sampled window, unless the window is `2^-50` wide |
| Sampler.DuplicatedEnds | curve2d.cpp:126-130 | writing the first parameter twice and the last one again turns increasing samples from 0 to 1 into that duplicated-ends shape |
| Sampler.FlatDiscretization | curve2d.cpp:120-131 | when the curve's points at `0, 0.5, 1` have a second difference within the threshold, the result is exactly `[0, 0, 0.5, 1, 1]` |
| Sampler.StraightIsFlat | curve2d.cpp:135-141 | a straight line passes the acceleration test over `[0, 1]` for every non-negative threshold, its second difference there being within it |
| Sampler.StraightDiscretization | curve2d.cpp:120-141 | a straight line with a non-negative threshold is discretized as exactly `[0, 0, 0.5, 1, 1]` |
| Sorting.Sort | main.cpp:37 | the sorted list is a non-decreasing permutation of the input |
| Sorting.SortSortedIdentity | main.cpp:36-37 | sorting an already sorted list changes nothing |
| Sorting.SortedEnds | main.cpp:37-52 | the first sorted entry is the least entry of the list and the last is the greatest |
| Assess.Rate | main.cpp:91-100 | the five messages partition the scores: above 100, 39 to 100, 26 to 38, exactly 25, below 25 |
| Assess.FewerPointsRateNoWorse | main.cpp:88-100 | fewer points never earn a worse message |
| Assess.Inner | main.cpp:59-61 | exactly the first and last sorted values are dropped, so two fewer values are evaluated |
| Assess.MaxWithinIffAllWithin | main.cpp:63-65 | the maximum acceleration is within the threshold exactly when every window's acceleration is |
| Assess.AssessParams | main.cpp:29-101 | the checks never report a missing curve, and a score counts the list's entries minus two, rated by `Rate` |
| Assess.CheckSorted | main.cpp:38-101 | after the sort, the checks never report a missing curve, and a score counts the evaluated points |
| Assess.AssessParamsVerdicts | main.cpp:29-70 | in terms of the unsorted list: fewer than 2 entries, some entry below 0, all entries at least 0 with some above 1, and 0 or 1 missing from a list inside `[0, 1]` each give their own rejection. The acceleration check is reached exactly when the list has at least 5 entries, all inside `[0, 1]`, with 0 and 1 present. It then rejects exactly when some window of the evaluated points exceeds the threshold |
| Assess.AssessAnswer | main.cpp:16-28 | "No input curve" is reported exactly for a null curve |
| Assess.SortingIsRedundant | main.cpp:36-37 | sorting the output of `discretizeCurve` leaves it unchanged |
| Assess.DiscretizationLength | curve2d.cpp:126-130 | the discretization has two entries more than the samples behind it |
| Assess.DiscretizationPassesChecks | main.cpp:28-88 | the output of `discretizeCurve` passes every range and endpoint check, so the verdict is the acceleration rejection or a score; a score equals the number of samples `pointSampling` stored |
| Assess.FlatCurveAssessment | main.cpp:16-101 | a curve whose points at `0, 0.5, 1` have a second difference within both thresholds scores 3 points with the best message |
| Assess.StraightAssessment | main.cpp:106-108 | the straight line judged first by `main` scores 3 points with the best message, for any non-negative thresholds |

## Left out

- **Floating point.** IEEE `double` rounding is not modelled; values are reals.
- **Square roots.** `std::sqrt` in `normFrobenius` is not modelled. Norms are
  carried squared, and every comparison with the threshold is restated on
  squares. Those comparisons are exact.
- **Ellipse trigonometry.** `std::cos` and `std::sin` in `Ellipse::evalCurve`
  are parameters of `EllipseAt`, because Dafny has no trigonometry.
- **Parabola and Hyperbola.** They declare `evalCurve` with no body, so there
  is nothing to model.
- **I/O.** `outputLog` and the messages printed to `std::cout` are replaced by
  the `Verdict` value.
- **`main`.** Its `shared_ptr` construction is left out; only its first call
  appears, in `StraightAssessment`.
- **Disabled checks.** The velocity checks inside `#if 0` in `assessAnswer`
  are not compiled, so they are not modelled.
- **`getCurvePoint`.** This and the template plumbing collapse into the curve
  function `f`.
- **`sysconfig.h`.** It is not part of this model. The configured threshold
  is a parameter.
- **eval_tools.py.** This numpy-based evaluator is not part of this model.
- **Short lists.** The source fails when `calcVelocityAcc` gets fewer than
  three points:
  - With no points, `vecPoints.size() - 1` wraps around to the largest
    `size_t` (curve2d.cpp:75), and the `std::vector` constructor throws
    `std::length_error`.
  - With one point, `vecVels[0]` reads an empty vector (curve2d.cpp:82).
  - With two points, `max_element` of an empty vector returns its end, and
    the element there is read (curve2d.cpp:93-94).
  - `Differences.CalcVelocityAcc` requires three points.
  - In `assessAnswer`, a list of 2 to 4 entries that passes the endpoint
    checks gives 0 to 2 points. It gets its own verdict, `TooFewPoints`.
  - `DiscretizationPassesChecks` shows that no discretization reaches it.
- **Straight-line output.** A straight line gives `[0, 0, 0.5, 1, 1]`: the
  first window's midpoint is always stored and both ends are written twice
  (`StraightDiscretization`).
- **Disabled-check comment.** The comment before the disabled velocity checks
  says the first and last parameters are duplicated. The duplicates are
  dropped before evaluation, so the evaluated points start and end with
  distinct parameters. This only matters for code that is not compiled.
- Curves.ConstructorsKeepArguments: states what Dafny's constructors
  guarantee by construction; it records the source's promise and adds no
  proof.
- Geometry.AccessorsRoundTrip: likewise follows from the datatype's field
  access and update.
