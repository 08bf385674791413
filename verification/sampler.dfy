/** The adaptive sampler of `curve2d.cpp`: `RecursiveSampling`,
    `pointSampling` and `Curve2D::discretizeCurve`.

    The source keeps the recursion depth in one `int` passed by reference,
    incremented on entry and decremented on exit, so every call sees its
    caller's value plus one. Here `depth` is passed by value and `level`
    (`depth + 1`) is the incremented value the stopping rule compares
    against `MaxDepth`.

    The recursion is stated for any flatness test `flat`; the source's test,
    `calcVelocityAcc` against the configured threshold, is
    `AccelerationTest(threshold)`, which `DiscretizeCurve` supplies. The
    threshold the source reads from its configuration is a parameter. */
module Sampler {
  import opened Geometry
  import opened Differences
  import opened Curves

  /** A call whose incremented depth exceeds this stops subdividing. */
  const MaxDepth: nat := 50

  /** `IntPoint`: a parameter together with the cached curve point. */
  datatype ParamSample = ParamSample(t: real, pt: Point)

  /** The cache is coherent: the stored point is the curve's value at `t`. */
  predicate Cached(f: real -> Point, s: ParamSample)
  {
    s.pt == f(s.t)
  }

  /** Evaluates the curve once and caches the result, as `f(pCurve, t)` does. */
  function Evaluate(f: real -> Point, t: real): (s: ParamSample)
    ensures Cached(f, s) && s.t == t
  {
    ParamSample(t, f(t))
  }

  /** Every sample of `s` is cached. */
  predicate AllCached(f: real -> Point, s: seq<ParamSample>)
  {
    forall i :: 0 <= i < |s| ==> Cached(f, s[i])
  }

  /** Every parameter lies in the closed interval `[lo, hi]`. */
  predicate WithinClosed(s: seq<ParamSample>, lo: real, hi: real)
  {
    forall i :: 0 <= i < |s| ==> lo <= s[i].t <= hi
  }

  /** Parameters strictly increasing along the sequence. */
  predicate Increasing(s: seq<ParamSample>)
  {
    forall i, j :: 0 <= i < j < |s| ==> s[i].t < s[j].t
  }

  /** The parameter values of a sample sequence, in order. */
  function Params(s: seq<ParamSample>): (r: seq<real>)
    ensures |r| == |s|
    ensures forall i :: 0 <= i < |s| ==> r[i] == s[i].t
  {
    seq(|s|, i requires 0 <= i < |s| => s[i].t)
  }

  /** `2^n`. */
  function Pow2(n: nat): (r: nat)
    ensures r >= 1
  {
    if n == 0 then 1 else 2 * Pow2(n - 1)
  }

  /** A flatness test on the three points of a window `[from, mid, to]`. */
  type FlatTest = (Point, Point, Point) -> bool

  /** The acceleration `calcVelocityAcc` reports for a window's three
      points: the squared norm of its single second difference. */
  function WindowAcc(a: Point, m: Point, b: Point): (r: real)
    ensures r == NormSq(SecondDifference(a, m, b))
  {
    WindowAcceleration(a, m, b);
    CalcVelocityAcc([a, m, b]).maxAcc
  }

  /** The test of `RecursiveSampling`: `calcVelocityAcc` on the window's
      three points reports an acceleration within the threshold. */
  function AccelerationTest(threshold: real): FlatTest
  {
    (a: Point, m: Point, b: Point) => WithinThreshold(WindowAcc(a, m, b), threshold)
  }

  /** The window passes the acceleration test exactly when the norm of its
      single second difference is within the threshold; no window passes
      with a negative threshold. */
  lemma AccelerationTestIsSecondDifference(threshold: real, a: Point, m: Point, b: Point)
    ensures AccelerationTest(threshold)(a, m, b) <==> WithinThreshold(NormSq(SecondDifference(a, m, b)), threshold)
    ensures threshold < 0.0 ==> !AccelerationTest(threshold)(a, m, b)
  {
    var acc := WindowAcc(a, m, b);
    assert AccelerationTest(threshold)(a, m, b) == WithinThreshold(acc, threshold);
  }

  /** The stopping rule: the window is flat, or the incremented depth
      `level` exceeds the bound. */
  predicate Stops(flat: FlatTest, from: ParamSample, mid: ParamSample, to: ParamSample, level: nat)
  {
    flat(from.pt, mid.pt, to.pt) || level > MaxDepth
  }

  /** Every parameter lies in the half-open interval `(lo, hi]`. */
  predicate WithinInterval(s: seq<ParamSample>, lo: real, hi: real)
  {
    forall i :: 0 <= i < |s| ==> lo < s[i].t <= hi
  }

  /** `RecursiveSampling`: appends `mid` and `to` when the window stops, and
      otherwise recurses on the left half and then on the right half. The
      result is never empty and ends at `to`; `SamplingIncreasing` shows it
      is strictly increasing inside `(from.t, to.t]`.

      The depth alone bounds the recursion; `from` in the decreases clause
      only keeps the verifier from unrolling all `MaxDepth` levels of a
      call whose depth is a literal. */
  function RecursiveSampling(f: real -> Point, flat: FlatTest, from: ParamSample, to: ParamSample,
                             depth: nat): (r: seq<ParamSample>)
    ensures |r| >= 2
    ensures r[|r| - 1] == to
    decreases MaxDepth - depth, from
  {
    var level := depth + 1;
    var mid := Evaluate(f, 0.5 * (from.t + to.t));
    if Stops(flat, from, mid, to, level) then
      [mid, to]
    else
      var left := RecursiveSampling(f, flat, from, mid, level);
      var right := RecursiveSampling(f, flat, mid, to, level);
      assert (left + right)[|left + right| - 1] == right[|right| - 1];
      left + right
  }

  /** On a proper interval `RecursiveSampling` appends strictly increasing
      parameters inside `(from.t, to.t]`. */
  lemma {:induction false} SamplingIncreasing(f: real -> Point, flat: FlatTest, from: ParamSample, to: ParamSample,
                                              depth: nat)
    requires from.t < to.t
    ensures Increasing(RecursiveSampling(f, flat, from, to, depth))
    ensures WithinInterval(RecursiveSampling(f, flat, from, to, depth), from.t, to.t)
    decreases MaxDepth - depth, 1
  {
    var mid := Evaluate(f, 0.5 * (from.t + to.t));
    if Stops(flat, from, mid, to, depth + 1) {
      assert RecursiveSampling(f, flat, from, to, depth) == [mid, to];
    } else {
      SplitIncreasing(f, flat, from, to, depth);
    }
  }

  /** The subdividing case of `SamplingIncreasing`. */
  lemma {:induction false} SplitIncreasing(f: real -> Point, flat: FlatTest, from: ParamSample, to: ParamSample,
                                           depth: nat)
    requires from.t < to.t
    requires !Stops(flat, from, Evaluate(f, 0.5 * (from.t + to.t)), to, depth + 1)
    ensures Increasing(RecursiveSampling(f, flat, from, to, depth))
    ensures WithinInterval(RecursiveSampling(f, flat, from, to, depth), from.t, to.t)
    decreases MaxDepth - depth, 0
  {
    var level := depth + 1;
    var mid := Evaluate(f, 0.5 * (from.t + to.t));
    var left := RecursiveSampling(f, flat, from, mid, level);
    var right := RecursiveSampling(f, flat, mid, to, level);
    assert RecursiveSampling(f, flat, from, to, depth) == left + right;
    SamplingIncreasing(f, flat, from, mid, level);
    SamplingIncreasing(f, flat, mid, to, level);
    IncreasingConcat(left, right, from.t, mid.t, to.t);
  }

  /** Increasing runs inside `(lo, m]` and `(m, hi]` join into one
      increasing run inside `(lo, hi]`. */
  lemma {:induction false} IncreasingConcat(left: seq<ParamSample>, right: seq<ParamSample>, lo: real, m: real, hi: real)
    requires Increasing(left) && WithinInterval(left, lo, m)
    requires Increasing(right) && WithinInterval(right, m, hi)
    requires lo < m < hi
    ensures Increasing(left + right) && WithinInterval(left + right, lo, hi)
  {
    var s := left + right;
    forall i, j | 0 <= i < j < |s|
      ensures s[i].t < s[j].t
    {
      if j < |left| {
        assert s[i] == left[i] && s[j] == left[j];
      } else if i >= |left| {
        assert s[i] == right[i - |left|] && s[j] == right[j - |left|];
      } else {
        assert s[i] == left[i] && s[j] == right[j - |left|];
      }
    }
    forall i | 0 <= i < |s|
      ensures lo < s[i].t <= hi
    {
      if i < |left| {
        assert s[i] == left[i];
      } else {
        assert s[i] == right[i - |left|];
      }
    }
  }

  /** One leaf of the call tree: a window on which `RecursiveSampling`
      stopped, with the incremented depth `level` at which it stopped. */
  datatype Window = Window(from: ParamSample, mid: ParamSample, to: ParamSample, level: nat)

  /** The leaf windows of the call tree of `RecursiveSampling`, left to right. */
  function SamplingWindows(f: real -> Point, flat: FlatTest, from: ParamSample, to: ParamSample,
                           depth: nat): (ws: seq<Window>)
    ensures |ws| >= 1
    decreases MaxDepth - depth, from
  {
    var level := depth + 1;
    var mid := Evaluate(f, 0.5 * (from.t + to.t));
    if Stops(flat, from, mid, to, level) then
      [Window(from, mid, to, level)]
    else
      SamplingWindows(f, flat, from, mid, level) + SamplingWindows(f, flat, mid, to, level)
  }

  /** What the samples of a leaf sequence are: the midpoint and the right
      end of each window, in order. */
  function Emit(ws: seq<Window>): (r: seq<ParamSample>)
    ensures |r| == 2 * |ws|
  {
    if |ws| == 0 then [] else [ws[0].mid, ws[0].to] + Emit(ws[1..])
  }

  /** Samples `2i` and `2i + 1` are the midpoint and right end of window `i`. */
  lemma {:induction false} EmitAt(ws: seq<Window>)
    ensures forall i :: 0 <= i < |ws| ==> Emit(ws)[2 * i] == ws[i].mid && Emit(ws)[2 * i + 1] == ws[i].to
  {
    if |ws| > 0 {
      EmitAt(ws[1..]);
      forall i | 1 <= i < |ws|
        ensures Emit(ws)[2 * i] == ws[i].mid && Emit(ws)[2 * i + 1] == ws[i].to
      {
        assert ws[i] == ws[1..][i - 1];
        assert Emit(ws)[2 * i] == Emit(ws[1..])[2 * (i - 1)];
        assert Emit(ws)[2 * i + 1] == Emit(ws[1..])[2 * (i - 1) + 1];
      }
    }
  }

  /** Emitting is compatible with concatenation. */
  lemma {:induction false} EmitConcat(a: seq<Window>, b: seq<Window>)
    ensures Emit(a + b) == Emit(a) + Emit(b)
  {
    if |a| == 0 {
      assert a + b == b;
    } else {
      assert (a + b)[0] == a[0];
      assert (a + b)[1..] == a[1..] + b;
      EmitConcat(a[1..], b);
    }
  }

  /** The samples `RecursiveSampling` appends are exactly the midpoint and
      right end of each leaf window of its call tree. */
  lemma {:induction false} SamplingEmitsWindows(f: real -> Point, flat: FlatTest, from: ParamSample, to: ParamSample,
                                                depth: nat)
    ensures RecursiveSampling(f, flat, from, to, depth)
         == Emit(SamplingWindows(f, flat, from, to, depth))
    decreases MaxDepth - depth, 1
  {
    var level := depth + 1;
    var mid := Evaluate(f, 0.5 * (from.t + to.t));
    if Stops(flat, from, mid, to, level) {
      assert Emit([Window(from, mid, to, level)]) == [mid, to];
    } else {
      SplitEmitsWindows(f, flat, from, to, depth);
    }
  }

  /** `RecursiveSampling` appends an even number of samples, two per
      leaf window. */
  lemma {:induction false} SamplingEvenLength(f: real -> Point, flat: FlatTest, from: ParamSample, to: ParamSample,
                                              depth: nat)
    ensures |RecursiveSampling(f, flat, from, to, depth)| % 2 == 0
  {
    SamplingEmitsWindows(f, flat, from, to, depth);
  }

  /** The subdividing case of `SamplingEmitsWindows`. */
  lemma {:induction false} SplitEmitsWindows(f: real -> Point, flat: FlatTest, from: ParamSample, to: ParamSample,
                                             depth: nat)
    requires !Stops(flat, from, Evaluate(f, 0.5 * (from.t + to.t)), to, depth + 1)
    ensures RecursiveSampling(f, flat, from, to, depth)
         == Emit(SamplingWindows(f, flat, from, to, depth))
    decreases MaxDepth - depth, 0
  {
    var level := depth + 1;
    var mid := Evaluate(f, 0.5 * (from.t + to.t));
    var left := SamplingWindows(f, flat, from, mid, level);
    var right := SamplingWindows(f, flat, mid, to, level);
    SamplingEmitsWindows(f, flat, from, mid, level);
    SamplingEmitsWindows(f, flat, mid, to, level);
    EmitConcat(left, right);
    assert Emit(SamplingWindows(f, flat, from, to, depth)) == Emit(left) + Emit(right);
  }

  /** The leaf windows tile the interval: the first starts at `from`, the
      last ends at `to`, and each starts where the previous one ends. */
  predicate Tiles(ws: seq<Window>, from: ParamSample, to: ParamSample)
  {
    |ws| > 0 && ws[0].from == from && ws[|ws| - 1].to == to &&
    forall i :: 0 <= i < |ws| - 1 ==> ws[i].to == ws[i + 1].from
  }

  /** A leaf window is well formed: its midpoint is the curve evaluated
      halfway along it, and it satisfies the stopping rule at its level. */
  predicate StoppedWindow(f: real -> Point, flat: FlatTest, w: Window)
  {
    w.mid == Evaluate(f, 0.5 * (w.from.t + w.to.t)) &&
    Stops(flat, w.from, w.mid, w.to, w.level)
  }

  /** Every window of `ws` is a stopped window. */
  predicate AllStopped(f: real -> Point, flat: FlatTest, ws: seq<Window>)
  {
    forall i :: 0 <= i < |ws| ==> StoppedWindow(f, flat, ws[i])
  }

  /** Every window of `ws` was reached at a level in `(lo, hi]`. */
  predicate LevelsWithin(ws: seq<Window>, lo: nat, hi: nat)
  {
    forall i :: 0 <= i < |ws| ==> lo < ws[i].level <= hi
  }

  /** The deepest level a call at `depth` can reach: one past the bound,
      or one past `depth` itself when that is already beyond the bound. */
  function DeepestLevel(depth: nat): (r: nat)
    ensures r > depth
    ensures r >= MaxDepth + 1
  {
    if depth <= MaxDepth then MaxDepth + 1 else depth + 1
  }

  lemma {:induction false} TilesConcat(left: seq<Window>, right: seq<Window>, from: ParamSample, mid: ParamSample, to: ParamSample)
    requires Tiles(left, from, mid)
    requires Tiles(right, mid, to)
    ensures Tiles(left + right, from, to)
  {
    var ws := left + right;
    forall i | 0 <= i < |ws| - 1
      ensures ws[i].to == ws[i + 1].from
    {
      if i + 1 < |left| {
        assert ws[i] == left[i] && ws[i + 1] == left[i + 1];
      } else if i + 1 == |left| {
        assert ws[i] == left[|left| - 1] && ws[i + 1] == right[0];
      } else {
        assert ws[i] == right[i - |left|] && ws[i + 1] == right[i + 1 - |left|];
      }
    }
  }

  lemma {:induction false} StoppedConcat(f: real -> Point, flat: FlatTest, left: seq<Window>, right: seq<Window>)
    requires AllStopped(f, flat, left)
    requires AllStopped(f, flat, right)
    ensures AllStopped(f, flat, left + right)
  {
    var ws := left + right;
    forall i | 0 <= i < |ws|
      ensures StoppedWindow(f, flat, ws[i])
    {
      if i < |left| {
        assert ws[i] == left[i];
      } else {
        assert ws[i] == right[i - |left|];
      }
    }
  }

  lemma {:induction false} LevelsConcat(left: seq<Window>, right: seq<Window>, lo: nat, hi: nat)
    requires LevelsWithin(left, lo + 1, hi)
    requires LevelsWithin(right, lo + 1, hi)
    ensures LevelsWithin(left + right, lo, hi)
  {
    var ws := left + right;
    forall i | 0 <= i < |ws|
      ensures lo < ws[i].level <= hi
    {
      if i < |left| {
        assert ws[i] == left[i];
      } else {
        assert ws[i] == right[i - |left|];
      }
    }
  }

  /** Every leaf of the call tree is a stopped window, reached strictly
      below the starting depth and never beyond `DeepestLevel(depth)`, and
      together the leaves tile the interval. */
  lemma {:induction false} WindowsStop(f: real -> Point, flat: FlatTest, from: ParamSample, to: ParamSample,
                                       depth: nat)
    ensures Tiles(SamplingWindows(f, flat, from, to, depth), from, to)
    ensures AllStopped(f, flat, SamplingWindows(f, flat, from, to, depth))
    ensures LevelsWithin(SamplingWindows(f, flat, from, to, depth), depth, DeepestLevel(depth))
    decreases MaxDepth - depth
  {
    var level := depth + 1;
    var mid := Evaluate(f, 0.5 * (from.t + to.t));
    if Stops(flat, from, mid, to, level) {
      var ws := [Window(from, mid, to, level)];
      assert SamplingWindows(f, flat, from, to, depth) == ws;
      assert StoppedWindow(f, flat, ws[0]);
    } else {
      var left := SamplingWindows(f, flat, from, mid, level);
      var right := SamplingWindows(f, flat, mid, to, level);
      assert SamplingWindows(f, flat, from, to, depth) == left + right;
      WindowsStop(f, flat, from, mid, level);
      WindowsStop(f, flat, mid, to, level);
      assert DeepestLevel(level) == DeepestLevel(depth);
      TilesConcat(left, right, from, mid, to);
      StoppedConcat(f, flat, left, right);
      LevelsConcat(left, right, depth, DeepestLevel(depth));
    }
  }

  /** Window `p` is one that `RecursiveSampling` split: its midpoint is the
      curve halfway along, it is not flat, and its level is within the
      bound. */
  predicate SplitWindow(f: real -> Point, flat: FlatTest, p: Window)
  {
    p.mid == Evaluate(f, 0.5 * (p.from.t + p.to.t)) &&
    !flat(p.from.pt, p.mid.pt, p.to.pt) &&
    p.level <= MaxDepth
  }

  /** Window `w` is the left or the right half of `p`, one level deeper. */
  predicate HalfOf(w: Window, p: Window)
  {
    w.level == p.level + 1 &&
    ((w.from == p.from && w.to == p.mid) || (w.from == p.mid && w.to == p.to))
  }

  /** `path` runs from a window down to the parent of `w`, every window on
      it was split, and each next one (and finally `w`) is a half of the
      one before. */
  predicate SplitPath(f: real -> Point, flat: FlatTest, path: seq<Window>, w: Window)
  {
    |path| > 0 &&
    (forall i :: 0 <= i < |path| ==> SplitWindow(f, flat, path[i])) &&
    (forall i :: 0 <= i < |path| - 1 ==> HalfOf(path[i + 1], path[i])) &&
    HalfOf(w, path[|path| - 1])
  }

  /** Leaf `w` of the call on `[from, to]` at `depth` is that call's own
      window, or it hangs below it by a path of split windows whose first
      window is `[from, to]` at the incremented depth. */
  ghost predicate RootedLeaf(f: real -> Point, flat: FlatTest, w: Window, from: ParamSample, to: ParamSample,
                             depth: nat)
  {
    if w.level == depth + 1 then
      w.from == from && w.to == to
    else
      exists path: seq<Window> ::
        SplitPath(f, flat, path, w) && path[0].from == from && path[0].to == to && path[0].level == depth + 1
  }

  /** Every window of `ws` is a rooted leaf of the call on `[from, to]`. */
  ghost predicate AllRooted(f: real -> Point, flat: FlatTest, ws: seq<Window>, from: ParamSample, to: ParamSample,
                            depth: nat)
  {
    forall i :: 0 <= i < |ws| ==> RootedLeaf(f, flat, ws[i], from, to, depth)
  }

  /** A leaf of a half of split window `p` is a leaf of `p`'s call: the
      path to it grows by `p` in front. */
  lemma {:induction false} RootedInHalf(f: real -> Point, flat: FlatTest, p: Window, half: Window, w: Window,
                                        depth: nat)
    requires p.level == depth + 1 && SplitWindow(f, flat, p)
    requires HalfOf(half, p)
    requires RootedLeaf(f, flat, w, half.from, half.to, depth + 1)
    requires w.level > depth + 1
    ensures RootedLeaf(f, flat, w, p.from, p.to, depth)
  {
    if w.level == depth + 2 {
      var path := [p];
      assert HalfOf(w, p);
      assert SplitPath(f, flat, path, w);
    } else {
      var rest: seq<Window> :| SplitPath(f, flat, rest, w) && rest[0].from == half.from && rest[0].to == half.to &&
                  rest[0].level == depth + 2;
      var path := [p] + rest;
      assert HalfOf(path[1], path[0]);
      forall i | 0 <= i < |path|
        ensures SplitWindow(f, flat, path[i])
      {
        if i > 0 {
          assert path[i] == rest[i - 1];
        }
      }
      forall i | 0 <= i < |path| - 1
        ensures HalfOf(path[i + 1], path[i])
      {
        if i > 0 {
          assert path[i] == rest[i - 1] && path[i + 1] == rest[i];
        }
      }
      assert path[|path| - 1] == rest[|rest| - 1];
      assert SplitPath(f, flat, path, w);
    }
  }

  lemma {:induction false} RootedConcat(f: real -> Point, flat: FlatTest, p: Window, left: seq<Window>,
                                        right: seq<Window>, depth: nat)
    requires p.level == depth + 1 && SplitWindow(f, flat, p)
    requires AllRooted(f, flat, left, p.from, p.mid, depth + 1)
    requires AllRooted(f, flat, right, p.mid, p.to, depth + 1)
    requires LevelsWithin(left, depth + 1, DeepestLevel(depth + 1))
    requires LevelsWithin(right, depth + 1, DeepestLevel(depth + 1))
    ensures AllRooted(f, flat, left + right, p.from, p.to, depth)
  {
    var ws := left + right;
    var lower := Window(p.from, p.from, p.mid, depth + 2);
    var upper := Window(p.mid, p.mid, p.to, depth + 2);
    assert HalfOf(lower, p) && HalfOf(upper, p);
    forall i | 0 <= i < |ws|
      ensures RootedLeaf(f, flat, ws[i], p.from, p.to, depth)
    {
      if i < |left| {
        assert ws[i] == left[i];
        RootedInHalf(f, flat, p, lower, ws[i], depth);
      } else {
        assert ws[i] == right[i - |left|];
        RootedInHalf(f, flat, p, upper, ws[i], depth);
      }
    }
  }

  /** The converse of `WindowsStop`: every leaf of the call on
      `[from, to]` is that call's own window or lies below a path of windows
      starting at `[from, to]` that were each split, that is, each was not
      flat and was reached within the depth bound. */
  lemma {:induction false} SplitAncestors(f: real -> Point, flat: FlatTest, from: ParamSample, to: ParamSample,
                                          depth: nat)
    ensures AllRooted(f, flat, SamplingWindows(f, flat, from, to, depth), from, to, depth)
    decreases MaxDepth - depth, 1
  {
    var level := depth + 1;
    var mid := Evaluate(f, 0.5 * (from.t + to.t));
    if Stops(flat, from, mid, to, level) {
      var ws := [Window(from, mid, to, level)];
      assert SamplingWindows(f, flat, from, to, depth) == ws;
      assert RootedLeaf(f, flat, ws[0], from, to, depth);
    } else {
      SplitAncestorsSplit(f, flat, from, to, depth);
    }
  }

  /** The subdividing case of `SplitAncestors`. */
  lemma {:induction false} SplitAncestorsSplit(f: real -> Point, flat: FlatTest, from: ParamSample, to: ParamSample,
                                               depth: nat)
    requires !Stops(flat, from, Evaluate(f, 0.5 * (from.t + to.t)), to, depth + 1)
    ensures AllRooted(f, flat, SamplingWindows(f, flat, from, to, depth), from, to, depth)
    decreases MaxDepth - depth, 0
  {
    var level := depth + 1;
    var mid := Evaluate(f, 0.5 * (from.t + to.t));
    var p := Window(from, mid, to, level);
    var left := SamplingWindows(f, flat, from, mid, level);
    var right := SamplingWindows(f, flat, mid, to, level);
    assert SamplingWindows(f, flat, from, to, depth) == left + right;
    assert SplitWindow(f, flat, p);
    SplitAncestors(f, flat, from, mid, level);
    SplitAncestors(f, flat, mid, to, level);
    WindowsStop(f, flat, from, mid, level);
    WindowsStop(f, flat, mid, to, level);
    RootedConcat(f, flat, p, left, right, depth);
  }

  /** Window `w`, reached below `depth`, spans `whole` halved once per
      level below `depth + 1`. */
  predicate ScaledWidth(w: Window, depth: nat, whole: real)
  {
    depth < w.level && w.to.t - w.from.t == Halve(whole, w.level - depth - 1)
  }

  /** `x / 2^n`, written as `n` halvings so that it stays linear in `x`. */
  function Halve(x: real, n: nat): real
  {
    if n == 0 then x else 0.5 * Halve(x, n - 1)
  }

  /** Halving `n` times after one halving is halving `n + 1` times. */
  lemma {:induction false} HalveShift(x: real, n: nat)
    ensures Halve(0.5 * x, n) == Halve(x, n + 1)
  {
    if n > 0 {
      HalveShift(x, n - 1);
    }
  }

  /** Every window of `ws` has a scaled width of `whole`. */
  predicate WidthsScale(ws: seq<Window>, depth: nat, whole: real)
  {
    forall i :: 0 <= i < |ws| ==> ScaledWidth(ws[i], depth, whole)
  }

  /** Windows that scale to half of `whole` one level down scale to
      `whole` at the level above. */
  lemma {:induction false} WidthsDouble(ws: seq<Window>, depth: nat, half: real, whole: real)
    requires WidthsScale(ws, depth + 1, half)
    requires half == 0.5 * whole
    ensures WidthsScale(ws, depth, whole)
  {
    forall i | 0 <= i < |ws|
      ensures ScaledWidth(ws[i], depth, whole)
    {
      var w := ws[i];
      assert ScaledWidth(w, depth + 1, half);
      HalveShift(whole, w.level - depth - 2);
    }
  }

  lemma {:induction false} WidthsConcat(left: seq<Window>, right: seq<Window>, depth: nat, whole: real)
    requires WidthsScale(left, depth, whole)
    requires WidthsScale(right, depth, whole)
    ensures WidthsScale(left + right, depth, whole)
  {
    var ws := left + right;
    forall i | 0 <= i < |ws|
      ensures ScaledWidth(ws[i], depth, whole)
    {
      if i < |left| {
        assert ws[i] == left[i];
      } else {
        assert ws[i] == right[i - |left|];
      }
    }
  }

  /** Each leaf window spans the starting interval, `whole` wide, halved
      once per level below the starting call. */
  lemma {:induction false} WindowWidth(f: real -> Point, flat: FlatTest, from: ParamSample, to: ParamSample,
                                       depth: nat, whole: real)
    requires to.t - from.t == whole
    ensures WidthsScale(SamplingWindows(f, flat, from, to, depth), depth, whole)
    decreases MaxDepth - depth, 1
  {
    var level := depth + 1;
    var mid := Evaluate(f, 0.5 * (from.t + to.t));
    if Stops(flat, from, mid, to, level) {
      var ws := [Window(from, mid, to, level)];
      assert SamplingWindows(f, flat, from, to, depth) == ws;
      assert ScaledWidth(ws[0], depth, whole);
    } else {
      SplitWindowWidth(f, flat, from, to, depth, whole);
    }
  }

  /** The subdividing case of `WindowWidth`. */
  lemma {:induction false} SplitWindowWidth(f: real -> Point, flat: FlatTest, from: ParamSample, to: ParamSample,
                                            depth: nat, whole: real)
    requires to.t - from.t == whole
    requires !Stops(flat, from, Evaluate(f, 0.5 * (from.t + to.t)), to, depth + 1)
    ensures WidthsScale(SamplingWindows(f, flat, from, to, depth), depth, whole)
    decreases MaxDepth - depth, 0
  {
    var level := depth + 1;
    var mid := Evaluate(f, 0.5 * (from.t + to.t));
    var left := SamplingWindows(f, flat, from, mid, level);
    var right := SamplingWindows(f, flat, mid, to, level);
    assert SamplingWindows(f, flat, from, to, depth) == left + right;
    WindowWidth(f, flat, from, mid, level, 0.5 * whole);
    WindowWidth(f, flat, mid, to, level, 0.5 * whole);
    WidthsDouble(left, depth, 0.5 * whole, whole);
    WidthsDouble(right, depth, 0.5 * whole, whole);
    WidthsConcat(left, right, depth, whole);
  }

  /** Every window of `ws` has a cached midpoint and right end. */
  predicate WindowsCached(f: real -> Point, ws: seq<Window>)
  {
    forall i :: 0 <= i < |ws| ==> Cached(f, ws[i].mid) && Cached(f, ws[i].to)
  }

  /** When the right end handed in is cached, so is every window's
      midpoint and right end: the sampler never stores a point that is not
      the curve's value at its parameter. */
  lemma {:induction false} WindowsCachedFrom(f: real -> Point, flat: FlatTest, from: ParamSample, to: ParamSample,
                                             depth: nat)
    requires Cached(f, to)
    ensures WindowsCached(f, SamplingWindows(f, flat, from, to, depth))
    decreases MaxDepth - depth
  {
    var level := depth + 1;
    var mid := Evaluate(f, 0.5 * (from.t + to.t));
    if !Stops(flat, from, mid, to, level) {
      var left := SamplingWindows(f, flat, from, mid, level);
      var right := SamplingWindows(f, flat, mid, to, level);
      assert SamplingWindows(f, flat, from, to, depth) == left + right;
      WindowsCachedFrom(f, flat, from, mid, level);
      WindowsCachedFrom(f, flat, mid, to, level);
      var ws := left + right;
      forall i | 0 <= i < |ws|
        ensures Cached(f, ws[i].mid) && Cached(f, ws[i].to)
      {
        if i < |left| {
          assert ws[i] == left[i];
        } else {
          assert ws[i] == right[i - |left|];
        }
      }
    }
  }

  /** No window passes the flatness test. */
  ghost predicate NeverFlat(flat: FlatTest)
  {
    forall a: Point, m: Point, b: Point :: !flat(a, m, b)
  }

  /** A call at `depth` produces at most one window per leaf of a full
      binary tree of height `MaxDepth - depth`, and exactly that many when
      no window is ever flat. */
  lemma {:induction false} WindowCount(f: real -> Point, flat: FlatTest, from: ParamSample, to: ParamSample,
                                       depth: nat)
    requires depth <= MaxDepth
    ensures |SamplingWindows(f, flat, from, to, depth)| <= Pow2(MaxDepth - depth)
    ensures NeverFlat(flat) ==> |SamplingWindows(f, flat, from, to, depth)| == Pow2(MaxDepth - depth)
    decreases MaxDepth - depth
  {
    var level := depth + 1;
    var mid := Evaluate(f, 0.5 * (from.t + to.t));
    if Stops(flat, from, mid, to, level) {
      assert SamplingWindows(f, flat, from, to, depth) == [Window(from, mid, to, level)];
      if NeverFlat(flat) {
        assert !flat(from.pt, mid.pt, to.pt);
        assert Pow2(MaxDepth - depth) == 1;
      }
    } else {
      var left := SamplingWindows(f, flat, from, mid, level);
      var right := SamplingWindows(f, flat, mid, to, level);
      assert SamplingWindows(f, flat, from, to, depth) == left + right;
      WindowCount(f, flat, from, mid, level);
      WindowCount(f, flat, mid, to, level);
      assert Pow2(MaxDepth - depth) == 2 * Pow2(MaxDepth - level);
    }
  }

  /** `pointSampling`: stores the sample at `t1`, then everything
      `RecursiveSampling` appends between the samples at `t1` and `t2`.
      The result starts at `t1`, ends at `t2`, holds at least three
      coherently cached samples, and for `t1 < t2` is strictly increasing
      inside `[t1, t2]`. */
  function PointSampling(f: real -> Point, flat: FlatTest, t1: real, t2: real): (r: seq<ParamSample>)
    ensures |r| >= 3
    ensures r[0] == Evaluate(f, t1) && r[|r| - 1] == Evaluate(f, t2)
    ensures AllCached(f, r)
    ensures t1 < t2 ==> Increasing(r) && WithinClosed(r, t1, t2)
  {
    var from := Evaluate(f, t1);
    var to := Evaluate(f, t2);
    SampleShape(f, flat, from, to, t1, t2);
    [from] + RecursiveSampling(f, flat, from, to, 0)
  }

  /** The samples `pointSampling` stores, from cached ends: all cached, and
      for an increasing interval strictly increasing inside it. */
  lemma SampleShape(f: real -> Point, flat: FlatTest, from: ParamSample, to: ParamSample,
                                       t1: real, t2: real)
    requires Cached(f, from) && Cached(f, to)
    requires from.t == t1 && to.t == t2
    ensures AllCached(f, [from] + RecursiveSampling(f, flat, from, to, 0))
    ensures t1 < t2 ==>
      Increasing([from] + RecursiveSampling(f, flat, from, to, 0)) &&
      WithinClosed([from] + RecursiveSampling(f, flat, from, to, 0), t1, t2)
  {
    var rest := RecursiveSampling(f, flat, from, to, 0);
    var r := [from] + rest;
    SampledCached(f, flat, from, to);
    forall i | 0 <= i < |r|
      ensures Cached(f, r[i])
    {
      if i > 0 {
        assert r[i] == rest[i - 1];
      }
    }
    if t1 < t2 {
      SamplingIncreasing(f, flat, from, to, 0);
      PrependIncreasing(from, rest, t2);
    }
  }

  /** Every sample `RecursiveSampling` appends from the top level is cached. */
  lemma SampledCached(f: real -> Point, flat: FlatTest, from: ParamSample, to: ParamSample)
    requires Cached(f, to)
    ensures AllCached(f, RecursiveSampling(f, flat, from, to, 0))
  {
    SamplingEmitsWindows(f, flat, from, to, 0);
    WindowsCachedFrom(f, flat, from, to, 0);
    EmitCached(f, SamplingWindows(f, flat, from, to, 0));
  }

  /** The samples emitted from cached windows are cached. */
  lemma {:induction false} EmitCached(f: real -> Point, ws: seq<Window>)
    requires WindowsCached(f, ws)
    ensures AllCached(f, Emit(ws))
  {
    if |ws| > 0 {
      assert WindowsCached(f, ws[1..]) by {
        forall i | 0 <= i < |ws[1..]|
          ensures Cached(f, ws[1..][i].mid) && Cached(f, ws[1..][i].to)
        {
          assert ws[1..][i] == ws[i + 1];
        }
      }
      EmitCached(f, ws[1..]);
      var r := Emit(ws);
      forall i | 0 <= i < |r|
        ensures Cached(f, r[i])
      {
        if i >= 2 {
          assert r[i] == Emit(ws[1..])[i - 2];
        }
      }
    }
  }

  /** Putting `from` in front of an increasing run inside `(from.t, hi]`
      gives an increasing run inside `[from.t, hi]`. */
  lemma {:induction false} PrependIncreasing(from: ParamSample, rest: seq<ParamSample>, hi: real)
    requires from.t < hi
    requires Increasing(rest) && WithinInterval(rest, from.t, hi)
    ensures Increasing([from] + rest)
    ensures WithinClosed([from] + rest, from.t, hi)
  {
    var r := [from] + rest;
    forall i, j | 0 <= i < j < |r|
      ensures r[i].t < r[j].t
    {
      assert r[j] == rest[j - 1];
      if i > 0 {
        assert r[i] == rest[i - 1];
      }
    }
    forall i | 0 <= i < |r|
      ensures from.t <= r[i].t <= hi
    {
      if i > 0 {
        assert r[i] == rest[i - 1];
      }
    }
  }

  /** The output of `pointSampling` is the first sample followed by the
      middle and right-hand samples of every leaf window, left to right. */
  lemma SampledFromWindows(f: real -> Point, flat: FlatTest, t1: real, t2: real)
    ensures PointSampling(f, flat, t1, t2)
         == [Evaluate(f, t1)] + Emit(SamplingWindows(f, flat, Evaluate(f, t1), Evaluate(f, t2), 0))
  {
    SamplingEmitsWindows(f, flat, Evaluate(f, t1), Evaluate(f, t2), 0);
  }

  /** `pointSampling` stores at most `2^(MaxDepth + 1) + 1` samples, and
      exactly that many when no window is ever flat. */
  lemma SampleCount(f: real -> Point, flat: FlatTest, t1: real, t2: real)
    ensures |PointSampling(f, flat, t1, t2)| <= 2 * Pow2(MaxDepth) + 1
    ensures NeverFlat(flat) ==> |PointSampling(f, flat, t1, t2)| == 2 * Pow2(MaxDepth) + 1
  {
    var from, to := Evaluate(f, t1), Evaluate(f, t2);
    SampledFromWindows(f, flat, t1, t2);
    WindowCount(f, flat, from, to, 0);
  }

  /** When the whole interval is flat, `pointSampling` stores just the two
      ends and the midpoint. */
  lemma FlatPointSampling(f: real -> Point, flat: FlatTest, t1: real, t2: real)
    requires flat(f(t1), f(0.5 * (t1 + t2)), f(t2))
    ensures PointSampling(f, flat, t1, t2) == [Evaluate(f, t1), Evaluate(f, 0.5 * (t1 + t2)), Evaluate(f, t2)]
  {
    var from, mid, to := Evaluate(f, t1), Evaluate(f, 0.5 * (t1 + t2)), Evaluate(f, t2);
    assert Stops(flat, from, mid, to, 1);
    assert RecursiveSampling(f, flat, from, to, 0) == [mid, to];
  }

  /** A sampled window of `pointSampling`'s output obeys the stopping rule:
      its middle sample is the curve halfway along it, and it is flat
      unless it sits at the depth bound, where it spans the whole interval
      halved `MaxDepth` times. */
  predicate SampledWindowStops(f: real -> Point, flat: FlatTest, a: ParamSample, m: ParamSample, b: ParamSample,
                               whole: real)
  {
    m == Evaluate(f, 0.5 * (a.t + b.t)) &&
    (flat(a.pt, m.pt, b.pt) || b.t - a.t == Halve(whole, MaxDepth))
  }

  /** `r` has odd length and splits into consecutive windows
      `r[2j], r[2j+1], r[2j+2]`, each of which obeys the stopping rule. */
  predicate WindowsStopIn(f: real -> Point, flat: FlatTest, r: seq<ParamSample>, whole: real)
  {
    |r| % 2 == 1 &&
    forall j :: 0 <= j < |r| / 2 ==>
      SampledWindowStops(f, flat, r[2 * j], r[2 * j + 1], r[2 * j + 2], whole)
  }

  /** The output of `pointSampling` splits into windows that obey the
      stopping rule: the sampler never stops on a window that is not flat,
      except at the depth bound. */
  lemma SampledWindowsStop(f: real -> Point, flat: FlatTest, t1: real, t2: real)
    ensures WindowsStopIn(f, flat, PointSampling(f, flat, t1, t2), t2 - t1)
  {
    var from, to := Evaluate(f, t1), Evaluate(f, t2);
    LeafWindowsStop(f, flat, from, to, t2 - t1);
    SampledFromWindows(f, flat, t1, t2);
  }

  /** The leaf windows of a top-level call, emitted after `from`, obey the
      output-level stopping rule. */
  lemma LeafWindowsStop(f: real -> Point, flat: FlatTest, from: ParamSample, to: ParamSample,
                                           whole: real)
    requires to.t - from.t == whole
    ensures WindowsStopIn(f, flat, [from] + Emit(SamplingWindows(f, flat, from, to, 0)), whole)
  {
    var ws := SamplingWindows(f, flat, from, to, 0);
    WindowsStop(f, flat, from, to, 0);
    WindowWidth(f, flat, from, to, 0, whole);
    EmittedWindowsStop(f, flat, from, to, ws, whole);
  }

  /** Every window of `[from] + Emit(ws)` obeys the output-level stopping
      rule when the leaf windows `ws` tile from `from` and are stopped. */
  lemma {:induction false} EmittedWindowsStop(f: real -> Point, flat: FlatTest, from: ParamSample, to: ParamSample,
                                              ws: seq<Window>, whole: real)
    requires Tiles(ws, from, to)
    requires AllStopped(f, flat, ws)
    requires LevelsWithin(ws, 0, DeepestLevel(0))
    requires WidthsScale(ws, 0, whole)
    ensures WindowsStopIn(f, flat, [from] + Emit(ws), whole)
  {
    var r := [from] + Emit(ws);
    EmitAt(ws);
    assert |r| / 2 == |ws|;
    forall j | 0 <= j < |r| / 2
      ensures SampledWindowStops(f, flat, r[2 * j], r[2 * j + 1], r[2 * j + 2], whole)
    {
      OutputWindow(f, flat, from, ws, j, whole);
    }
  }

  /** Window `j` of `[from] + Emit(ws)` is the leaf window `ws[j]`. */
  lemma {:induction false} OutputWindow(f: real -> Point, flat: FlatTest, from: ParamSample, ws: seq<Window>,
                                        j: nat, whole: real)
    requires j < |ws|
    requires ws[0].from == from
    requires forall i :: 0 <= i < |ws| - 1 ==> ws[i].to == ws[i + 1].from
    requires AllStopped(f, flat, ws)
    requires LevelsWithin(ws, 0, MaxDepth + 1)
    requires WidthsScale(ws, 0, whole)
    requires forall i :: 0 <= i < |ws| ==> Emit(ws)[2 * i] == ws[i].mid && Emit(ws)[2 * i + 1] == ws[i].to
    ensures var r := [from] + Emit(ws);
      SampledWindowStops(f, flat, r[2 * j], r[2 * j + 1], r[2 * j + 2], whole)
  {
    var r := [from] + Emit(ws);
    var w := ws[j];
    assert r[2 * j + 1] == Emit(ws)[2 * j] == w.mid;
    assert r[2 * j + 2] == Emit(ws)[2 * j + 1] == w.to;
    if j > 0 {
      assert r[2 * j] == Emit(ws)[2 * (j - 1) + 1] == ws[j - 1].to;
    }
    assert r[2 * j] == w.from;
    LeafWindowStops(f, flat, w, whole);
  }

  /** A stopped leaf window, reached no deeper than `MaxDepth + 1` with
      the scaled width of `whole`, obeys the output-level stopping rule. */
  lemma {:induction false} LeafWindowStops(f: real -> Point, flat: FlatTest, w: Window, whole: real)
    requires StoppedWindow(f, flat, w)
    requires ScaledWidth(w, 0, whole)
    requires w.level <= MaxDepth + 1
    ensures SampledWindowStops(f, flat, w.from, w.mid, w.to, whole)
  {
    if !flat(w.from.pt, w.mid.pt, w.to.pt) {
      assert w.level - 0 - 1 == MaxDepth;
    }
  }

  /** `Curve2D::discretizeCurve`: samples the curve on `[0, 1]` with the
      acceleration test and returns the parameters with the first one
      written twice and the last one appended again. The source guards the
      first copy with a non-emptiness test that always passes, since
      `pointSampling` stores at least three samples. The result has the
      duplicated-ends shape `[0, 0] ++ interior ++ [1, 1]`. */
  function DiscretizeCurve(f: real -> Point, threshold: real): (r: seq<real>)
    ensures DiscretizedShape(r)
  {
    var samples := PointSampling(f, AccelerationTest(threshold), 0.0, 1.0);
    var r := [samples[0].t] + Params(samples) + [samples[|samples| - 1].t];
    DuplicatedEnds(samples, r);
    r
  }

  /** The shape of a discretization: `[0, 0] ++ interior ++ [1, 1]` with at
      least one interior parameter, the interior strictly increasing inside
      `(0, 1)`, and the whole list non-decreasing inside `[0, 1]`. */
  predicate DiscretizedShape(r: seq<real>)
  {
    |r| >= 5 &&
    r[0] == 0.0 && r[1] == 0.0 && r[|r| - 2] == 1.0 && r[|r| - 1] == 1.0 &&
    (forall i, j :: 1 <= i < j <= |r| - 2 ==> r[i] < r[j]) &&
    (forall i :: 2 <= i <= |r| - 3 ==> 0.0 < r[i] < 1.0) &&
    (forall i, j :: 0 <= i <= j < |r| ==> r[i] <= r[j]) &&
    (forall i :: 0 <= i < |r| ==> 0.0 <= r[i] <= 1.0)
  }

  /** The sorted, duplicated-ends shape of `DiscretizeCurve`'s result,
      derived from the shape of the samples. */
  lemma {:induction false} DuplicatedEnds(samples: seq<ParamSample>, r: seq<real>)
    requires |samples| >= 3
    requires samples[0].t == 0.0 && samples[|samples| - 1].t == 1.0
    requires Increasing(samples)
    requires WithinClosed(samples, 0.0, 1.0)
    requires r == [samples[0].t] + Params(samples) + [samples[|samples| - 1].t]
    ensures DiscretizedShape(r)
  {
    var n := |samples|;
    assert forall i :: 1 <= i <= n ==> r[i] == samples[i - 1].t;
    forall i, j | 1 <= i < j <= |r| - 2
      ensures r[i] < r[j]
    {
      assert r[i] == samples[i - 1].t && r[j] == samples[j - 1].t;
    }
    forall i | 2 <= i <= |r| - 3
      ensures 0.0 < r[i] < 1.0
    {
      assert r[i] == samples[i - 1].t;
      assert samples[0].t < samples[i - 1].t < samples[n - 1].t;
    }
    forall i | 0 <= i < |r|
      ensures 0.0 <= r[i] <= 1.0
    {
      if 1 <= i <= n {
        assert r[i] == samples[i - 1].t;
      }
    }
    forall i, j | 0 <= i <= j < |r|
      ensures r[i] <= r[j]
    {
      if i == 0 && 1 <= j <= n {
        assert r[j] == samples[j - 1].t;
      } else if 1 <= i < j <= n {
        assert r[i] == samples[i - 1].t && r[j] == samples[j - 1].t;
      } else if 1 <= i <= n && j == n + 1 {
        assert r[i] == samples[i - 1].t;
      }
    }
  }

  /** Every window `r[2j], r[2j+1], r[2j+2]` of `r` has a second
      difference within the threshold, unless it is one of the narrowest
      windows, `whole` halved `MaxDepth` times. */
  predicate AccelerationBounded(r: seq<ParamSample>, threshold: real, whole: real)
  {
    |r| % 2 == 1 &&
    forall j :: 0 <= j < |r| / 2 ==>
      WithinThreshold(NormSq(SecondDifference(r[2 * j].pt, r[2 * j + 1].pt, r[2 * j + 2].pt)), threshold) ||
      r[2 * j + 2].t - r[2 * j].t == Halve(whole, MaxDepth)
  }

  /** The samples behind `discretizeCurve` are acceleration-bounded: the
      sampler only accepts a window whose acceleration is within the
      threshold, or one at the depth bound, `2^-MaxDepth` wide. */
  lemma SampledAccelerationWithin(f: real -> Point, threshold: real)
    ensures AccelerationBounded(PointSampling(f, AccelerationTest(threshold), 0.0, 1.0), threshold, 1.0)
  {
    var flat := AccelerationTest(threshold);
    var r := PointSampling(f, flat, 0.0, 1.0);
    SampledWindowsStop(f, flat, 0.0, 1.0);
    StoppingBoundsAcceleration(f, threshold, r, 1.0);
  }

  /** Windows that obey the stopping rule of the acceleration test are
      acceleration-bounded. */
  lemma {:induction false} StoppingBoundsAcceleration(f: real -> Point, threshold: real, r: seq<ParamSample>,
                                                      whole: real)
    requires WindowsStopIn(f, AccelerationTest(threshold), r, whole)
    ensures AccelerationBounded(r, threshold, whole)
  {
    forall j | 0 <= j < |r| / 2
      ensures WithinThreshold(NormSq(SecondDifference(r[2 * j].pt, r[2 * j + 1].pt, r[2 * j + 2].pt)), threshold) ||
              r[2 * j + 2].t - r[2 * j].t == Halve(whole, MaxDepth)
    {
      assert SampledWindowStops(f, AccelerationTest(threshold), r[2 * j], r[2 * j + 1], r[2 * j + 2], whole);
      AccelerationTestIsSecondDifference(threshold, r[2 * j].pt, r[2 * j + 1].pt, r[2 * j + 2].pt);
    }
  }

  /** `r` lists the parameters of the samples `s` with the first and the
      last one written twice. */
  predicate DiscretizesSamples(r: seq<real>, s: seq<ParamSample>)
  {
    |s| > 0 && |r| == |s| + 2 &&
    r[0] == s[0].t && r[|r| - 1] == s[|s| - 1].t &&
    forall i :: 0 <= i < |s| ==> r[i + 1] == s[i].t
  }

  /** `discretizeCurve` returns the parameters `pointSampling` stored over
      `[0, 1]`, in order, with both ends duplicated. */
  lemma DiscretizedFromSamples(f: real -> Point, threshold: real)
    ensures DiscretizesSamples(DiscretizeCurve(f, threshold), PointSampling(f, AccelerationTest(threshold), 0.0, 1.0))
  {
    var s := PointSampling(f, AccelerationTest(threshold), 0.0, 1.0);
    var r := DiscretizeCurve(f, threshold);
    assert r == [s[0].t] + Params(s) + [s[|s| - 1].t];
    DuplicatedParams(s, r);
  }

  /** Writing the first parameter once more in front and the last once
      more at the back lists the samples' parameters with duplicated ends. */
  lemma {:induction false} DuplicatedParams(s: seq<ParamSample>, r: seq<real>)
    requires |s| > 0
    requires r == [s[0].t] + Params(s) + [s[|s| - 1].t]
    ensures DiscretizesSamples(r, s)
  {
    forall i | 0 <= i < |s|
      ensures r[i + 1] == s[i].t
    {
      assert r[i + 1] == Params(s)[i];
    }
  }

  /** Every window `r[2j+1], r[2j+2], r[2j+3]` of a discretization `r`,
      evaluated on the curve, has a second difference within the threshold,
      unless it is one of the narrowest windows, `2^-MaxDepth` wide. */
  predicate OutputBounded(f: real -> Point, r: seq<real>, threshold: real)
  {
    |r| >= 3 && |r| % 2 == 1 &&
    forall j :: 0 <= j < (|r| - 2) / 2 ==>
      WithinThreshold(NormSq(SecondDifference(f(r[2 * j + 1]), f(r[2 * j + 2]), f(r[2 * j + 3]))), threshold) ||
      r[2 * j + 3] - r[2 * j + 1] == Halve(1.0, MaxDepth)
  }

  /** The acceleration guarantee on the list `discretizeCurve` returns:
      re-evaluating the curve at its parameters, every window the sampler
      accepted is within the threshold or at the depth bound. */
  lemma DiscretizedAccelerationWithin(f: real -> Point, threshold: real)
    ensures OutputBounded(f, DiscretizeCurve(f, threshold), threshold)
  {
    var s := PointSampling(f, AccelerationTest(threshold), 0.0, 1.0);
    SampledAccelerationWithin(f, threshold);
    DiscretizedFromSamples(f, threshold);
    BoundedThroughParams(f, s, DiscretizeCurve(f, threshold), threshold);
  }

  /** Acceleration-bounded cached samples give an acceleration-bounded
      discretization: each parameter evaluates back to its sample's point. */
  lemma {:induction false} BoundedThroughParams(f: real -> Point, s: seq<ParamSample>, r: seq<real>, threshold: real)
    requires AllCached(f, s)
    requires AccelerationBounded(s, threshold, 1.0)
    requires DiscretizesSamples(r, s)
    ensures OutputBounded(f, r, threshold)
  {
    forall j | 0 <= j < (|r| - 2) / 2
      ensures WithinThreshold(NormSq(SecondDifference(f(r[2 * j + 1]), f(r[2 * j + 2]), f(r[2 * j + 3]))), threshold) ||
              r[2 * j + 3] - r[2 * j + 1] == Halve(1.0, MaxDepth)
    {
      assert j < |s| / 2;
      assert r[2 * j + 1] == s[2 * j].t && r[2 * j + 2] == s[2 * j + 1].t && r[2 * j + 3] == s[2 * j + 2].t;
      assert Cached(f, s[2 * j]) && Cached(f, s[2 * j + 1]) && Cached(f, s[2 * j + 2]);
    }
  }

  /** When the curve's points at `0, 0.5, 1` have a second difference
      within the threshold, the whole curve passes the acceleration test as
      one window and `discretizeCurve` returns exactly `[0, 0, 0.5, 1, 1]`. */
  lemma FlatDiscretization(f: real -> Point, threshold: real)
    requires WithinThreshold(NormSq(SecondDifference(f(0.0), f(0.5), f(1.0))), threshold)
    ensures DiscretizeCurve(f, threshold) == [0.0, 0.0, 0.5, 1.0, 1.0]
  {
    var flat := AccelerationTest(threshold);
    AccelerationTestIsSecondDifference(threshold, f(0.0), f(0.5), f(1.0));
    assert 0.5 * (0.0 + 1.0) == 0.5;
    assert flat(f(0.0), f(0.5 * (0.0 + 1.0)), f(1.0));
    FlatPointSampling(f, flat, 0.0, 1.0);
    var samples := PointSampling(f, flat, 0.0, 1.0);
    assert Params(samples) == [0.0, 0.5, 1.0];
  }

  /** For a straight line and a non-negative threshold, the first window is
      already flat, so `discretizeCurve` returns exactly `[0, 0, 0.5, 1, 1]`. */
  lemma StraightDiscretization(line: Straight, threshold: real)
    requires threshold >= 0.0
    ensures DiscretizeCurve(StraightCurve(line), threshold) == [0.0, 0.0, 0.5, 1.0, 1.0]
  {
    StraightIsFlat(line, threshold);
    FlatDiscretization(StraightCurve(line), threshold);
  }

  /** A straight line passes the acceleration test over `[0, 1]` for every
      non-negative threshold: its second difference there is within it. */
  lemma StraightIsFlat(line: Straight, threshold: real)
    requires threshold >= 0.0
    ensures var f := StraightCurve(line);
      AccelerationTest(threshold)(f(0.0), f(0.5), f(1.0))
    ensures var f := StraightCurve(line);
      WithinThreshold(NormSq(SecondDifference(f(0.0), f(0.5), f(1.0))), threshold)
  {
    var f := StraightCurve(line);
    StraightCurveHasNoAcceleration(line);
    NoAccelerationPasses(f(0.0), f(0.5), f(1.0), threshold);
  }

  /** Three points with a zero second difference pass the acceleration
      test for every non-negative threshold. */
  lemma NoAccelerationPasses(a: Point, m: Point, b: Point, threshold: real)
    requires SecondDifference(a, m, b) == Origin
    requires threshold >= 0.0
    ensures WithinThreshold(NormSq(SecondDifference(a, m, b)), threshold)
    ensures AccelerationTest(threshold)(a, m, b)
  {
    NoAccelerationIsWithin(NormSq(SecondDifference(a, m, b)), threshold);
    AccelerationTestIsSecondDifference(threshold, a, m, b);
  }
}
