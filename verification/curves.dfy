/** The `Curve2D` hierarchy. A curve is its scalar evaluation
    `evalCurve(t)`, a total function `real -> Point`; the concrete shapes
    below supply one. */
module Curves {
  import opened Geometry
  import opened Differences

  /** The line segment from `start` to `end`. */
  datatype Straight = Straight(start: Point, end: Point)

  /** The ellipse around `center` with half-axes `radiusX` and `radiusY`;
      a circle is the case of equal radii. */
  datatype Ellipse = Ellipse(center: Point, radiusX: real, radiusY: real)
  {
    predicate IsCircle()
    {
      radiusX == radiusY
    }
  }

  /** The constructors keep their arguments unchanged. */
  lemma ConstructorsKeepArguments(s: Point, e: Point, c: Point, rX: real, rY: real)
    ensures Straight(s, e).start == s && Straight(s, e).end == e
    ensures Ellipse(c, rX, rY).center == c
    ensures Ellipse(c, rX, rY).radiusX == rX && Ellipse(c, rX, rY).radiusY == rY
    ensures Ellipse(c, rX, rY).IsCircle() <==> rX == rY
  {
  }

  /** `Straight::evalCurve`: linear interpolation `start + t * (end - start)`,
      coordinate by coordinate. It passes through `start` at 0 and `end` at 1. */
  function StraightAt(line: Straight, t: real): (r: Point)
    ensures t == 0.0 ==> r == line.start
    ensures t == 1.0 ==> r == line.end
  {
    var s, e := line.start, line.end;
    Point(s.x + t * (e.x - s.x), s.y + t * (e.y - s.y))
  }

  /** The straight line as a curve function. */
  function StraightCurve(line: Straight): real -> Point
  {
    t => StraightAt(line, t)
  }

  /** A straight line has no curvature: the second difference over any
      interval `[a, b]` and its midpoint `m` vanishes, so its acceleration
      is zero. */
  lemma StraightHasNoAcceleration(line: Straight, a: real, m: real, b: real)
    requires m == 0.5 * (a + b)
    ensures SecondDifference(StraightAt(line, a), StraightAt(line, m), StraightAt(line, b)) == Origin
    ensures NormSq(SecondDifference(StraightAt(line, a), StraightAt(line, m), StraightAt(line, b))) == 0.0
  {
    var s, e := line.start, line.end;
    var dx, dy := e.x - s.x, e.y - s.y;
    assert b * dx - 2.0 * (m * dx) + a * dx == (b - 2.0 * m + a) * dx;
    assert b * dy - 2.0 * (m * dy) + a * dy == (b - 2.0 * m + a) * dy;
  }

  /** The straight-line curve's points at `0`, `0.5` and `1` have a zero
      second difference, so the whole line is one flat window. */
  lemma StraightCurveHasNoAcceleration(line: Straight)
    ensures var f := StraightCurve(line);
      SecondDifference(f(0.0), f(0.5), f(1.0)) == Origin
  {
    var f := StraightCurve(line);
    assert f(0.0) == line.start && f(1.0) == line.end;
    assert f(0.5) == StraightAt(line, 0.5);
    LinearMidpointVanishes(line.start.x, line.end.x);
    LinearMidpointVanishes(line.start.y, line.end.y);
  }

  /** One coordinate of the interpolation: the ends minus twice the
      midpoint cancel. */
  lemma LinearMidpointVanishes(s: real, e: real)
    ensures e - 2.0 * (s + 0.5 * (e - s)) + s == 0.0
  {
  }

  /** `Ellipse::evalCurve`: `center + (radiusX * cos t, radiusY * sin t)`.
      The trigonometric functions are parameters of the model. */
  function EllipseAt(ellipse: Ellipse, cos: real -> real, sin: real -> real, t: real): Point
  {
    Point(ellipse.center.x + ellipse.radiusX * cos(t),
          ellipse.center.y + ellipse.radiusY * sin(t))
  }

  /** Wherever `cos(t)^2 + sin(t)^2 == 1`, a circle's point lies at squared
      distance `radius^2` from the centre. */
  lemma CirclePointOnCircle(ellipse: Ellipse, cos: real -> real, sin: real -> real, t: real)
    requires ellipse.IsCircle()
    requires cos(t) * cos(t) + sin(t) * sin(t) == 1.0
    ensures NormSq(Sub(EllipseAt(ellipse, cos, sin, t), ellipse.center))
         == ellipse.radiusX * ellipse.radiusX
  {
    var r, c, s := ellipse.radiusX, cos(t), sin(t);
    var d := Sub(EllipseAt(ellipse, cos, sin, t), ellipse.center);
    assert d == Point(r * c, r * s);
    assert Square(r * c) + Square(r * s) == (r * r) * (c * c + s * s);
  }

  /** The vector `evalCurve`: one point per parameter, in the same order. */
  function EvalCurve(f: real -> Point, ts: seq<real>): (r: seq<Point>)
    ensures |r| == |ts|
    ensures forall i :: 0 <= i < |ts| ==> r[i] == f(ts[i])
  {
    if |ts| == 0 then []
    else [f(ts[0])] + EvalCurve(f, ts[1..])
  }
}
