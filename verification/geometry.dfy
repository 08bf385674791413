/** The `Point2D` helper class as an immutable value: a pair of real
    coordinates, with the vector operations the sampler needs. */
module Geometry {

  /** A point (or a difference of points) in the plane. The default
      constructor of the source leaves the fields unset; every use of it
      in the modelled code assigns both coordinates before reading them. */
  datatype Point = Point(x: real, y: real)

  const Origin: Point := Point(0.0, 0.0)

  /** `setX`: replaces the x coordinate and keeps the y coordinate. */
  function SetX(p: Point, x: real): (r: Point)
    ensures r.x == x && r.y == p.y
    ensures r == p <==> p.x == x
  {
    p.(x := x)
  }

  /** `setY`: replaces the y coordinate and keeps the x coordinate. */
  function SetY(p: Point, y: real): (r: Point)
    ensures r.y == y && r.x == p.x
    ensures r == p <==> p.y == y
  {
    p.(y := y)
  }

  /** Building a point and reading it back gives the arguments, and the two
      setters touch disjoint coordinates, so they commute. */
  lemma AccessorsRoundTrip(p: Point, x: real, y: real)
    ensures Point(x, y).x == x && Point(x, y).y == y
    ensures SetY(SetX(p, x), y) == SetX(SetY(p, y), x) == Point(x, y)
  {
  }

  /** Component-wise difference `a - b`. */
  function Sub(a: Point, b: Point): Point
  {
    Point(a.x - b.x, a.y - b.y)
  }

  /** The squared Euclidean norm `x*x + y*y`: the quantity of which the
      source takes `std::sqrt`. It vanishes exactly at the origin. */
  function NormSq(p: Point): (r: real)
    ensures r >= 0.0
    ensures r == 0.0 <==> p == Origin
  {
    Square(p.x) + Square(p.y)
  }

  /** `a * a`: never negative, and zero only at zero. */
  function Square(a: real): (r: real)
    ensures r >= 0.0
    ensures r == 0.0 <==> a == 0.0
  {
    var r := a * a;
    if a > 0.0 then
      ProductPositive(a, a, r);
      r
    else if a < 0.0 then
      ProductPositive(-a, -a, r);
      r
    else
      r
  }

  /** The product of two positive reals is positive. */
  lemma ProductPositive(a: real, b: real, r: real)
    requires a > 0.0
    requires b > 0.0
    requires r == a * b
    ensures r > 0.0
  {
  }
}
