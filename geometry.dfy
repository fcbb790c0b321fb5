/** Integer points and the arithmetic on point sequences that every shape shares:
    coordinate sums, the centroid, translation and scaling of raw coordinates. */
module Geometry {

  /** A point with integer coordinates, or the vector between two such points. */
  datatype Point = Point(x: int, y: int)

  /** The two coordinate axes. */
  datatype Axis = X | Y

  /** The centre reported for a shape that has no points. */
  const ORIGIN := Point(0, 0)

  /** `Math.min` on integers. */
  function Min(a: int, b: int): int {
    if a <= b then a else b
  }

  /** `Math.max` on integers. */
  function Max(a: int, b: int): int {
    if a >= b then a else b
  }

  function Coord(p: Point, a: Axis): int {
    match a
    case X => p.x
    case Y => p.y
  }

  /** `p - c`, componentwise. */
  function Vector(p: Point, c: Point): Point {
    Point(p.x - c.x, p.y - c.y)
  }

  /** The integer quotient of `a` by `b` rounded toward zero: what Java computes for
      `(int)(a / (double) b)` and for the `int` division `a / b`. (Dafny's `/` rounds
      toward negative infinity, so the two differ on negative dividends.) */
  function TruncDiv(a: int, b: int): (q: int)
    requires b > 0
    ensures 0 <= a ==> q * b <= a < q * b + b
    ensures a < 0 ==> q * b - b < a <= q * b
  {
    if a >= 0 then a / b else -((-a) / b)
  }

  /** Rounding toward zero is symmetric about zero, unlike Dafny's own division. */
  lemma TruncDivOfNegation(a: int, b: int)
    requires b > 0
    ensures TruncDiv(-a, b) == -TruncDiv(a, b)
  {
  }

  /** A quotient that lies between two integers still does after rounding toward zero. */
  lemma TruncDivWithin(a: int, b: int, lo: int, hi: int)
    requires b > 0
    requires b * lo <= a <= b * hi
    ensures lo <= TruncDiv(a, b) <= hi
  {
    var q := TruncDiv(a, b);
    if q > hi {
      MulStrictlyMonotone(b, hi, q);
    }
    if q < lo {
      MulStrictlyMonotone(b, q, lo);
    }
  }

  lemma MulStrictlyMonotone(b: int, u: int, v: int)
    requires b > 0 && u < v
    ensures b * u + b <= b * v
  {
    var d := v - u - 1;
    assert b * d >= 0;
    assert b * v == b * u + b * d + b;
  }

  /** The rounded quotient of a non-negative dividend is the unique `k` with
      `b * k <= a < b * k + b`. */
  lemma TruncDivUnique(a: int, b: int, k: int)
    requires b > 0 && 0 <= a
    requires b * k <= a < b * k + b
    ensures TruncDiv(a, b) == k
  {
    var q := TruncDiv(a, b);
    if q > k {
      MulStrictlyMonotone(b, k, q);
    }
    if q < k {
      MulStrictlyMonotone(b, q, k);
    }
  }

  /** Dividing an exact multiple gives back the factor. */
  lemma TruncDivOfMultiple(k: int, b: int)
    requires b > 0
    ensures TruncDiv(b * k, b) == k
  {
    TruncDivWithin(b * k, b, k, k);
  }

  /** The sum of one coordinate over all points (the accumulators of `findCenter`). */
  function Sum(ps: seq<Point>, a: Axis): int {
    if |ps| == 0 then 0 else Sum(ps[..|ps| - 1], a) + Coord(ps[|ps| - 1], a)
  }

  lemma {:induction false} SumBetween(ps: seq<Point>, a: Axis, lo: int, hi: int)
    requires forall i :: 0 <= i < |ps| ==> lo <= Coord(ps[i], a) <= hi
    ensures |ps| * lo <= Sum(ps, a) <= |ps| * hi
  {
    if |ps| > 0 {
      var front := ps[..|ps| - 1];
      assert forall i :: 0 <= i < |front| ==> front[i] == ps[i];
      SumBetween(front, a, lo, hi);
      assert |ps| * lo == |front| * lo + lo;
      assert |ps| * hi == |front| * hi + hi;
    }
  }

  /** The centroid: each coordinate is the mean of that coordinate over all points,
      rounded toward zero; a shape without points has its centre at the origin. */
  function Centroid(ps: seq<Point>): Point {
    if |ps| == 0 then ORIGIN
    else Point(TruncDiv(Sum(ps, X), |ps|), TruncDiv(Sum(ps, Y), |ps|))
  }

  /** Points that all coincide have that point as their centroid. */
  lemma CentroidOfCoincidentPoints(ps: seq<Point>, q: Point)
    requires |ps| > 0
    requires forall i :: 0 <= i < |ps| ==> ps[i] == q
    ensures Centroid(ps) == q
  {
    SumBetween(ps, X, q.x, q.x);
    SumBetween(ps, Y, q.y, q.y);
    TruncDivOfMultiple(q.x, |ps|);
    TruncDivOfMultiple(q.y, |ps|);
  }

  /** Every point moved by the vector `v`, the order and the count kept. */
  function Translate(ps: seq<Point>, v: Point): (r: seq<Point>)
    ensures |r| == |ps|
  {
    seq(|ps|, i requires 0 <= i < |ps| => Point(ps[i].x + v.x, ps[i].y + v.y))
  }

  /** The negated vector. */
  function Negate(v: Point): Point {
    Point(-v.x, -v.y)
  }

  /** Moving by `v` and then by `-v` restores the points exactly. */
  lemma TranslateUndone(ps: seq<Point>, v: Point)
    ensures Translate(Translate(ps, v), Negate(v)) == ps
  {
  }

  /** Two moves are the move by the sum of their vectors. */
  lemma TranslateTwice(ps: seq<Point>, v: Point, w: Point)
    ensures Translate(Translate(ps, v), w) == Translate(ps, Point(v.x + w.x, v.y + w.y))
  {
  }

  /** Every raw coordinate multiplied by `f` (not relative to the centroid). */
  function Scale(ps: seq<Point>, f: int): (r: seq<Point>)
    ensures |r| == |ps|
  {
    seq(|ps|, i requires 0 <= i < |ps| => Point(f * ps[i].x, f * ps[i].y))
  }

  /** Scaling by one leaves the points unchanged. */
  lemma ScaleByOne(ps: seq<Point>)
    ensures Scale(ps, 1) == ps
  {
  }

  /** Scaling by zero sends every point to the origin. */
  lemma ScaleByZero(ps: seq<Point>)
    ensures forall i :: 0 <= i < |Scale(ps, 0)| ==> Scale(ps, 0)[i] == ORIGIN
  {
  }

  /** Two scalings are the scaling by the product of the factors. */
  lemma ScaleTwice(ps: seq<Point>, f: int, g: int)
    ensures Scale(Scale(ps, f), g) == Scale(ps, g * f)
  {
    forall i | 0 <= i < |ps|
      ensures Scale(Scale(ps, f), g)[i] == Scale(ps, g * f)[i]
    {
      assert g * (f * ps[i].x) == (g * f) * ps[i].x;
      assert g * (f * ps[i].y) == (g * f) * ps[i].y;
    }
  }
}
