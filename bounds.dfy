/** The bounding box of a shape, as `getMinX/getMinY/getMaxX/getMaxY` compute it: the
    minimum starts from the sentinel 10000 and the maximum from 0, so the box always
    reaches at least to those values. */
module Bounds {
  import opened Geometry

  /** The seed of the running minimum. */
  const MIN_SEED := 10000

  /** The seed of the running maximum. */
  const MAX_SEED := 0

  /** The running minimum of one coordinate, seeded with `MIN_SEED`. */
  function Lowest(ps: seq<Point>, a: Axis): int {
    if |ps| == 0 then MIN_SEED else Min(Lowest(ps[..|ps| - 1], a), Coord(ps[|ps| - 1], a))
  }

  /** The running maximum of one coordinate, seeded with `MAX_SEED`. */
  function Highest(ps: seq<Point>, a: Axis): int {
    if |ps| == 0 then MAX_SEED else Max(Highest(ps[..|ps| - 1], a), Coord(ps[|ps| - 1], a))
  }

  /** `fallsWithinBoundingBox`: the inclusive test against the box on both axes. */
  predicate InBox(ps: seq<Point>, p: Point)
    ensures InBox(ps, p) ==> |ps| > 0
  {
    Lowest(ps, X) <= p.x <= Highest(ps, X) && Lowest(ps, Y) <= p.y <= Highest(ps, Y)
  }

  /** `Lowest` is min(10000, every coordinate): a lower bound of the seed and of every
      point, and equal to the seed or to some point's coordinate. */
  lemma {:induction false} LowestIsMinimum(ps: seq<Point>, a: Axis)
    ensures Lowest(ps, a) <= MIN_SEED
    ensures forall i :: 0 <= i < |ps| ==> Lowest(ps, a) <= Coord(ps[i], a)
    ensures Lowest(ps, a) == MIN_SEED || exists i :: 0 <= i < |ps| && Lowest(ps, a) == Coord(ps[i], a)
  {
    if |ps| > 0 {
      var front := ps[..|ps| - 1];
      assert forall i :: 0 <= i < |front| ==> front[i] == ps[i];
      LowestIsMinimum(front, a);
      if Lowest(ps, a) != MIN_SEED && Lowest(ps, a) != Coord(ps[|ps| - 1], a) {
        var i :| 0 <= i < |front| && Lowest(front, a) == Coord(front[i], a);
        assert Lowest(ps, a) == Coord(ps[i], a);
      }
    }
  }

  /** `Highest` is max(0, every coordinate). */
  lemma {:induction false} HighestIsMaximum(ps: seq<Point>, a: Axis)
    ensures MAX_SEED <= Highest(ps, a)
    ensures forall i :: 0 <= i < |ps| ==> Coord(ps[i], a) <= Highest(ps, a)
    ensures Highest(ps, a) == MAX_SEED || exists i :: 0 <= i < |ps| && Highest(ps, a) == Coord(ps[i], a)
  {
    if |ps| > 0 {
      var front := ps[..|ps| - 1];
      assert forall i :: 0 <= i < |front| ==> front[i] == ps[i];
      HighestIsMaximum(front, a);
      if Highest(ps, a) != MAX_SEED && Highest(ps, a) != Coord(ps[|ps| - 1], a) {
        var i :| 0 <= i < |front| && Highest(front, a) == Coord(front[i], a);
        assert Highest(ps, a) == Coord(ps[i], a);
      }
    }
  }

  /** With no points the box runs from 10000 down to 0, so it contains nothing. */
  lemma EmptyBoxContainsNothing(p: Point)
    ensures !InBox([], p)
  {
  }

  /** Every point of a shape lies in its box. */
  lemma PointsInsideBox(ps: seq<Point>, i: int)
    requires 0 <= i < |ps|
    ensures InBox(ps, ps[i])
  {
    LowestIsMinimum(ps, X);
    LowestIsMinimum(ps, Y);
    HighestIsMaximum(ps, X);
    HighestIsMaximum(ps, Y);
  }

  /** When every coordinate lies between the two seeds 0 and 10000, the box is attained:
      each of its sides is some point's coordinate. */
  lemma BoxAttainedBetweenSeeds(ps: seq<Point>, a: Axis)
    requires |ps| > 0
    requires forall i :: 0 <= i < |ps| ==> MAX_SEED <= Coord(ps[i], a) <= MIN_SEED
    ensures exists i :: 0 <= i < |ps| && Lowest(ps, a) == Coord(ps[i], a)
    ensures exists j :: 0 <= j < |ps| && Highest(ps, a) == Coord(ps[j], a)
  {
    LowestIsMinimum(ps, a);
    HighestIsMaximum(ps, a);
    assert Lowest(ps, a) == MIN_SEED ==> Lowest(ps, a) == Coord(ps[0], a);
    assert Highest(ps, a) == MAX_SEED ==> Highest(ps, a) == Coord(ps[0], a);
  }

  /** When every coordinate lies between the two seeds 0 and 10000, the box is exactly
      the tightest box around the points: a point is in it if and only if each of its
      coordinates lies between two of the shape's coordinates. */
  lemma BoxIsTightBetweenSeeds(ps: seq<Point>, p: Point)
    requires |ps| > 0
    requires forall i :: 0 <= i < |ps| ==> MAX_SEED <= ps[i].x <= MIN_SEED && MAX_SEED <= ps[i].y <= MIN_SEED
    ensures InBox(ps, p) <==>
      (exists i, j :: 0 <= i < |ps| && 0 <= j < |ps| && ps[i].x <= p.x <= ps[j].x) &&
      (exists i, j :: 0 <= i < |ps| && 0 <= j < |ps| && ps[i].y <= p.y <= ps[j].y)
  {
    LowestIsMinimum(ps, X);
    LowestIsMinimum(ps, Y);
    HighestIsMaximum(ps, X);
    HighestIsMaximum(ps, Y);
    BoxAttainedBetweenSeeds(ps, X);
    BoxAttainedBetweenSeeds(ps, Y);
    if InBox(ps, p) {
      var lx :| 0 <= lx < |ps| && Lowest(ps, X) == Coord(ps[lx], X);
      var hx :| 0 <= hx < |ps| && Highest(ps, X) == Coord(ps[hx], X);
      var ly :| 0 <= ly < |ps| && Lowest(ps, Y) == Coord(ps[ly], Y);
      var hy :| 0 <= hy < |ps| && Highest(ps, Y) == Coord(ps[hy], Y);
      assert ps[lx].x <= p.x <= ps[hx].x;
      assert ps[ly].y <= p.y <= ps[hy].y;
    }
  }

  /** The centroid of a shape with points lies in its box. */
  lemma CentroidInsideBox(ps: seq<Point>)
    requires |ps| > 0
    ensures InBox(ps, Centroid(ps))
  {
    LowestIsMinimum(ps, X);
    LowestIsMinimum(ps, Y);
    HighestIsMaximum(ps, X);
    HighestIsMaximum(ps, Y);
    SumBetween(ps, X, Lowest(ps, X), Highest(ps, X));
    SumBetween(ps, Y, Lowest(ps, Y), Highest(ps, Y));
    TruncDivWithin(Sum(ps, X), |ps|, Lowest(ps, X), Highest(ps, X));
    TruncDivWithin(Sum(ps, Y), |ps|, Lowest(ps, Y), Highest(ps, Y));
  }
}
