/** The per-variant `fallsWithin` rules. The distance from a point to the line through
    two points is compared, with its sign, against the threshold 10; the comparison is
    stated here on integers, without the square root. */
module HitTest {
  import opened Geometry
  import opened Bounds

  /** The six shape variants. */
  datatype Kind = Line | Rectangle | Ellipse | Polygon | Polyline | Text {
    /** The variants built from exactly two points that never add or remove any. */
    predicate HasFixedPoints() {
      !(Polygon? || Polyline?)
    }
  }

  /** The point count each variant keeps. */
  predicate WellFormed(kind: Kind, ps: seq<Point>) {
    kind.HasFixedPoints() ==> |ps| == 2
  }

  /** The hit-test distance threshold of `Line`, `Polygon` and `Polyline`. */
  const THRESHOLD := 10

  /** `a * x + b * y + c` for the line `a x + b y + c = 0` through `p1` and `p2`, with
      `a = y1 - y2`, `b = x2 - x1`, `c = x1 y2 - x2 y1` (the numerator of the signed
      distance in `findDistanceToLine`). */
  function Numerator(p1: Point, p2: Point, p: Point): int {
    (p1.y - p2.y) * p.x + (p2.x - p1.x) * p.y + (p1.x * p2.y - p2.x * p1.y)
  }

  /** `a * a + b * b`, the square of the denominator of the signed distance. */
  function DenominatorSquared(p1: Point, p2: Point): (d: int)
    ensures 0 <= d
  {
    (p1.y - p2.y) * (p1.y - p2.y) + (p2.x - p1.x) * (p2.x - p1.x)
  }

  /** `findDistanceToLine(p1, p2, p) < threshold`. With `N` the numerator and `D` the
      squared denominator, `N / sqrt(D) < 10` holds exactly when `D != 0` and either `N`
      is negative or `N * N < 100 * D`; when `D == 0` Java divides 0.0 by 0.0, and the
      resulting NaN is not below 10. The sign is not dropped. */
  predicate CloseToLine(p1: Point, p2: Point, p: Point)
    ensures CloseToLine(p1, p2, p) ==> p1 != p2
  {
    var n := Numerator(p1, p2, p);
    var d := DenominatorSquared(p1, p2);
    d != 0 && (n < 0 || n * n < THRESHOLD * THRESHOLD * d)
  }

  lemma SquaresOrdered(u: real, v: real)
    requires 0.0 <= u && 0.0 <= v
    ensures u < v <==> u * u < v * v
  {
    if u < v {
      StrictlyIncreasingSquare(u, v);
    } else if v < u {
      StrictlyIncreasingSquare(v, u);
    }
  }

  lemma StrictlyIncreasingSquare(u: real, v: real)
    requires 0.0 <= u < v
    ensures u * u < v * v
  {
    var a, b, c := u * u, u * v, v * v;
    assert a <= b by { assert b - a == u * (v - u); }
    assert b < c by { assert c - b == v * (v - u); }
  }

  lemma QuotientBelow(n: real, s: real, t: real)
    requires 0.0 < s
    ensures n / s < t <==> n < t * s
  {
    var q := n / s;
    assert n == q * s;
    assert t * s - q * s == s * (t - q);
  }

  /** `CloseToLine` is the floating-point test read over the reals: for `s` the square
      root of the squared denominator, it holds exactly when `s` is non-zero and the
      signed distance `N / s` is below the threshold. */
  lemma CloseToLineIsDistanceTest(p1: Point, p2: Point, p: Point, s: real)
    requires 0.0 <= s && s * s == DenominatorSquared(p1, p2) as real
    ensures CloseToLine(p1, p2, p) <==>
      s != 0.0 && (Numerator(p1, p2, p) as real) / s < THRESHOLD as real
  {
    var n := Numerator(p1, p2, p);
    var d := DenominatorSquared(p1, p2);
    assert THRESHOLD * THRESHOLD * d == 100 * d;
    if s != 0.0 {
      StrictlyIncreasingSquare(0.0, s);
      QuotientBelow(n as real, s, 10.0);
      if 0 <= n {
        BelowScaledRoot(n, d, s);
      }
    }
  }

  /** For non-negative `n` and `s` the root of `d`: `n < 10 s` exactly when `n * n < 100 d`. */
  lemma BelowScaledRoot(n: int, d: int, s: real)
    requires 0 <= n && 0.0 < s && s * s == d as real
    ensures (n as real) < 10.0 * s <==> n * n < 100 * d
  {
    var nr := n as real;
    SquaresOrdered(nr, 10.0 * s);
    assert (10.0 * s) * (10.0 * s) == 100.0 * (s * s);
    IntSquareAsReal(n);
  }

  lemma IntSquareAsReal(n: int)
    ensures (n * n) as real == (n as real) * (n as real)
  {
  }

  /** The squared denominator vanishes exactly when the two endpoints coincide, and an
      edge whose endpoints coincide is never close to anything. */
  lemma DegenerateEdge(p1: Point, p2: Point, p: Point)
    ensures DenominatorSquared(p1, p2) == 0 <==> p1 == p2
    ensures p1 == p2 ==> !CloseToLine(p1, p2, p)
  {
    var a := p1.y - p2.y;
    var b := p2.x - p1.x;
    if a != 0 {
      assert a * a > 0;
    }
    if b != 0 {
      assert b * b > 0;
    }
  }

  /** Every point on the line through two distinct points is close to it. */
  lemma PointsOnLineAreClose(p1: Point, p2: Point, p: Point)
    requires p1 != p2 && Numerator(p1, p2, p) == 0
    ensures CloseToLine(p1, p2, p)
  {
    DegenerateEdge(p1, p2, p);
  }

  /** Because the sign is kept, every point at all is close to an edge taken in one of
      its two directions: reversing the edge negates the numerator. */
  lemma CloseInOneDirection(p1: Point, p2: Point, p: Point)
    requires p1 != p2
    ensures CloseToLine(p1, p2, p) || CloseToLine(p2, p1, p)
  {
    DegenerateEdge(p1, p2, p);
    assert Numerator(p2, p1, p) == -Numerator(p1, p2, p);
    assert DenominatorSquared(p2, p1) == DenominatorSquared(p1, p2);
  }

  /** `Line.fallsWithin`'s first four conjuncts: `p` is in the box spanned by the two
      endpoints (inclusive), with no sentinel. */
  predicate InSegmentBox(p1: Point, p2: Point, p: Point) {
    Min(p1.x, p2.x) <= p.x <= Max(p1.x, p2.x) && Min(p1.y, p2.y) <= p.y <= Max(p1.y, p2.y)
  }

  /** When both endpoints lie between the two seeds 0 and 10000, the segment's own box
      and the shape's bounding box agree. */
  lemma SegmentBoxIsBoundingBoxBetweenSeeds(p1: Point, p2: Point, p: Point)
    requires MAX_SEED <= p1.x <= MIN_SEED && MAX_SEED <= p1.y <= MIN_SEED
    requires MAX_SEED <= p2.x <= MIN_SEED && MAX_SEED <= p2.y <= MIN_SEED
    ensures InSegmentBox(p1, p2, p) <==> InBox([p1, p2], p)
  {
    var ps := [p1, p2];
    assert ps[..1] == [p1];
    assert ps[..1][..0] == [];
    assert Lowest(ps[..1], X) == p1.x && Lowest(ps[..1], Y) == p1.y;
    assert Highest(ps[..1], X) == p1.x && Highest(ps[..1], Y) == p1.y;
    assert Lowest(ps, X) == Min(p1.x, p2.x);
    assert Lowest(ps, Y) == Min(p1.y, p2.y);
    assert Highest(ps, X) == Max(p1.x, p2.x);
    assert Highest(ps, Y) == Max(p1.y, p2.y);
  }

  /** The index that follows `i` around a closed path of `n` points. */
  function NextIndex(i: nat, n: nat): nat
    requires i < n
  {
    if i == n - 1 then 0 else i + 1
  }

  /** The edge of the closed path from point `i` to the point after it is close to `p`. */
  predicate ClosedEdgeClose(ps: seq<Point>, i: nat, p: Point)
    requires i < |ps|
  {
    CloseToLine(ps[i], ps[NextIndex(i, |ps|)], p)
  }

  /** The edge of the open path from point `i` to point `i + 1` is close to `p`. */
  predicate OpenEdgeClose(ps: seq<Point>, i: nat, p: Point)
    requires i + 1 < |ps|
  {
    CloseToLine(ps[i], ps[i + 1], p)
  }

  /** Some edge of the closed path, the closing one included, is close to `p`. */
  predicate NearClosedPath(ps: seq<Point>, p: Point) {
    exists i: nat :: i < |ps| && ClosedEdgeClose(ps, i, p)
  }

  /** Some edge between consecutive points of the open path is close to `p`. */
  predicate NearOpenPath(ps: seq<Point>, p: Point) {
    exists i: nat :: i + 1 < |ps| && OpenEdgeClose(ps, i, p)
  }

  /** `fallsWithin` of each variant. */
  predicate Hit(kind: Kind, ps: seq<Point>, p: Point)
    requires WellFormed(kind, ps)
    ensures Hit(kind, ps, p) && kind != Line ==> InBox(ps, p)
  {
    match kind
    case Line => InSegmentBox(ps[0], ps[1], p) && CloseToLine(ps[0], ps[1], p)
    case Rectangle => InBox(ps, p)
    case Ellipse => InBox(ps, p)
    case Text => InBox(ps, p)
    case Polygon => NearClosedPath(ps, p) && InBox(ps, p)
    case Polyline => NearOpenPath(ps, p) && InBox(ps, p)
  }

  /** The closed path has exactly the open path's edges plus the closing edge from the
      last point back to the first. */
  lemma ClosedPathIsOpenPathPlusClosingEdge(ps: seq<Point>, p: Point)
    ensures NearClosedPath(ps, p) <==>
      NearOpenPath(ps, p) || (|ps| > 0 && CloseToLine(ps[|ps| - 1], ps[0], p))
  {
    if NearClosedPath(ps, p) {
      var i: nat :| i < |ps| && ClosedEdgeClose(ps, i, p);
      if i + 1 < |ps| {
        assert OpenEdgeClose(ps, i, p);
      }
    }
    if NearOpenPath(ps, p) {
      var i: nat :| i + 1 < |ps| && OpenEdgeClose(ps, i, p);
      assert ClosedEdgeClose(ps, i, p);
    }
    if |ps| > 0 && CloseToLine(ps[|ps| - 1], ps[0], p) {
      assert ClosedEdgeClose(ps, |ps| - 1, p);
    }
  }

  /** A polyline hit is also a hit of the polygon through the same points. */
  lemma PolylineHitIsPolygonHit(ps: seq<Point>, p: Point)
    requires Hit(Polyline, ps, p)
    ensures Hit(Polygon, ps, p)
  {
    ClosedPathIsOpenPathPlusClosingEdge(ps, p);
  }

  /** A polyline of fewer than two points has no edge and is never hit. */
  lemma ShortPolylineNeverHit(ps: seq<Point>, p: Point)
    requires |ps| < 2
    ensures !Hit(Polyline, ps, p)
  {
  }

  /** A polygon of at most one point has only the edge from that point to itself, which
      is never close, so it is never hit. */
  lemma ShortPolygonNeverHit(ps: seq<Point>, p: Point)
    requires |ps| < 2
    ensures !Hit(Polygon, ps, p)
  {
    if |ps| == 1 {
      assert forall i: nat :: i < |ps| ==> NextIndex(i, |ps|) == 0;
    }
  }

  /** The rectangle, ellipse and text variants hit exactly their bounding box, and so
      every one of their points. */
  lemma BoxVariantsHitTheirPoints(kind: Kind, ps: seq<Point>, i: int)
    requires kind == Rectangle || kind == Ellipse || kind == Text
    requires WellFormed(kind, ps) && 0 <= i < |ps|
    ensures Hit(kind, ps, ps[i])
  {
    PointsInsideBox(ps, i);
  }

  /** A hit of a line lies in its segment's box and is close to the line, so a line whose
      two points coincide is hit at most at that point and never in fact. */
  lemma DegenerateLineNeverHit(ps: seq<Point>, p: Point)
    requires WellFormed(Line, ps) && ps[0] == ps[1]
    ensures !Hit(Line, ps, p)
  {
    DegenerateEdge(ps[0], ps[1], p);
  }

  /** Line (0,0)-(10,0): the point (5,0) on it is a hit. */
  lemma LineHitOnSegment()
    ensures Hit(Line, [Point(0, 0), Point(10, 0)], Point(5, 0))
  {
  }

  /** Line (0,0)-(10,0): the point (5,20), 20 below it on the screen, is not a hit. */
  lemma LineMissFarAway()
    ensures !Hit(Line, [Point(0, 0), Point(10, 0)], Point(5, 20))
  {
  }

  /** Line (0,0)-(10,0): the point (-5,0) is on the infinite line but outside the
      segment's box, so it is not a hit. */
  lemma LineMissBeyondEnd()
    ensures !Hit(Line, [Point(0, 0), Point(10, 0)], Point(-5, 0))
  {
  }

  /** The sign is kept for a line as well: the line (0,0)-(100,100) is hit at (90,10),
      about 57 away from it, because the signed distance is negative there. */
  lemma LineHitFarOnNegativeSide()
    ensures Hit(Line, [Point(0, 0), Point(100, 100)], Point(90, 10))
  {
    assert Numerator(Point(0, 0), Point(100, 100), Point(90, 10)) == -8000;
  }

  /** With its endpoints swapped, the same line misses (90,10): the signed distance is
      positive and far above the threshold. */
  lemma LineMissFarOnPositiveSide()
    ensures !Hit(Line, [Point(100, 100), Point(0, 0)], Point(90, 10))
  {
    assert Numerator(Point(100, 100), Point(0, 0), Point(90, 10)) == 8000;
    assert DenominatorSquared(Point(100, 100), Point(0, 0)) == 20000;
  }

  /** Rectangle (0,0)-(10,10): (5,5) is inside, (15,5) is not. */
  lemma RectangleExamples()
    ensures Hit(Rectangle, [Point(0, 0), Point(10, 10)], Point(5, 5))
    ensures !Hit(Rectangle, [Point(0, 0), Point(10, 10)], Point(15, 5))
  {
    var ps := [Point(0, 0), Point(10, 10)];
    assert ps[..1] == [Point(0, 0)];
    assert ps[..1][..0] == [];
  }

  /** The square (0,0),(10,0),(10,10),(0,10): a point on an edge is a hit. */
  lemma SquareHitOnEdge()
    ensures Hit(Polygon, [Point(0, 0), Point(10, 0), Point(10, 10), Point(0, 10)], Point(5, 0))
  {
    var ps := [Point(0, 0), Point(10, 0), Point(10, 10), Point(0, 10)];
    assert ClosedEdgeClose(ps, 0, Point(5, 0));
    PointsInsideBox(ps, 0);
    PointsInsideBox(ps, 2);
  }

  /** The same square: its centre (5,5) is only 5 from every edge, so it is a hit too;
      the test is proximity to an edge, and here every interior point is near one. */
  lemma SquareHitAtCentre()
    ensures Hit(Polygon, [Point(0, 0), Point(10, 0), Point(10, 10), Point(0, 10)], Point(5, 5))
  {
    var ps := [Point(0, 0), Point(10, 0), Point(10, 10), Point(0, 10)];
    assert Numerator(ps[0], ps[1], Point(5, 5)) == 50;
    assert ClosedEdgeClose(ps, 0, Point(5, 5));
    PointsInsideBox(ps, 0);
    PointsInsideBox(ps, 2);
  }

  /** Whether a point far from every edge is hit depends on the winding of the polygon:
      with the points of the square of side 100 listed one way its centre is hit (the
      signed distance to the first edge is -50), listed the other way it is not. */
  lemma WindingDecidesFarPoints()
    ensures Hit(Polygon, [Point(0, 0), Point(0, 100), Point(100, 100), Point(100, 0)], Point(50, 50))
    ensures !Hit(Polygon, [Point(0, 0), Point(100, 0), Point(100, 100), Point(0, 100)], Point(50, 50))
  {
    var hitOrder := [Point(0, 0), Point(0, 100), Point(100, 100), Point(100, 0)];
    assert ClosedEdgeClose(hitOrder, 0, Point(50, 50));
    PointsInsideBox(hitOrder, 0);
    PointsInsideBox(hitOrder, 2);
    var missOrder := [Point(0, 0), Point(100, 0), Point(100, 100), Point(0, 100)];
    forall i: nat | i < |missOrder|
      ensures !ClosedEdgeClose(missOrder, i, Point(50, 50))
    {
      assert Numerator(missOrder[i], missOrder[NextIndex(i, 4)], Point(50, 50)) == 5000;
    }
  }
}
