/** The scale factor of `makeLarger`/`makeSmaller` (`findScale`): the largest component
    of any point's vector from the centroid, and an integer quotient built from it. */
module Scaling {
  import opened Geometry

  /** The two modes of `findScale`. */
  datatype Mode = Larger | Smaller

  /** The outcome of `findScale`: an integer factor, or the `ArithmeticException` that
      Java's integer division by zero raises. */
  datatype ScaleResult = Factor(value: int) | DivisionByZero

  /** The larger of the two components of a vector (not its length). */
  function MaxComponent(v: Point): int {
    Max(v.x, v.y)
  }

  /** The running maximum, seeded with 0, of `MaxComponent(p - c)` over the points. */
  function ExtentAbout(ps: seq<Point>, c: Point): (m: int)
    ensures 0 <= m
  {
    if |ps| == 0 then 0
    else Max(ExtentAbout(ps[..|ps| - 1], c), MaxComponent(Vector(ps[|ps| - 1], c)))
  }

  /** The `max` of `findScale`, measured from the shape's own centroid. */
  function Extent(ps: seq<Point>): nat {
    ExtentAbout(ps, Centroid(ps))
  }

  /** `findScale(offset, mode)`. Java divides two `int`s, so the factor is the quotient
      rounded toward zero; a zero `max` in a division raises an exception. */
  function ScaleFactor(ps: seq<Point>, offset: int, mode: Mode): (r: ScaleResult)
    ensures r == DivisionByZero ==> Extent(ps) == 0
  {
    var m := Extent(ps);
    match mode
    case Larger =>
      if m == 0 then DivisionByZero else Factor(TruncDiv(offset + m, m))
    case Smaller =>
      if m - offset > 0 then
        if m == 0 then DivisionByZero else Factor(TruncDiv(m - offset, m))
      else Factor(1)
  }

  /** The extent is max(0, the largest vector component of any point). */
  lemma {:induction false} ExtentIsMaximum(ps: seq<Point>, c: Point)
    ensures forall i :: 0 <= i < |ps| ==> MaxComponent(Vector(ps[i], c)) <= ExtentAbout(ps, c)
    ensures ExtentAbout(ps, c) == 0 ||
            exists i :: 0 <= i < |ps| && ExtentAbout(ps, c) == MaxComponent(Vector(ps[i], c))
  {
    if |ps| > 0 {
      var front := ps[..|ps| - 1];
      assert forall i :: 0 <= i < |front| ==> front[i] == ps[i];
      ExtentIsMaximum(front, c);
      if ExtentAbout(ps, c) != 0 && ExtentAbout(ps, c) != MaxComponent(Vector(ps[|ps| - 1], c)) {
        var i :| 0 <= i < |front| && ExtentAbout(front, c) == MaxComponent(Vector(front[i], c));
        assert ExtentAbout(ps, c) == MaxComponent(Vector(ps[i], c));
      }
    }
  }

  /** The extent is zero exactly when no point lies to the right of or below the centroid
      (both components of every vector are at most zero). */
  lemma ExtentZeroIff(ps: seq<Point>)
    ensures Extent(ps) == 0 <==>
      forall i :: 0 <= i < |ps| ==> ps[i].x <= Centroid(ps).x && ps[i].y <= Centroid(ps).y
  {
    ExtentIsMaximum(ps, Centroid(ps));
  }

  /** `makeLarger` raises an exception exactly when the extent is zero. */
  lemma LargerFailsIffFlat(ps: seq<Point>, offset: int)
    ensures ScaleFactor(ps, offset, Larger) == DivisionByZero <==>
      forall i :: 0 <= i < |ps| ==> ps[i].x <= Centroid(ps).x && ps[i].y <= Centroid(ps).y
  {
    ExtentZeroIff(ps);
    ExtentIsMaximum(ps, Centroid(ps));
  }

  /** `makeSmaller` raises an exception exactly when the extent is zero and the offset is
      negative: only then is `max - offset > 0` with `max == 0`. */
  lemma SmallerFailsIff(ps: seq<Point>, offset: int)
    ensures ScaleFactor(ps, offset, Smaller) == DivisionByZero <==> Extent(ps) == 0 && offset < 0
  {
    ExtentIsMaximum(ps, Centroid(ps));
  }

  /** A shape without points cannot be enlarged: its extent is 0. */
  lemma EmptyShapeCannotGrow(offset: int)
    ensures ScaleFactor([], offset, Larger) == DivisionByZero
  {
  }

  /** Two distinct points whose vectors from the (truncated) centroid are never positive:
      enlarging them raises the exception too. */
  lemma FlatPairCannotGrow(offset: int)
    ensures ScaleFactor([Point(0, 0), Point(-1, -1)], offset, Larger) == DivisionByZero
  {
    var ps := [Point(0, 0), Point(-1, -1)];
    assert ps[..1] == [Point(0, 0)];
    assert ps[..1][..0] == [];
    assert Sum(ps, X) == -1 && Sum(ps, Y) == -1;
    assert Centroid(ps) == ORIGIN;
    assert ExtentAbout(ps[..1], ORIGIN) == 0;
  }

  /** Shrinking by an offset strictly between 0 and the extent gives the factor 0: the
      integer quotient `(max - offset) / max` is 0, which sends every point to the origin. */
  lemma SmallerCollapses(ps: seq<Point>, offset: int)
    requires 0 < offset < Extent(ps)
    ensures ScaleFactor(ps, offset, Smaller) == Factor(0)
    ensures forall i :: 0 <= i < |ps| ==> Scale(ps, ScaleFactor(ps, offset, Smaller).value)[i] == ORIGIN
  {
    var m := Extent(ps);
    TruncDivUnique(m - offset, m, 0);
  }

  /** Shrinking by at least the extent leaves the points unchanged (factor 1). */
  lemma SmallerBeyondExtentIsNoOp(ps: seq<Point>, offset: int)
    requires Extent(ps) <= offset
    ensures ScaleFactor(ps, offset, Smaller) == Factor(1)
    ensures Scale(ps, 1) == ps
  {
  }

  /** Enlarging by a non-negative offset below the extent also gives factor 1: the
      quotient `(offset + max) / max` only reaches 2 once `offset >= max`. */
  lemma LargerBelowExtentIsNoOp(ps: seq<Point>, offset: int)
    requires 0 <= offset < Extent(ps)
    ensures ScaleFactor(ps, offset, Larger) == Factor(1)
  {
    var m := Extent(ps);
    TruncDivUnique(offset + m, m, 1);
  }

  /** Enlarging by a non-negative offset never shrinks: the factor is
      `1 + offset / max`, rounded down. */
  lemma LargerFactor(ps: seq<Point>, offset: int)
    requires 0 <= offset && Extent(ps) != 0
    ensures ScaleFactor(ps, offset, Larger).Factor?
    ensures 1 <= ScaleFactor(ps, offset, Larger).value
    ensures ScaleFactor(ps, offset, Larger).value == 1 + offset / Extent(ps)
  {
    var m := Extent(ps);
    var r := offset / m;
    assert m * r <= offset < m * r + m;
    assert m * (r + 1) == m * r + m;
    TruncDivUnique(offset + m, m, r + 1);
  }
}
