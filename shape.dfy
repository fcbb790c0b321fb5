/** The shape classes as one class with a variant tag. Every shape owns an ordered list
    of points, which its methods edit in place, and three style fields. */
module Shapes {
  import opened Geometry
  import opened Bounds
  import opened Scaling
  import opened HitTest

  /** A colour, kept opaque; `NoColor` is the field before `setColor` ran (Java `null`). */
  datatype Color = NoColor | Color(rgb: int)

  /** A stroke, kept opaque; `NoStroke` is the field before `setStroke` ran. */
  datatype Stroke = NoStroke | BasicStroke(width: real)

  /** The four directions of `moveBy`. */
  datatype Direction = Left | Right | Up | Down

  /** The vector by which `moveBy(offset, direction)` moves every point (y grows
      downwards, so `Up` decreases it). */
  function Displacement(d: Direction, offset: int): (v: Point)
    ensures v.x == 0 || v.y == 0
    ensures v.x * v.x + v.y * v.y == offset * offset
  {
    match d
    case Left => Point(-offset, 0)
    case Right => Point(offset, 0)
    case Up => Point(0, -offset)
    case Down => Point(0, offset)
  }

  /** Moving left and then right by the same offset restores the points, and likewise
      up and then down. */
  lemma OppositeMovesCancel(ps: seq<Point>, offset: int)
    ensures Translate(Translate(ps, Displacement(Left, offset)), Displacement(Right, offset)) == ps
    ensures Translate(Translate(ps, Displacement(Up, offset)), Displacement(Down, offset)) == ps
  {
    TranslateUndone(ps, Displacement(Left, offset));
    TranslateUndone(ps, Displacement(Up, offset));
  }

  /** Appending a point and then removing the last one restores the previous points. */
  lemma AddThenRemoveRestores(ps: seq<Point>, q: Point)
    ensures (ps + [q])[..|ps + [q]| - 1] == ps
  {
  }

  class Shape {
    var kind: Kind
    var points: seq<Point>
    var color: Color
    var stroke: Stroke
    var filled: bool

    /** Line, rectangle, ellipse and text keep exactly their two points. */
    ghost predicate Valid()
      reads this
    {
      WellFormed(kind, points)
    }

    /** The constructor of `Line`, `Rectangle`, `Ellipse` and `Text`: the two given
        points, in order, and the style fields unset. */
    constructor FromCorners(k: Kind, x1: int, y1: int, x2: int, y2: int)
      requires k.HasFixedPoints()
      ensures Valid()
      ensures kind == k && points == [Point(x1, y1), Point(x2, y2)]
      ensures color == NoColor && stroke == NoStroke && !filled
    {
      kind := k;
      points := [Point(x1, y1), Point(x2, y2)];
      color := NoColor;
      stroke := NoStroke;
      filled := false;
    }

    /** The constructor of `Polygon` and `Polyline`: no points yet. */
    constructor Empty(k: Kind)
      requires !k.HasFixedPoints()
      ensures Valid()
      ensures kind == k && points == []
      ensures color == NoColor && stroke == NoStroke && !filled
    {
      kind := k;
      points := [];
      color := NoColor;
      stroke := NoStroke;
      filled := false;
    }

    /** `findCenter`. */
    method FindCenter() returns (c: Point)
      ensures c == Centroid(points)
    {
      if |points| == 0 {
        return ORIGIN;
      }
      var x, y := 0, 0;
      var i := 0;
      while i < |points|
        invariant 0 <= i <= |points|
        invariant x == Sum(points[..i], X) && y == Sum(points[..i], Y)
      {
        assert points[..i + 1][..i] == points[..i];
        x := x + points[i].x;
        y := y + points[i].y;
        i := i + 1;
      }
      assert points[..i] == points;
      c := Point(TruncDiv(x, |points|), TruncDiv(y, |points|));
    }

    /** `findVectorFromCenter`: `p` minus the current centroid. */
    method FindVectorFromCenter(p: Point) returns (v: Point)
      ensures v == Vector(p, Centroid(points))
    {
      var center := FindCenter();
      v := Point(p.x - center.x, p.y - center.y);
    }

    /** `findScale`. */
    method FindScale(offset: int, mode: Mode) returns (r: ScaleResult)
      ensures r == ScaleFactor(points, offset, mode)
    {
      var max := 0;
      var i := 0;
      while i < |points|
        invariant 0 <= i <= |points|
        invariant max == ExtentAbout(points[..i], Centroid(points))
      {
        assert points[..i + 1][..i] == points[..i];
        var vec := FindVectorFromCenter(points[i]);
        var maxXY := Max(vec.x, vec.y);
        max := Max(max, maxXY);
        i := i + 1;
      }
      assert points[..i] == points;
      match mode
      case Larger =>
        if max == 0 {
          r := DivisionByZero;
        } else {
          r := Factor(TruncDiv(offset + max, max));
        }
      case Smaller =>
        if max - offset > 0 {
          if max == 0 {
            r := DivisionByZero;
          } else {
            r := Factor(TruncDiv(max - offset, max));
          }
        } else {
          r := Factor(1);
        }
    }

    /** `scaleShape`: every raw coordinate multiplied by the factor, in place. */
    method ScaleShape(f: int)
      modifies this`points
      ensures Valid() == old(Valid())
      ensures points == Scale(old(points), f)
    {
      var i := 0;
      while i < |points|
        invariant 0 <= i <= |points| == |old(points)|
        invariant forall k :: 0 <= k < i ==> points[k] == Point(f * old(points)[k].x, f * old(points)[k].y)
        invariant forall k :: i <= k < |points| ==> points[k] == old(points)[k]
      {
        points := points[i := Point(f * points[i].x, f * points[i].y)];
        i := i + 1;
      }
    }

    /** `makeSmaller`: on an exception the points are left as they were. */
    method MakeSmaller(offset: int) returns (r: ScaleResult)
      modifies this`points
      ensures Valid() == old(Valid())
      ensures r == ScaleFactor(old(points), offset, Smaller)
      ensures points == if r.Factor? then Scale(old(points), r.value) else old(points)
    {
      r := FindScale(offset, Smaller);
      if r.Factor? {
        ScaleShape(r.value);
      }
    }

    /** `makeLarger`: on an exception the points are left as they were. */
    method MakeLarger(offset: int) returns (r: ScaleResult)
      modifies this`points
      ensures Valid() == old(Valid())
      ensures r == ScaleFactor(old(points), offset, Larger)
      ensures points == if r.Factor? then Scale(old(points), r.value) else old(points)
    {
      r := FindScale(offset, Larger);
      if r.Factor? {
        ScaleShape(r.value);
      }
    }

    /** `moveBy`: every point moved by the direction's displacement, in place. */
    method MoveBy(offset: int, d: Direction)
      modifies this`points
      ensures Valid() == old(Valid())
      ensures points == Translate(old(points), Displacement(d, offset))
    {
      var dx, dy := 0, 0;
      match d {
        case Left => dx := -offset;
        case Right => dx := offset;
        case Up => dy := -offset;
        case Down => dy := offset;
      }
      var i := 0;
      while i < |points|
        invariant 0 <= i <= |points| == |old(points)|
        invariant forall k :: 0 <= k < i ==> points[k] == Point(old(points)[k].x + dx, old(points)[k].y + dy)
        invariant forall k :: i <= k < |points| ==> points[k] == old(points)[k]
      {
        points := points[i := Point(points[i].x + dx, points[i].y + dy)];
        i := i + 1;
      }
    }

    method MoveLeft(offset: int)
      modifies this`points
      ensures Valid() == old(Valid())
      ensures points == Translate(old(points), Point(-offset, 0))
    {
      MoveBy(offset, Left);
    }

    method MoveRight(offset: int)
      modifies this`points
      ensures Valid() == old(Valid())
      ensures points == Translate(old(points), Point(offset, 0))
    {
      MoveBy(offset, Right);
    }

    method MoveUp(offset: int)
      modifies this`points
      ensures Valid() == old(Valid())
      ensures points == Translate(old(points), Point(0, -offset))
    {
      MoveBy(offset, Up);
    }

    method MoveDown(offset: int)
      modifies this`points
      ensures Valid() == old(Valid())
      ensures points == Translate(old(points), Point(0, offset))
    {
      MoveBy(offset, Down);
    }

    /** `setPoint`: only the point at `index` changes; the count stays. */
    method SetPoint(index: int, x: int, y: int)
      requires 0 <= index < |points|
      modifies this`points
      ensures Valid() == old(Valid())
      ensures points == old(points)[index := Point(x, y)]
    {
      points := points[index := Point(x, y)];
    }

    method SetColor(c: Color)
      modifies this`color
      ensures Valid() == old(Valid())
      ensures color == c && points == old(points)
    {
      color := c;
    }

    /** `setStroke`: the `BasicStroke` constructor rejects a negative width. */
    method SetStroke(width: real)
      requires width >= 0.0
      modifies this`stroke
      ensures Valid() == old(Valid())
      ensures stroke == BasicStroke(width) && points == old(points)
    {
      stroke := BasicStroke(width);
    }

    method SetFilled(f: bool)
      modifies this`filled
      ensures Valid() == old(Valid())
      ensures filled == f && points == old(points)
    {
      filled := f;
    }

    /** `getMinX` (`a == X`) and `getMinY` (`a == Y`). */
    method GetMin(a: Axis) returns (min: int)
      ensures min == Lowest(points, a)
    {
      min := MIN_SEED;
      var i := 0;
      while i < |points|
        invariant 0 <= i <= |points|
        invariant min == Lowest(points[..i], a)
      {
        assert points[..i + 1][..i] == points[..i];
        min := Min(min, Coord(points[i], a));
        i := i + 1;
      }
      assert points[..i] == points;
    }

    /** `getMaxX` (`a == X`) and `getMaxY` (`a == Y`). */
    method GetMax(a: Axis) returns (max: int)
      ensures max == Highest(points, a)
    {
      max := MAX_SEED;
      var i := 0;
      while i < |points|
        invariant 0 <= i <= |points|
        invariant max == Highest(points[..i], a)
      {
        assert points[..i + 1][..i] == points[..i];
        max := Max(max, Coord(points[i], a));
        i := i + 1;
      }
      assert points[..i] == points;
    }

    /** `fallsWithinBoundingBox`. */
    method FallsWithinBoundingBox(p: Point) returns (b: bool)
      ensures b == InBox(points, p)
    {
      var minX := GetMin(X);
      var maxX := GetMax(X);
      var minY := GetMin(Y);
      var maxY := GetMax(Y);
      b := minX <= p.x <= maxX && minY <= p.y <= maxY;
    }

    /** The edge loop of `Polygon.fallsWithin`: the last point is joined back to the first. */
    method PolygonEdgeClose(p: Point) returns (close: bool)
      ensures close == NearClosedPath(points, p)
    {
      close := false;
      var i := 0;
      while i < |points|
        invariant 0 <= i <= |points|
        invariant forall k: nat :: k < i ==> !ClosedEdgeClose(points, k, p)
      {
        var j := if i == |points| - 1 then 0 else i + 1;
        if CloseToLine(points[i], points[j], p) {
          assert ClosedEdgeClose(points, i, p);
          close := true;
          break;
        }
        i := i + 1;
      }
    }

    /** The edge loop of `Polyline.fallsWithin`: consecutive points only. */
    method PolylineEdgeClose(p: Point) returns (close: bool)
      ensures close == NearOpenPath(points, p)
    {
      close := false;
      var i := 0;
      while i < |points| - 1
        invariant 0 <= i <= |points|
        invariant forall k: nat :: k < i && k + 1 < |points| ==> !OpenEdgeClose(points, k, p)
      {
        var j := i + 1;
        if CloseToLine(points[i], points[j], p) {
          assert OpenEdgeClose(points, i, p);
          close := true;
          break;
        }
        i := i + 1;
      }
    }

    /** `fallsWithin`, dispatched on the variant. */
    method FallsWithin(p: Point) returns (b: bool)
      requires Valid()
      ensures b == Hit(kind, points, p)
    {
      match kind
      case Line =>
        var p1, p2 := points[0], points[1];
        b := Min(p1.x, p2.x) <= p.x <= Max(p1.x, p2.x) &&
             Min(p1.y, p2.y) <= p.y <= Max(p1.y, p2.y) &&
             CloseToLine(p1, p2, p);
      case Rectangle =>
        b := FallsWithinBoundingBox(p);
      case Ellipse =>
        b := FallsWithinBoundingBox(p);
      case Text =>
        b := FallsWithinBoundingBox(p);
      case Polygon =>
        var close := PolygonEdgeClose(p);
        b := false;
        if close {
          b := FallsWithinBoundingBox(p);
        }
      case Polyline =>
        var close := PolylineEdgeClose(p);
        b := false;
        if close {
          b := FallsWithinBoundingBox(p);
        }
    }

    /** `addPoint` of `Polygon` and `Polyline`: appends at the end. */
    method AddPoint(x: int, y: int)
      requires kind == Polygon || kind == Polyline
      modifies this`points
      ensures Valid()
      ensures points == old(points) + [Point(x, y)]
    {
      points := points + [Point(x, y)];
    }

    /** `removeLast` of `Polygon` and `Polyline`: drops the last point. */
    method RemoveLast()
      requires kind == Polygon || kind == Polyline
      requires |points| > 0
      modifies this`points
      ensures Valid()
      ensures points == old(points)[..|old(points)| - 1]
    {
      points := points[..|points| - 1];
    }
  }
}
