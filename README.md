# Shape geometry of the minicad drawing editor, in Dafny

This project models the shape module of minicad, a small drawing editor. In the editor, a
shape is one of six variants: line, rectangle, ellipse, polygon, polyline and text. Every
shape owns an ordered list of integer points and three style fields: colour, stroke and a
"filled" flag. The model covers the operations on the point list:

- the centroid (`findCenter`);
- translation (`moveBy` and its four wrappers);
- scaling (`findScale`, `scaleShape`, `makeSmaller`, `makeLarger`);
- point edits (`setPoint`, `addPoint`, `removeLast`);
- the bounding box (`getMinX/MinY/MaxX/MaxY`, `fallsWithinBoundingBox`);
- the per-variant hit tests (`fallsWithin`).

It proves what these operations compute and several consequences of the way the code
computes them.

Layout:

- `geometry.dfy`, module `Geometry`: points and the arithmetic on them. This covers Java's
  quotient rounded toward zero (`TruncDiv`), coordinate sums, the centroid, translation and
  scaling of raw coordinates.
- `bounds.dfy`, module `Bounds`: the bounding box. The minimum is seeded with 10000 and the
  maximum with 0, as in the source.
- `scaling.dfy`, module `Scaling`: the scale factor. The extent is measured from the
  centroid, the factor is an integer quotient, and a division by zero is a modelled
  outcome.
- `hittest.dfy`, module `HitTest`: the variant tag, the point-to-line test and each
  variant's `fallsWithin` rule, all as functions over the point sequence.
- `shape.dfy`, module `Shapes`: the class `Shape`. Its `kind` field replaces the Java
  subclasses. Its methods update `points` in place with loops, and each method is proved
  against the functions above.

Decisions in the model:

- **Integer scale factor.** `findScale` divides two `int`s, so the factor is an integer
  quotient rounded toward zero.
  - `makeSmaller(offset)` with `0 < offset < max` gives factor 0 and sends every point to
    the origin (`Scaling.SmallerCollapses`).
  - `makeLarger(offset)` with `0 <= offset < max` gives factor 1 and leaves the shape as it
    was (`Scaling.LargerBelowExtentIsNoOp`).
- **Division by zero.** When `max` is 0, the integer division raises an
  `ArithmeticException`. This happens in `makeLarger`, and in `makeSmaller` when the offset
  is also negative. The model returns `DivisionByZero` and leaves the points unchanged,
  because the exception is raised before `scaleShape` runs. This happens for every shape
  without points, and for some shapes with distinct points (`Scaling.FlatPairCannotGrow`).
  One might expect a no-op with factor 1 here; the code raises the exception, and the
  model follows the code.
- **Scaling of raw coordinates.** `scaleShape` multiplies the raw coordinates, not the
  vectors from the centroid.
- **Sentinel seeds.** The box runs from min(10000, all coordinates) to max(0, all
  coordinates). A shape without points therefore contains no point. When every
  coordinate lies between the two seeds 0 and 10000, the box is the tight box around the
  points.
- **Signed distance.** The distance from a point to the line through an edge keeps its
  sign, and the code compares that signed value with 10. Let `N = a x + b y + c` and
  `D = a² + b²`. Then `N / sqrt(D) < 10` is modelled exactly by the integer predicate
  `D != 0 && (N < 0 || N² < 100 D)`; `HitTest.CloseToLineIsDistanceTest` proves this
  equivalence over the reals. One consequence is that every point is "close" to an edge
  with distinct endpoints, in one of its two directions; an edge whose endpoints
  coincide is close in neither. So for a polygon, whether a far point is hit depends on
  the order of its points (`HitTest.WindingDecidesFarPoints`). A line depends on the order
  of its two endpoints in the same way: the line (0,0)-(100,100) is hit at (90,10), about
  57 away, and the line (100,100)-(0,0) is not (`HitTest.LineHitFarOnNegativeSide`,
  `HitTest.LineMissFarOnPositiveSide`).
- **The small square.** One might expect the interior point (5,5) of the square
  (0,0),(10,0),(10,10),(0,10) not to be hit. The code hits it, because the centre is 5
  from each edge, which is below the threshold of 10 (`HitTest.SquareHitAtCentre`).
- **Constructors.** Line, rectangle, ellipse and text start with exactly their two
  points. Polygon and polyline start with none.

## Model

| member | source | states |
|---|---|---|
| `Geometry.TruncDiv` | lib/Shape.java:23 | the `(int)` of a quotient: for a non-negative dividend the floor of a/b, for a negative one the ceiling (rounded toward zero) |
| `Geometry.TruncDivOfNegation` | lib/Shape.java:23 | rounding toward zero is symmetric: TruncDiv(-a, b) == -TruncDiv(a, b) |
| `Geometry.TruncDivWithin` | lib/Shape.java:23 | a quotient between two integers stays between them after truncation |
| `Geometry.TruncDivUnique` | lib/Shape.java:91 | for a non-negative dividend the truncated quotient is the unique k with b k <= a < b k + b |
| `Geometry.TruncDivOfMultiple` | lib/Shape.java:23 | dividing b k by b gives exactly k |
| `Geometry.Vector` | lib/Shape.java:78-81 | defines `p - c` componentwise, the vector from the centre |
| `Geometry.Sum` | lib/Shape.java:16-21 | defines the sum of one coordinate over the points in list order; `Geometry.SumBetween` bounds it |
| `Geometry.Centroid` | lib/Shape.java:13-24 | defines the centre: the origin for no points, else each coordinate sum divided by the count, rounded toward zero; its properties are the centroid lemmas |
| `Geometry.Translate` | lib/Shape.java:106-119 | every point moved by the vector, the count kept |
| `Geometry.Scale` | lib/Shape.java:101-105 | every raw coordinate multiplied by the factor, the count kept |
| `Geometry.SumBetween` | lib/Shape.java:18-21 | the coordinate sum of n points each between lo and hi lies between n lo and n hi |
| `Geometry.CentroidOfCoincidentPoints` | lib/Shape.java:13-24 | points that all coincide have that point as their centre |
| `Geometry.TranslateUndone` | lib/Shape.java:106-119 | moving by v and then by -v restores the points exactly |
| `Geometry.TranslateTwice` | lib/Shape.java:106-119 | two moves equal one move by the sum of the displacements |
| `Geometry.ScaleByOne` | lib/Shape.java:101-105 | scaling by 1 leaves the points unchanged |
| `Geometry.ScaleByZero` | lib/Shape.java:101-105 | scaling by 0 sends every point to the origin |
| `Geometry.ScaleTwice` | lib/Shape.java:101-105 | scaling by f then g equals scaling by g f |
| `Bounds.Lowest` | lib/Shape.java:129-142 | defines the running minimum seeded with 10000; `Bounds.LowestIsMinimum` characterises it |
| `Bounds.Highest` | lib/Shape.java:143-156 | defines the running maximum seeded with 0; `Bounds.HighestIsMaximum` characterises it |
| `Bounds.InBox` | lib/Shape.java:157-163 | the inclusive box test on both axes; it holds only for a shape with points |
| `Bounds.LowestIsMinimum` | lib/Shape.java:129-142 | getMinX/getMinY is min(10000, every coordinate): a lower bound of the seed and of every point, and equal to one of them |
| `Bounds.HighestIsMaximum` | lib/Shape.java:143-156 | getMaxX/getMaxY is max(0, every coordinate): an upper bound of the seed and of every point, and equal to one of them |
| `Bounds.EmptyBoxContainsNothing` | lib/Shape.java:157-163 | with no points the box test is false for every point |
| `Bounds.PointsInsideBox` | lib/Shape.java:157-163 | every point of a shape passes its own box test |
| `Bounds.BoxAttainedBetweenSeeds` | lib/Shape.java:129-156 | when every coordinate lies between the two seeds 0 and 10000, each side of the box is some point's coordinate |
| `Bounds.BoxIsTightBetweenSeeds` | lib/Shape.java:157-163 | when every coordinate lies between the two seeds 0 and 10000, a point is in the box iff each of its coordinates lies between two of the shape's |
| `Bounds.CentroidInsideBox` | lib/Shape.java:13-24 | the centre of a shape with points lies in its bounding box |
| `Scaling.MaxComponent` | lib/Shape.java:86 | defines the larger of a vector's two components |
| `Scaling.Extent` | lib/Shape.java:82-88 | the `max` of `findScale`, taken about the shape's own centre; never negative |
| `Scaling.ScaleFactor` | lib/Shape.java:90-99 | the factor of `findScale`; a division by zero happens only when `max` is 0 |
| `Scaling.ExtentAbout` | lib/Shape.java:83-88 | the running `max` seeded with 0 is never negative |
| `Scaling.ExtentIsMaximum` | lib/Shape.java:83-88 | `max` is max(0, max(vec.x, vec.y) over all points): an upper bound of every point's larger component, and 0 or attained |
| `Scaling.ExtentZeroIff` | lib/Shape.java:78-88 | `max` is 0 iff no point lies right of or below the centre |
| `Scaling.LargerFailsIffFlat` | lib/Shape.java:90-91 | LARGER divides by zero iff no point lies right of or below the centre |
| `Scaling.SmallerFailsIff` | lib/Shape.java:92-97 | SMALLER divides by zero iff `max` is 0 and the offset is negative |
| `Scaling.EmptyShapeCannotGrow` | lib/Shape.java:83-91 | LARGER on a shape without points divides by zero |
| `Scaling.FlatPairCannotGrow` | lib/Shape.java:78-91 | LARGER on the distinct points (0,0),(-1,-1) divides by zero, since their centre truncates to (0,0) |
| `Scaling.SmallerCollapses` | lib/Shape.java:92-94 | SMALLER with 0 < offset < max gives factor 0, which sends every point to the origin |
| `Scaling.SmallerBeyondExtentIsNoOp` | lib/Shape.java:95-96 | SMALLER with offset >= max gives factor 1, which leaves the points unchanged |
| `Scaling.LargerBelowExtentIsNoOp` | lib/Shape.java:91 | LARGER with 0 <= offset < max gives factor 1 |
| `Scaling.LargerFactor` | lib/Shape.java:91 | LARGER with offset >= 0 and max != 0 succeeds with factor 1 + offset div max, at least 1 |
| `HitTest.WellFormed` | lib/Shape.java:168-171 | defines the point count of each variant: line, rectangle, ellipse and text keep exactly two points (constructors at 168-171, 195-198, 218-221, 321-325) |
| `HitTest.InSegmentBox` | lib/Shape.java:183-184 | defines the line's own inclusive box test between the two endpoints, with no sentinel; `HitTest.SegmentBoxIsBoundingBoxBetweenSeeds` relates it to the bounding box |
| `HitTest.NextIndex` | lib/Shape.java:260 | defines the index after `i` around the closed path: `i + 1`, or `0` after the last point |
| `HitTest.ClosedEdgeClose` | lib/Shape.java:259-263 | defines whether the polygon edge from point `i` to point `NextIndex(i)` is close to the point |
| `HitTest.NearClosedPath` | lib/Shape.java:258-265 | defines what the polygon loop computes: some edge, the closing edge included, is close; `Shapes.Shape.PolygonEdgeClose` is proved equal to it |
| `HitTest.OpenEdgeClose` | lib/Shape.java:303-307 | defines, for `i + 1 < n`, whether the polyline edge from point `i` to point `i + 1` is close to the point |
| `HitTest.NearOpenPath` | lib/Shape.java:302-309 | defines what the polyline loop computes: some edge `(i, i + 1)` is close; `Shapes.Shape.PolylineEdgeClose` is proved equal to it |
| `HitTest.Numerator` | lib/Shape.java:123-127 | a x + b y + c, the numerator of the signed distance |
| `HitTest.DenominatorSquared` | lib/Shape.java:123-127 | a² + b², the square of the denominator; never negative |
| `HitTest.CloseToLine` | lib/Shape.java:120-127 | `findDistanceToLine(p1, p2, p) < 10` as an integer predicate; it holds only for distinct endpoints |
| `HitTest.Hit` | lib/Shape.java:180-336 | each variant's `fallsWithin` rule; every variant except the line needs the point in the bounding box |
| `HitTest.CloseToLineIsDistanceTest` | lib/Shape.java:120-127 | the integer predicate holds iff sqrt(D) != 0 and the signed distance N / sqrt(D) is below 10, over the reals |
| `HitTest.DegenerateEdge` | lib/Shape.java:120-127 | D is 0 iff the endpoints coincide, and such an edge is never close (NaN < 10 is false) |
| `HitTest.PointsOnLineAreClose` | lib/Shape.java:120-127 | every point on the line through two distinct points is close |
| `HitTest.CloseInOneDirection` | lib/Shape.java:120-127 | since the sign is kept, every point is close to an edge with distinct endpoints, taken in one of its two directions |
| `HitTest.SegmentBoxIsBoundingBoxBetweenSeeds` | lib/Shape.java:183-184 | when both endpoints lie between the two seeds 0 and 10000, a line's own segment box equals its bounding box |
| `HitTest.ClosedPathIsOpenPathPlusClosingEdge` | lib/Shape.java:259-265 | the polygon's edge test is the polyline's edge test or the closing edge from last to first, both directions |
| `HitTest.PolylineHitIsPolygonHit` | lib/Shape.java:301-314 | a polyline hit is a hit of the polygon with the same points |
| `HitTest.ShortPolylineNeverHit` | lib/Shape.java:301-314 | a polyline with fewer than two points is never hit |
| `HitTest.ShortPolygonNeverHit` | lib/Shape.java:257-270 | a polygon with fewer than two points is never hit |
| `HitTest.BoxVariantsHitTheirPoints` | lib/Shape.java:212-214 | rectangle (212-214), ellipse (234-236) and text (334-336) hit every one of their points |
| `HitTest.DegenerateLineNeverHit` | lib/Shape.java:180-190 | a line whose two points coincide is never hit |
| `HitTest.LineHitOnSegment` | lib/Shape.java:180-190 | line (0,0)-(10,0) is hit at (5,0) |
| `HitTest.LineMissFarAway` | lib/Shape.java:180-190 | line (0,0)-(10,0) is not hit at (5,20) |
| `HitTest.LineMissBeyondEnd` | lib/Shape.java:180-190 | line (0,0)-(10,0) is not hit at (-5,0), which is on the line |
| `HitTest.LineHitFarOnNegativeSide` | lib/Shape.java:180-190 | line (0,0)-(100,100) is hit at (90,10), about 57 away, because the signed distance is negative |
| `HitTest.LineMissFarOnPositiveSide` | lib/Shape.java:180-190 | line (100,100)-(0,0) is not hit at (90,10), where the signed distance is positive |
| `HitTest.RectangleExamples` | lib/Shape.java:212-214 | rectangle (0,0)-(10,10) is hit at (5,5) and not at (15,5) |
| `HitTest.SquareHitOnEdge` | lib/Shape.java:257-270 | the square of side 10 is hit on an edge |
| `HitTest.SquareHitAtCentre` | lib/Shape.java:257-270 | the square of side 10 is hit at its centre, 5 from each edge |
| `HitTest.WindingDecidesFarPoints` | lib/Shape.java:257-270 | the centre of a square of side 100 is hit for one order of its points and missed for the other |
| `Shapes.Displacement` | lib/Shape.java:109-114 | the vector of `moveBy`: along one axis only, of length |offset| (its squared length is offset²) |
| `Shapes.OppositeMovesCancel` | lib/Shape.java:35-46 | moveLeft(k) then moveRight(k) restores the points, and so do moveUp(k) then moveDown(k) |
| `Shapes.AddThenRemoveRestores` | lib/Shape.java:249-254 | appending a point then dropping the last one restores the sequence |
| `Shapes.Shape.Valid` | lib/Shape.java:168-171 | line, rectangle, ellipse and text keep exactly their two points; every mutator preserves it |
| `Shapes.Shape.FromCorners` | lib/Shape.java:168-171 | Line/Rectangle/Ellipse/Text construction: exactly the two given points in order, style unset |
| `Shapes.Shape.Empty` | lib/Shape.java:240 | Polygon (240) and Polyline (276) construction: no points |
| `Shapes.Shape.FindCenter` | lib/Shape.java:13-24 | the result is the centroid: the origin for no points, else each coordinate sum divided by the count, truncated |
| `Shapes.Shape.FindVectorFromCenter` | lib/Shape.java:78-81 | the point minus the current centroid |
| `Shapes.Shape.FindScale` | lib/Shape.java:82-100 | the loop's `max` is the extent, and the result is the factor or the division by zero |
| `Shapes.Shape.ScaleShape` | lib/Shape.java:101-105 | every raw coordinate multiplied by the factor, the count kept |
| `Shapes.Shape.MakeSmaller` | lib/Shape.java:25-28 | points scaled by the SMALLER factor, or unchanged when it divides by zero |
| `Shapes.Shape.MakeLarger` | lib/Shape.java:30-33 | points scaled by the LARGER factor, or unchanged when it divides by zero |
| `Shapes.Shape.MoveBy` | lib/Shape.java:106-119 | every point moved by the direction's displacement, the count kept |
| `Shapes.Shape.MoveLeft` | lib/Shape.java:35-37 | every point moved by (-k, 0) |
| `Shapes.Shape.MoveRight` | lib/Shape.java:38-40 | every point moved by (k, 0) |
| `Shapes.Shape.MoveUp` | lib/Shape.java:41-43 | every point moved by (0, -k) |
| `Shapes.Shape.MoveDown` | lib/Shape.java:44-46 | every point moved by (0, k) |
| `Shapes.Shape.SetPoint` | lib/Shape.java:47-50 | only the point at the index changes; requires a valid index |
| `Shapes.Shape.SetColor` | lib/Shape.java:52-54 | sets the colour; the points are untouched |
| `Shapes.Shape.SetStroke` | lib/Shape.java:56-58 | sets the stroke width; requires a non-negative width; the points are untouched |
| `Shapes.Shape.SetFilled` | lib/Shape.java:60-62 | sets the flag; the points are untouched |
| `Shapes.Shape.GetMin` | lib/Shape.java:129-142 | the loop computes min(10000, every coordinate on the axis) |
| `Shapes.Shape.GetMax` | lib/Shape.java:143-156 | the loop computes max(0, every coordinate on the axis) |
| `Shapes.Shape.FallsWithinBoundingBox` | lib/Shape.java:157-163 | the inclusive test against the sentinel-seeded box |
| `Shapes.Shape.PolygonEdgeClose` | lib/Shape.java:258-265 | true iff some edge (i, i+1 mod n), the closing edge included, is close |
| `Shapes.Shape.PolylineEdgeClose` | lib/Shape.java:302-309 | true iff some edge (i, i+1) with i < n-1 is close |
| `Shapes.Shape.FallsWithin` | lib/Shape.java:180-336 | each variant's rule: line = own segment box and close; rectangle, ellipse, text = bounding box; polygon/polyline = a close edge and the bounding box |
| `Shapes.Shape.AddPoint` | lib/Shape.java:249-251 | Polygon (249-251) and Polyline (293-295): appends the point at the end |
| `Shapes.Shape.RemoveLast` | lib/Shape.java:252-254 | Polygon (252-254) and Polyline (296-298): drops the last point; requires at least one |

## Left out

- Rendering: every `render` method and the drawing surface are left out. They make AWT
  calls and return nothing. Rectangle's two identical `fillRect` branches (lib/Shape.java:205
  and 208) are a rendering defect, not modelled. The unused `Font` at line 330 is not
  modelled either.
- Style values: `Color`, `BasicStroke` and `Serializable` are library types. Colour and
  stroke are opaque datatypes, and their initial `null` is `NoColor`/`NoStroke`.
- SetStroke: the `IllegalArgumentException` that `new BasicStroke(width)` raises for a
  negative width is a precondition (`width >= 0.0`), not a modelled exception; the `float`
  width is a `real`.
- Text string: the `str` field of `Text` is not modelled. Its constructor takes only the
  two corners here.
- Floating point: `findDistanceToLine` uses `Math.sqrt` and `Math.pow`. It is replaced by
  the exact integer predicate. The `double` sums and products in `findCenter`, `findScale`
  and `scaleShape` are computed on unbounded integers, so large coordinates where `double`
  would round are not modelled.
- Integer width: coordinates are unbounded integers. The wrap-around of Java `int`
  arithmetic is not modelled: `p.translate(dx, dy)` (line 116), `offset + max` (line 91)
  and `max - offset` (lines 93-94). Neither is the saturation of the `(int)` casts of
  `double` values at lines 23, 80, 86 and 103.
- Uninitialised list: the `points` field is never initialised in the source (line 65), so
  the constructors there would fail on a null list. The model starts every shape with an
  empty list.
- Point objects: `java.awt.Point` objects are mutable, and the list holds references to
  them. The model stores points as values. Nothing in the class shares a point, so no
  aliasing is lost.
- Index errors: the out-of-range errors of `setPoint` and `removeLast` are preconditions in
  the model, not modelled exceptions. So are `addPoint`/`removeLast` being defined only on
  Polygon and Polyline.
- Unknown mode: the final `return 1.0` of `findScale` for a mode that is neither LARGER nor
  SMALLER cannot be reached, because the mode is an enumeration here. Likewise, the
  `switch` of `moveBy` (lines 109-114) has no default case, so an unknown direction
  moves every point by (0, 0). That path cannot be reached here, because `Direction`
  has only its four values.
- Exceptions: a division by zero in `makeLarger`/`makeSmaller` is returned as a
  `DivisionByZero` outcome. It is not propagated as an exception.
