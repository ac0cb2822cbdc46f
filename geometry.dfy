/** Plane geometry of the board: integer points, squared distances and the
    orientation-based segment crossing test that the graph builder uses to
    keep roads from crossing. */
module Geometry {

  datatype Point = Point(x: int, y: int)

  /** Squared Euclidean distance. For a threshold t >= 0, "distance < t"
      holds exactly when SqDist < t * t, so no square root is needed. */
  function SqDist(p: Point, q: Point): (d: nat)
    ensures d == 0 <==> p == q
  {
    var dx := p.x - q.x;
    var dy := p.y - q.y;
    assert dx * dx >= 0 && dy * dy >= 0;
    dx * dx + dy * dy
  }

  /** Twice the signed area of the triangle a, b, c: positive when the three
      points turn counter-clockwise, zero when they are collinear. */
  function Orient(a: Point, b: Point, c: Point): int {
    (b.x - a.x) * (c.y - a.y) - (b.y - a.y) * (c.x - a.x)
  }

  /** The `ccw` helper nested in `linesIntersect`, with the products in the
      source's order. */
  predicate Ccw(a: Point, b: Point, c: Point) {
    (c.y - a.y) * (b.x - a.x) > (b.y - a.y) * (c.x - a.x)
  }

  /** `linesIntersect(p1, p2, p3, p4)`: segment p1-p2 against segment p3-p4. */
  predicate LinesIntersect(p1: Point, p2: Point, p3: Point, p4: Point) {
    Ccw(p1, p3, p4) != Ccw(p2, p3, p4) && Ccw(p1, p2, p3) != Ccw(p1, p2, p4)
  }

  /** a and b lie strictly on opposite sides of the line through c and d. */
  predicate OppositeSides(a: Point, b: Point, c: Point, d: Point) {
    (Orient(c, d, a) > 0 && Orient(c, d, b) < 0) || (Orient(c, d, a) < 0 && Orient(c, d, b) > 0)
  }

  /** The two segments cross at a single point interior to both. */
  predicate ProperlyCross(p1: Point, p2: Point, p3: Point, p4: Point) {
    OppositeSides(p1, p2, p3, p4) && OppositeSides(p3, p4, p1, p2)
  }

  lemma CcwIsPositiveOrientation(a: Point, b: Point, c: Point)
    ensures Ccw(a, b, c) <==> Orient(a, b, c) > 0
  {
  }

  /** Orientation is unchanged by rotating the three points. */
  lemma OrientRotate(a: Point, b: Point, c: Point)
    ensures Orient(a, b, c) == Orient(b, c, a)
  {
    assert (c.x - b.x) * (a.y - b.y) == (c.x - a.x + (a.x - b.x)) * (a.y - b.y);
    assert (c.y - b.y) * (a.x - b.x) == (c.y - a.y + (a.y - b.y)) * (a.x - b.x);
  }

  /** Orientation changes sign when two of the points are exchanged. */
  lemma OrientSwap(a: Point, b: Point, c: Point)
    ensures Orient(b, a, c) == -Orient(a, b, c)
  {
    assert (a.x - b.x) * (c.y - b.y) == (a.x - b.x) * (c.y - a.y) + (a.x - b.x) * (a.y - b.y);
    assert (a.y - b.y) * (c.x - b.x) == (a.y - b.y) * (c.x - a.x) + (a.y - b.y) * (a.x - b.x);
  }

  /** The crossing test does not depend on which segment is given first. */
  lemma LinesIntersectSymmetric(p1: Point, p2: Point, p3: Point, p4: Point)
    ensures LinesIntersect(p1, p2, p3, p4) == LinesIntersect(p3, p4, p1, p2)
  {
    OrientRotate(p3, p1, p2);
    OrientRotate(p4, p1, p2);
    OrientRotate(p1, p3, p4);
    OrientRotate(p2, p3, p4);
  }

  /** Every proper crossing is reported, whichever way round either segment
      is given: the test never misses two roads that really cross. */
  lemma ProperCrossingDetected(p1: Point, p2: Point, p3: Point, p4: Point)
    requires ProperlyCross(p1, p2, p3, p4)
    ensures LinesIntersect(p1, p2, p3, p4) && LinesIntersect(p2, p1, p3, p4)
    ensures LinesIntersect(p1, p2, p4, p3) && LinesIntersect(p3, p4, p1, p2)
  {
    OrientRotate(p1, p3, p4);
    OrientRotate(p2, p3, p4);
    OrientRotate(p1, p4, p3);
    OrientRotate(p2, p4, p3);
    OrientSwap(p3, p4, p1);
    OrientSwap(p3, p4, p2);
    OrientSwap(p1, p2, p3);
    OrientSwap(p1, p2, p4);
    LinesIntersectSymmetric(p1, p2, p3, p4);
  }

  /** A proper crossing is a property of the two segments as sets: it does
      not depend on the order of the segments or of their endpoints. */
  lemma ProperlyCrossSymmetric(p1: Point, p2: Point, p3: Point, p4: Point)
    ensures ProperlyCross(p1, p2, p3, p4) == ProperlyCross(p3, p4, p1, p2)
    ensures ProperlyCross(p1, p2, p3, p4) == ProperlyCross(p2, p1, p3, p4)
    ensures ProperlyCross(p1, p2, p3, p4) == ProperlyCross(p1, p2, p4, p3)
  {
    OrientSwap(p3, p4, p1);
    OrientSwap(p3, p4, p2);
    OrientSwap(p1, p2, p3);
    OrientSwap(p1, p2, p4);
  }

  /** Two segments leaving the same first point are never reported. */
  lemma SharedStartNeverIntersects(p: Point, q: Point, r: Point)
    ensures !LinesIntersect(p, q, p, r)
  {
    OrientSwap(p, q, r);
    assert Orient(p, p, r) == 0;
    assert Orient(p, q, p) == 0;
  }

  /** Two segments meeting end to start can be reported as crossing: this is
      why the builder skips every edge that shares an endpoint. */
  lemma SharedEndpointMayRegister()
    ensures exists p, q, r :: LinesIntersect(p, q, r, p)
  {
    var p, q, r := Point(0, 0), Point(1, 0), Point(0, 1);
    assert LinesIntersect(p, q, r, p);
  }

  /** On points in general position, reversing the first segment does not
      change the answer. */
  lemma ReverseInGeneralPosition(p1: Point, p2: Point, p3: Point, p4: Point)
    requires Orient(p1, p2, p3) != 0 && Orient(p1, p2, p4) != 0
    ensures LinesIntersect(p2, p1, p3, p4) == LinesIntersect(p1, p2, p3, p4)
  {
    OrientSwap(p1, p2, p3);
    OrientSwap(p1, p2, p4);
  }

  /** With three collinear points the answer can depend on the direction of
      the first segment: a T-junction is seen from one end only. */
  lemma DirectionMattersWhenCollinear()
    ensures exists p1, p2, p3, p4 :: LinesIntersect(p1, p2, p3, p4) && !LinesIntersect(p2, p1, p3, p4)
  {
    var p1, p2, p3, p4 := Point(0, 0), Point(2, 0), Point(1, 0), Point(1, 1);
    assert LinesIntersect(p1, p2, p3, p4) && !LinesIntersect(p2, p1, p3, p4);
  }
}
