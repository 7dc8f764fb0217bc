/** Integer plane geometry of the quadtree: points, axis-aligned rectangles
    and the boundary-inclusive containment and intersection tests. */
module Geometry {

  datatype Point = Point(x: int, y: int)

  /** A rectangle given by its lower-left and upper-right corners. The
      constructor does not normalise: a rectangle whose `leftDown` exceeds
      its `rightTop` on some axis is representable and contains no point. */
  datatype Rect = Rect(leftDown: Point, rightTop: Point)

  function Min(a: int, b: int): int { if a <= b then a else b }

  function Max(a: int, b: int): int { if a >= b then a else b }

  predicate WellFormed(r: Rect) {
    r.leftDown.x <= r.rightTop.x && r.leftDown.y <= r.rightTop.y
  }

  function Width(r: Rect): int { r.rightTop.x - r.leftDown.x }

  function Height(r: Rect): int { r.rightTop.y - r.leftDown.y }

  /** Half the perimeter of a well-formed rectangle; zero for a malformed one. */
  function Extent(r: Rect): nat {
    if WellFormed(r) then Width(r) + Height(r) else 0
  }

  /** At most one unit wide and one unit high. */
  predicate Unit(r: Rect) {
    Width(r) <= 1 && Height(r) <= 1
  }

  /** Containment, inclusive on all four sides. */
  predicate Contains(r: Rect, p: Point) {
    p.x <= r.rightTop.x && p.x >= r.leftDown.x && p.y >= r.leftDown.y && p.y <= r.rightTop.y
  }

  /** Overlap test: the maxima of the lower corners must not exceed the
      minima of the upper corners, on both axes. */
  predicate Intersect(a: Rect, b: Rect) {
    var up := Point(Min(b.rightTop.x, a.rightTop.x), Min(b.rightTop.y, a.rightTop.y));
    var down := Point(Max(b.leftDown.x, a.leftDown.x), Max(b.leftDown.y, a.leftDown.y));
    down.x <= up.x && down.y <= up.y
  }

  /** `a` lies within `b`, corner by corner. */
  predicate Inside(a: Rect, b: Rect) {
    b.leftDown.x <= a.leftDown.x && a.rightTop.x <= b.rightTop.x &&
    b.leftDown.y <= a.leftDown.y && a.rightTop.y <= b.rightTop.y
  }

  /** Containment is inclusive on every side: the four corners of a
      well-formed rectangle are inside it, and a point one step beyond any
      side is not. */
  lemma ContainsInclusive(r: Rect)
    requires WellFormed(r)
    ensures Contains(r, r.leftDown) && Contains(r, r.rightTop)
    ensures Contains(r, Point(r.leftDown.x, r.rightTop.y)) && Contains(r, Point(r.rightTop.x, r.leftDown.y))
    ensures !Contains(r, Point(r.rightTop.x + 1, r.leftDown.y)) && !Contains(r, Point(r.leftDown.x - 1, r.leftDown.y))
    ensures !Contains(r, Point(r.leftDown.x, r.rightTop.y + 1)) && !Contains(r, Point(r.leftDown.x, r.leftDown.y - 1))
  {
  }

  /** Only a well-formed rectangle contains anything. */
  lemma ContainsWellFormed(r: Rect, p: Point)
    requires Contains(r, p)
    ensures WellFormed(r)
  {
  }

  /** The overlap test agrees with its geometric meaning: two rectangles
      intersect exactly when some point lies in both. */
  lemma IntersectIffCommonPoint(a: Rect, b: Rect)
    ensures Intersect(a, b) <==> exists p :: Contains(a, p) && Contains(b, p)
  {
    if Intersect(a, b) {
      var w := Point(Max(b.leftDown.x, a.leftDown.x), Max(b.leftDown.y, a.leftDown.y));
      assert Contains(a, w) && Contains(b, w);
    }
  }

  /** Two rectangles sharing a point overlap (the direction the query needs). */
  lemma CommonPointIntersect(a: Rect, b: Rect, p: Point)
    requires Contains(a, p) && Contains(b, p)
    ensures Intersect(a, b) && Intersect(b, a)
  {
  }

  /** The overlap test does not depend on argument order. */
  lemma IntersectSymmetric(a: Rect, b: Rect)
    ensures Intersect(a, b) <==> Intersect(b, a)
  {
  }

  /** Containment of a point is overlap with the degenerate rectangle at it. */
  lemma ContainsIsPointOverlap(r: Rect, p: Point)
    ensures Contains(r, p) <==> Intersect(r, Rect(p, p))
  {
  }

  /** A well-formed rectangle inside another one contains only points of it,
      and overlaps it. */
  lemma InsideContains(a: Rect, b: Rect)
    requires WellFormed(a) && Inside(a, b)
    ensures forall p :: Contains(a, p) ==> Contains(b, p)
    ensures Intersect(a, b)
  {
  }

  /** A well-formed rectangle strictly inside another is strictly smaller. */
  lemma InsideShrinks(a: Rect, b: Rect)
    requires WellFormed(a) && Inside(a, b) && a != b
    ensures Extent(a) < Extent(b)
  {
    if a.leftDown == b.leftDown {
      assert a.rightTop != b.rightTop;
    }
  }
}
