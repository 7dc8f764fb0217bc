/** Splitting a rectangle into its four quadrants at the integer midpoint,
    and partitioning a point vector among them (`splitSubtreeObjs`). */
module Quadrants {
  import opened Outcomes
  import opened Geometry
  import opened Filtering

  /** C++ `n / 2` on `int`, which truncates toward zero (Dafny's `/` is
      Euclidean, so the two differ for odd negative `n`). */
  function TruncDiv2(n: int): (q: int)
    ensures n >= 0 ==> 0 <= n - 2 * q <= 1
    ensures n < 0 ==> 0 <= 2 * q - n <= 1
  {
    if n >= 0 then n / 2 else -((-n) / 2)
  }

  /** The split coordinate `(lo + hi) / 2`: it lies between the bounds and
      cuts the interval into two parts whose lengths differ by at most one. */
  function Mid(lo: int, hi: int): (m: int)
    ensures lo <= hi ==> lo <= m <= hi
    ensures lo <= hi ==> 2 * (m - lo) <= hi - lo + 1 && 2 * (hi - m) <= hi - lo + 1
  {
    TruncDiv2(lo + hi)
  }

  datatype Quadrant = LeftDown | LeftUp | RightDown | RightUp

  /** The order in which the quadrants are built and tested; a point on a
      shared edge goes to the earliest quadrant that contains it. */
  const Order: seq<Quadrant> := [LeftDown, LeftUp, RightDown, RightUp]

  /** Position of a quadrant in `Order`. */
  function Rank(q: Quadrant): (i: nat)
    ensures i < |Order| && Order[i] == q
  {
    match q
    case LeftDown => 0
    case LeftUp => 1
    case RightDown => 2
    case RightUp => 3
  }

  /** A four-slot record, one slot per quadrant. */
  datatype Four<T> = Four(ld: T, lu: T, rd: T, ru: T) {
    function Get(q: Quadrant): T {
      match q
      case LeftDown => ld
      case LeftUp => lu
      case RightDown => rd
      case RightUp => ru
    }
  }

  /** The rectangle of quadrant `q` of `r`: the four share the midlines
      `x == Mid(...)` and `y == Mid(...)`, and each one of a well-formed
      rectangle is well-formed, inside it, and at most half as wide and half
      as high, rounded up. */
  function QuadRect(r: Rect, q: Quadrant): (c: Rect)
    ensures WellFormed(r) ==> WellFormed(c) && Inside(c, r)
    ensures WellFormed(r) ==> 2 * Width(c) <= Width(r) + 1 && 2 * Height(c) <= Height(r) + 1
  {
    var midX := Mid(r.leftDown.x, r.rightTop.x);
    var midY := Mid(r.leftDown.y, r.rightTop.y);
    match q
    case LeftDown => Rect(r.leftDown, Point(midX, midY))
    case LeftUp => Rect(Point(r.leftDown.x, midY), Point(midX, r.rightTop.y))
    case RightDown => Rect(Point(midX, r.leftDown.y), Point(r.rightTop.x, midY))
    case RightUp => Rect(Point(midX, midY), r.rightTop)
  }

  /** The quadrants of a well-formed rectangle cover exactly its points. */
  lemma QuadrantsCover(r: Rect, p: Point)
    requires WellFormed(r)
    ensures Contains(r, p) <==> exists q :: Contains(QuadRect(r, q), p)
  {
    if Contains(r, p) {
      var midX := Mid(r.leftDown.x, r.rightTop.x);
      var midY := Mid(r.leftDown.y, r.rightTop.y);
      var q := if p.x <= midX then (if p.y <= midY then LeftDown else LeftUp)
               else (if p.y <= midY then RightDown else RightUp);
      assert Contains(QuadRect(r, q), p);
    }
    forall q | Contains(QuadRect(r, q), p)
      ensures Contains(r, p)
    {
      InsideContains(QuadRect(r, q), r);
    }
  }

  /** A quadrant equals its parent only when the parent is at most one unit
      wide and high; this is where splitting stops making progress. */
  lemma QuadrantEqualsParent(r: Rect, q: Quadrant)
    requires WellFormed(r) && QuadRect(r, q) == r
    ensures Unit(r)
  {
  }

  /** Every quadrant of a rectangle larger than a unit is strictly smaller
      than it. */
  lemma QuadrantShrinks(r: Rect, q: Quadrant)
    requires WellFormed(r) && !Unit(r)
    ensures QuadRect(r, q) != r
    ensures Extent(QuadRect(r, q)) < Extent(r)
  {
    if QuadRect(r, q) == r {
      QuadrantEqualsParent(r, q);
    }
    InsideShrinks(QuadRect(r, q), r);
  }

  /** The first quadrant among `qs` whose rectangle contains `p`. */
  function FirstAmong(r: Rect, p: Point, qs: seq<Quadrant>): (f: Option<Quadrant>)
    ensures f.None? <==> forall i :: 0 <= i < |qs| ==> !Contains(QuadRect(r, qs[i]), p)
    ensures f.Some? ==> exists k :: 0 <= k < |qs| && qs[k] == f.value && Contains(QuadRect(r, f.value), p) &&
                          forall i :: 0 <= i < k ==> !Contains(QuadRect(r, qs[i]), p)
    decreases |qs|
  {
    if |qs| == 0 then None
    else if Contains(QuadRect(r, qs[0]), p) then Some(qs[0])
    else
      var f := FirstAmong(r, p, qs[1..]);
      assert forall i :: 1 <= i < |qs| ==> qs[i] == qs[1..][i - 1];
      f
  }

  /** The quadrant a point is sent to: the earliest in `Order` whose
      rectangle contains it, or none. */
  function FirstQuadrant(r: Rect, p: Point): (f: Option<Quadrant>)
    ensures f.None? <==> forall q :: !Contains(QuadRect(r, q), p)
    ensures f.Some? ==> Contains(QuadRect(r, f.value), p)
    ensures f.Some? ==> forall q :: Rank(q) < Rank(f.value) ==> !Contains(QuadRect(r, q), p)
  {
    var f := FirstAmong(r, p, Order);
    assert f.Some? ==> forall q :: Rank(q) < Rank(f.value) ==> !Contains(QuadRect(r, q), p) by {
      if f.Some? {
        var k :| 0 <= k < |Order| && Order[k] == f.value &&
                 forall i :: 0 <= i < k ==> !Contains(QuadRect(r, Order[i]), p);
        assert Rank(f.value) == k;
      }
    }
    assert f.None? ==> forall q :: !Contains(QuadRect(r, q), p) by {
      if f.None? {
        forall q ensures !Contains(QuadRect(r, q), p) {
          assert Order[Rank(q)] == q;
        }
      }
    }
    f
  }

  /** Every point of a well-formed rectangle has a quadrant, and only those
      do: the branch that drops a point is unreachable for contained points. */
  lemma FirstQuadrantTotal(r: Rect, p: Point)
    requires WellFormed(r)
    ensures FirstQuadrant(r, p).Some? <==> Contains(r, p)
  {
    QuadrantsCover(r, p);
  }

  /** The earliest-first rule is the source's if/else-if chain over the four
      quadrant rectangles. */
  lemma FirstQuadrantChain(r: Rect, p: Point)
    ensures FirstQuadrant(r, p) ==
      if Contains(QuadRect(r, LeftDown), p) then Some(LeftDown)
      else if Contains(QuadRect(r, LeftUp), p) then Some(LeftUp)
      else if Contains(QuadRect(r, RightDown), p) then Some(RightDown)
      else if Contains(QuadRect(r, RightUp), p) then Some(RightUp)
      else None
  {
    var f := FirstQuadrant(r, p);
    if f.Some? {
      assert Rank(LeftDown) == 0 && Rank(LeftUp) == 1 && Rank(RightDown) == 2;
    }
  }

  /** The points of `objs` sent to quadrant `q`, in input order. */
  function Bucket(objs: seq<Point>, r: Rect, q: Quadrant): (b: seq<Point>)
    ensures |b| <= |objs|
    decreases |objs|
  {
    if |objs| == 0 then []
    else
      var b := Bucket(objs[..|objs| - 1], r, q);
      var p := objs[|objs| - 1];
      if FirstQuadrant(r, p) == Some(q) then b + [p] else b
  }

  /** A bucket holds exactly the input points sent to its quadrant, each
      as often as the input does, and all of them lie in the quadrant. */
  lemma {:induction false} BucketContents(objs: seq<Point>, r: Rect, q: Quadrant)
    ensures forall p :: p in Bucket(objs, r, q) ==> Contains(QuadRect(r, q), p)
    ensures forall p :: p in Bucket(objs, r, q) <==> p in objs && FirstQuadrant(r, p) == Some(q)
    ensures forall p :: multiset(Bucket(objs, r, q))[p] == if FirstQuadrant(r, p) == Some(q) then multiset(objs)[p] else 0
    decreases |objs|
  {
    if |objs| > 0 {
      var init := objs[..|objs| - 1];
      assert objs == init + [objs[|objs| - 1]];
      BucketContents(init, r, q);
    }
  }

  /** A bucket keeps the input order of its points. */
  lemma {:induction false} BucketIsSubseq(objs: seq<Point>, r: Rect, q: Quadrant)
    ensures IsSubseq(Bucket(objs, r, q), objs)
    decreases |objs|
  {
    if |objs| > 0 {
      var init := objs[..|objs| - 1];
      BucketIsSubseq(init, r, q);
      var b := Bucket(objs, r, q);
      if FirstQuadrant(r, objs[|objs| - 1]) == Some(q) {
        assert b[..|b| - 1] == Bucket(init, r, q);
      }
    }
  }

  /** A bucket whose quadrant is every input point's first is the whole
      input. */
  lemma {:induction false} BucketAll(objs: seq<Point>, r: Rect, q: Quadrant)
    requires forall p :: p in objs ==> FirstQuadrant(r, p) == Some(q)
    ensures Bucket(objs, r, q) == objs
    decreases |objs|
  {
    if |objs| > 0 {
      var init := objs[..|objs| - 1];
      assert objs == init + [objs[|objs| - 1]];
      assert forall p :: p in init ==> p in objs;
      BucketAll(init, r, q);
    }
  }

  /** A point sent elsewhere leaves a bucket shorter than its input. */
  lemma {:induction false} BucketShorter(objs: seq<Point>, r: Rect, q: Quadrant, p: Point)
    requires p in objs && FirstQuadrant(r, p) != Some(q)
    ensures |Bucket(objs, r, q)| < |objs|
    decreases |objs|
  {
    var init := objs[..|objs| - 1];
    assert objs == init + [objs[|objs| - 1]];
    if objs[|objs| - 1] != p {
      BucketShorter(init, r, q, p);
    }
  }

  /** One pass over the points, as the source's loop does it: each point is
      appended to the first of the four quadrant vectors (tested in `Order`)
      whose rectangle contains it, and dropped if none does. The result is
      the four buckets. */
  function SplitObjs(objs: seq<Point>, r: Rect): Four<seq<Point>>
    decreases |objs|
  {
    if |objs| == 0 then Four([], [], [], [])
    else
      var b := SplitObjs(objs[..|objs| - 1], r);
      var p := objs[|objs| - 1];
      if Contains(QuadRect(r, LeftDown), p) then b.(ld := b.ld + [p])
      else if Contains(QuadRect(r, LeftUp), p) then b.(lu := b.lu + [p])
      else if Contains(QuadRect(r, RightDown), p) then b.(rd := b.rd + [p])
      else if Contains(QuadRect(r, RightUp), p) then b.(ru := b.ru + [p])
      else b
  }

  /** The four buckets of a well-formed rectangle partition the input points
      it contains: no contained point is lost or duplicated, and no other
      point is kept. */
  lemma SplitPartition(objs: seq<Point>, r: Rect)
    requires WellFormed(r)
    ensures multiset(Bucket(objs, r, LeftDown)) + multiset(Bucket(objs, r, LeftUp)) +
            multiset(Bucket(objs, r, RightDown)) + multiset(Bucket(objs, r, RightUp))
            == multiset(FilterByRect(objs, r))
  {
    var total := multiset(Bucket(objs, r, LeftDown)) + multiset(Bucket(objs, r, LeftUp)) +
                 multiset(Bucket(objs, r, RightDown)) + multiset(Bucket(objs, r, RightUp));
    BucketContents(objs, r, LeftDown);
    BucketContents(objs, r, LeftUp);
    BucketContents(objs, r, RightDown);
    BucketContents(objs, r, RightUp);
    forall p
      ensures total[p] == multiset(FilterByRect(objs, r))[p]
    {
      FirstQuadrantTotal(r, p);
    }
  }

  /** The one-pass split fills each slot with the bucket of its quadrant. */
  lemma {:induction false} SplitObjsBuckets(objs: seq<Point>, r: Rect)
    ensures SplitObjs(objs, r) ==
      Four(Bucket(objs, r, LeftDown), Bucket(objs, r, LeftUp), Bucket(objs, r, RightDown), Bucket(objs, r, RightUp))
    decreases |objs|
  {
    if |objs| > 0 {
      SplitObjsBuckets(objs[..|objs| - 1], r);
      FirstQuadrantChain(r, objs[|objs| - 1]);
    }
  }

  /** Every point the split puts in a slot lies in that slot's quadrant. */
  lemma SplitInQuadrants(objs: seq<Point>, r: Rect)
    ensures forall p :: p in SplitObjs(objs, r).ld ==> Contains(QuadRect(r, LeftDown), p)
    ensures forall p :: p in SplitObjs(objs, r).lu ==> Contains(QuadRect(r, LeftUp), p)
    ensures forall p :: p in SplitObjs(objs, r).rd ==> Contains(QuadRect(r, RightDown), p)
    ensures forall p :: p in SplitObjs(objs, r).ru ==> Contains(QuadRect(r, RightUp), p)
  {
    SplitObjsBuckets(objs, r);
    BucketContents(objs, r, LeftDown);
    BucketContents(objs, r, LeftUp);
    BucketContents(objs, r, RightDown);
    BucketContents(objs, r, RightUp);
  }

  lemma SplitObjsGet(objs: seq<Point>, r: Rect, q: Quadrant)
    ensures SplitObjs(objs, r).Get(q) == Bucket(objs, r, q)
  {
    SplitObjsBuckets(objs, r);
  }
}
