/** The worked example the program's entry point builds: nine points in
    the 16-by-16 square, at most two per leaf. */
module Example {
  import opened Outcomes
  import opened Geometry
  import opened Filtering
  import opened Quadrants
  import opened QuadTree
  import opened RangeQuery

  const Bounds := Rect(Point(0, 0), Point(16, 16))

  const Sample := [Point(2, 10), Point(6, 14), Point(4, 4), Point(9, 1), Point(11, 3),
                   Point(10, 6), Point(14, 6), Point(13, 3), Point(15, 1)]

  const MaxNum: nat := 2

  /** The right-down quadrant of the bounds, which receives six points. */
  const East := Rect(Point(8, 0), Point(16, 8))

  const EastPts := [Point(9, 1), Point(11, 3), Point(10, 6), Point(14, 6), Point(13, 3), Point(15, 1)]

  /** The subtree the build makes for `East`, worked out by hand. */
  const ExpectedEast :=
    Internal(East,
      Leaf(Rect(Point(8, 0), Point(12, 4)), [Point(9, 1), Point(11, 3)]),
      Leaf(Rect(Point(8, 4), Point(12, 8)), [Point(10, 6)]),
      Leaf(Rect(Point(12, 0), Point(16, 4)), [Point(13, 3), Point(15, 1)]),
      Leaf(Rect(Point(12, 4), Point(16, 8)), [Point(14, 6)]))

  /** The tree the build makes for the example, worked out by hand. */
  const Expected :=
    Internal(Bounds,
      Leaf(Rect(Point(0, 0), Point(8, 8)), [Point(4, 4)]),
      Leaf(Rect(Point(0, 8), Point(8, 16)), [Point(2, 10), Point(6, 14)]),
      ExpectedEast,
      Leaf(Rect(Point(8, 8), Point(16, 16)), []))

  /** `f` holds the four given buckets (stated field by field, which lets
      each step of the split below close by sequence extensionality). */
  predicate Holds(f: Four<seq<Point>>, ld: seq<Point>, lu: seq<Point>, rd: seq<Point>, ru: seq<Point>) {
    f.ld == ld && f.lu == lu && f.rd == rd && f.ru == ru
  }

  /** The source's split of the east quadrant. */
  lemma EastSplit()
    ensures SplitObjs(EastPts, East) ==
      Four([Point(9, 1), Point(11, 3)], [Point(10, 6)], [Point(13, 3), Point(15, 1)], [Point(14, 6)])
    ensures !Stuck(EastPts, East)
  {
    var e := EastPts;
    forall k | 0 < k <= |e| ensures e[..k][..k - 1] == e[..k - 1] {}
    assert Holds(SplitObjs(e[..0], East), [], [], [], []);
    assert Holds(SplitObjs(e[..1], East), [e[0]], [], [], []);
    assert Holds(SplitObjs(e[..2], East), [e[0], e[1]], [], [], []);
    assert Holds(SplitObjs(e[..3], East), [e[0], e[1]], [e[2]], [], []);
    assert Holds(SplitObjs(e[..4], East), [e[0], e[1]], [e[2]], [], [e[3]]);
    assert Holds(SplitObjs(e[..5], East), [e[0], e[1]], [e[2]], [e[4]], [e[3]]);
    assert Holds(SplitObjs(e[..6], East), [e[0], e[1]], [e[2]], [e[4], e[5]], [e[3]]);
    assert e[..6] == e;
    forall q ensures QuadRect(East, q) != East {
      QuadrantShrinks(East, q);
    }
  }

  /** The source's split of the bounds, over the first half of the points. */
  lemma RootSplitHead()
    ensures Holds(SplitObjs(Sample[..5], Bounds), [Sample[2]], [Sample[0], Sample[1]], [Sample[3], Sample[4]], [])
  {
    var s := Sample;
    forall k | 0 < k <= 5 ensures s[..k][..k - 1] == s[..k - 1] {}
    assert Holds(SplitObjs(s[..0], Bounds), [], [], [], []);
    assert Holds(SplitObjs(s[..1], Bounds), [], [s[0]], [], []);
    assert Holds(SplitObjs(s[..2], Bounds), [], [s[0], s[1]], [], []);
    assert Holds(SplitObjs(s[..3], Bounds), [s[2]], [s[0], s[1]], [], []);
    assert Holds(SplitObjs(s[..4], Bounds), [s[2]], [s[0], s[1]], [s[3]], []);
  }

  /** The source's split of the bounds. */
  lemma RootSplit()
    ensures SplitObjs(Sample, Bounds) ==
      Four([Point(4, 4)], [Point(2, 10), Point(6, 14)], EastPts, [])
  {
    var s := Sample;
    RootSplitHead();
    forall k | 5 < k <= |s| ensures s[..k][..k - 1] == s[..k - 1] {}
    assert Holds(SplitObjs(s[..6], Bounds), [s[2]], [s[0], s[1]], [s[3], s[4], s[5]], []);
    assert Holds(SplitObjs(s[..7], Bounds), [s[2]], [s[0], s[1]], [s[3], s[4], s[5], s[6]], []);
    assert Holds(SplitObjs(s[..8], Bounds), [s[2]], [s[0], s[1]], [s[3], s[4], s[5], s[6], s[7]], []);
    assert Holds(SplitObjs(s[..9], Bounds), [s[2]], [s[0], s[1]], [s[3], s[4], s[5], s[6], s[7], s[8]], []);
    assert s[..9] == s;
  }

  /** The east quadrant's six points split once more, into leaves. */
  lemma EastTree()
    ensures forall p :: p in EastPts ==> Contains(East, p)
    ensures CreateQuadTree(EastPts, East, MaxNum) == ExpectedEast
  {
    EastSplit();
    assert QuadRect(East, LeftDown) == Rect(Point(8, 0), Point(12, 4));
    assert QuadRect(East, LeftUp) == Rect(Point(8, 4), Point(12, 8));
    assert QuadRect(East, RightDown) == Rect(Point(12, 0), Point(16, 4));
    assert QuadRect(East, RightUp) == Rect(Point(12, 4), Point(16, 8));
  }

  /** The root splits into three leaves and the east subtree. */
  lemma RootTree()
    ensures forall p :: p in Sample ==> Contains(Bounds, p)
    ensures CreateQuadTree(Sample, Bounds, MaxNum) == Expected
  {
    RootSplit();
    EastTree();
    forall q ensures QuadRect(Bounds, q) != Bounds {
      QuadrantShrinks(Bounds, q);
    }
    assert QuadRect(Bounds, LeftDown) == Rect(Point(0, 0), Point(8, 8));
    assert QuadRect(Bounds, LeftUp) == Rect(Point(0, 8), Point(8, 16));
    assert QuadRect(Bounds, RightDown) == East;
    assert QuadRect(Bounds, RightUp) == Rect(Point(8, 8), Point(16, 16));
  }

  /** Building the example yields the tree above. */
  lemma WorkedExampleTree()
    ensures CreateQuadTreeWrapper(Sample, Bounds, MaxNum) == Expected
  {
    RootTree();
    FilterAllContained(Sample, Bounds);
  }

  /** The leaves of the example tree, in quadrant order. */
  lemma WorkedExampleLeaves()
    ensures LeafPoints(Expected) ==
      [Point(4, 4)] + [Point(2, 10), Point(6, 14)] +
      [Point(9, 1), Point(11, 3), Point(10, 6)] + [Point(13, 3), Point(15, 1)] + [Point(14, 6)]
  {
  }

  /** Swapping neighbouring blocks keeps the multiset. */
  lemma Regroup(a: seq<Point>, b: seq<Point>, c: seq<Point>, d: seq<Point>, e: seq<Point>)
    ensures multiset(a + b + c + d + e) == multiset(b + a + c + e + d)
  {
  }

  /** The example tree keeps at most two points per leaf. */
  lemma WorkedExampleBudget()
    ensures WithinBudget(Expected, MaxNum)
  {
  }

  /** The example tree keeps all nine points, none twice. */
  lemma WorkedExampleKeepsAll()
    ensures multiset(LeafPoints(Expected)) == multiset(Sample)
  {
    WorkedExampleLeaves();
    SampleReordered(LeafPoints(Expected));
  }

  /** Leaf order lists the sample in another order. */
  lemma SampleReordered(leaves: seq<Point>)
    requires leaves ==
      [Point(4, 4)] + [Point(2, 10), Point(6, 14)] +
      [Point(9, 1), Point(11, 3), Point(10, 6)] + [Point(13, 3), Point(15, 1)] + [Point(14, 6)]
    ensures multiset(leaves) == multiset(Sample)
  {
    SampleBlocks();
    Regroup([Point(4, 4)], [Point(2, 10), Point(6, 14)],
            [Point(9, 1), Point(11, 3), Point(10, 6)], [Point(13, 3), Point(15, 1)], [Point(14, 6)]);
  }

  /** The sample in blocks of neighbouring points. */
  lemma SampleBlocks()
    ensures Sample ==
      [Point(2, 10), Point(6, 14)] + [Point(4, 4)] +
      [Point(9, 1), Point(11, 3), Point(10, 6)] + [Point(14, 6)] + [Point(13, 3), Point(15, 1)]
  {
  }

  /** Containment is inclusive on all four sides. */
  lemma ContainmentBoundary()
    ensures var r := Rect(Point(0, 0), Point(10, 10));
      Contains(r, Point(0, 0)) && Contains(r, Point(10, 10)) &&
      Contains(r, Point(0, 10)) && Contains(r, Point(10, 0)) &&
      !Contains(r, Point(11, 0)) && !Contains(r, Point(-1, 5))
  {
  }

  /** Rectangles sharing only an edge, or only a corner, intersect; one
      step apart they do not. */
  lemma EdgeSharingIntersects()
    ensures Intersect(Rect(Point(0, 0), Point(5, 5)), Rect(Point(5, 0), Point(10, 5)))
    ensures Intersect(Rect(Point(0, 0), Point(5, 5)), Rect(Point(5, 5), Point(10, 10)))
    ensures !Intersect(Rect(Point(0, 0), Point(5, 5)), Rect(Point(6, 0), Point(10, 5)))
  {
  }

  const Window := Rect(Point(9, 0), Point(16, 8))

  /** The query over the window is a scan of the example tree's leaves. */
  lemma WorkedExampleQueryExact()
    ensures Query(Expected, Window) == FilterByRect(LeafPoints(Expected), Window)
  {
    WorkedExampleTree();
    QueryExact(Expected, Window);
  }

  /** The query over the window returns the six points of the east
      quadrant, in leaf order. */
  lemma WorkedExampleQueryList()
    ensures Query(Expected, Window) ==
      [Point(9, 1), Point(11, 3), Point(10, 6)] + [Point(13, 3), Point(15, 1)] + [Point(14, 6)]
  {
    WorkedExampleQueryExact();
    WorkedExampleLeaves();
    WindowScanOfLeaves(LeafPoints(Expected));
  }

  /** A scan of the leaves over the window keeps the east points. */
  lemma WindowScanOfLeaves(leaves: seq<Point>)
    requires leaves ==
      [Point(4, 4)] + [Point(2, 10), Point(6, 14)] +
      [Point(9, 1), Point(11, 3), Point(10, 6)] + [Point(13, 3), Point(15, 1)] + [Point(14, 6)]
    ensures FilterByRect(leaves, Window) ==
      [Point(9, 1), Point(11, 3), Point(10, 6)] + [Point(13, 3), Point(15, 1)] + [Point(14, 6)]
  {
    var outside := [Point(4, 4)] + [Point(2, 10), Point(6, 14)];
    var found := [Point(9, 1), Point(11, 3), Point(10, 6)] + [Point(13, 3), Point(15, 1)] + [Point(14, 6)];
    assert leaves == outside + found;
    FilterSplit(outside, found, Window);
  }

  /** The query over the window agrees with a linear scan of the input. */
  lemma WorkedExampleQuery()
    ensures multiset(Query(Expected, Window)) == multiset(FilterByRect(Sample, Window))
  {
    WorkedExampleQueryList();
    WorkedExampleScan();
    EastReordered(Query(Expected, Window));
  }

  /** Leaf order lists the east points in another order. */
  lemma EastReordered(found: seq<Point>)
    requires found == [Point(9, 1), Point(11, 3), Point(10, 6)] + [Point(13, 3), Point(15, 1)] + [Point(14, 6)]
    ensures multiset(found) == multiset(EastPts)
  {
    var west, southEast, northEast := [Point(9, 1), Point(11, 3), Point(10, 6)], [Point(13, 3), Point(15, 1)], [Point(14, 6)];
    assert EastPts == west + northEast + southEast;
    Regroup([], west, southEast, northEast, []);
  }

  /** A linear scan of the input over the window. */
  lemma WorkedExampleScan()
    ensures FilterByRect(Sample, Window) == EastPts
  {
    var outside := [Point(2, 10), Point(6, 14), Point(4, 4)];
    assert Sample == outside + EastPts;
    FilterSplit(outside, EastPts, Window);
  }

  /** The query over the bounds returns all nine points. */
  lemma WorkedExampleQueryAll()
    ensures multiset(Query(Expected, Bounds)) == multiset(Sample)
  {
    RootTree();
    FilterAllContained(Sample, Bounds);
    QueryBuiltTree(Sample, Bounds, MaxNum, Bounds);
  }

  const Corner := Rect(Point(0, 0), Point(3, 3))

  /** At leaf granularity a window that only grazes a leaf reports that
      leaf's points although none lies in the window. */
  lemma LeafGranularityOverReports()
    ensures FindObjByRect(Expected, Corner) == [Point(4, 4)]
  {
    var t := Expected;
    assert Intersect(Corner, t.rect);
    assert !Intersect(Corner, t.lu.rect) && !Intersect(Corner, t.rd.rect) && !Intersect(Corner, t.ru.rect);
    FindOnlyFirst(t, Corner);
    assert FindObjByRect(t.ld, Corner) == [Point(4, 4)];
  }

  /** A window that meets a node but only its first child is answered by
      that child alone. */
  lemma FindOnlyFirst(n: Node, q: Rect)
    requires n.Internal? && Intersect(q, n.rect)
    requires !Intersect(q, n.lu.rect) && !Intersect(q, n.rd.rect) && !Intersect(q, n.ru.rect)
    ensures FindObjByRect(n, q) == FindObjByRect(n.ld, q)
  {
    assert FindObjByRect(n, q) == FindObjByRect(n.ld, q) + [] + [] + [];
  }

  /** The per-point query over the same window reports nothing. */
  lemma PerPointQueryExact()
    ensures Query(Expected, Corner) == []
  {
    assert Query(Expected.ld, Corner) == [];
  }

  /** The source's query on the example tree never returns. */
  lemma WorkedExampleAsWrittenQuery(fuel: nat)
    ensures FindObjByRectAsWritten(Expected, Window, fuel) == OutOfFuel
  {
    WorkedExampleTree();
    AsWrittenQueryDiverges(Expected, Window, fuel);
  }
}
