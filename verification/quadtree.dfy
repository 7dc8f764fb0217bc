/** The quadtree itself: nodes, the bulk build (`createQuadTreeWrapper`,
    `createQuadTree`), and the build as the source runs it, whose recursion
    need not end. */
module QuadTree {
  import opened Outcomes
  import opened Geometry
  import opened Filtering
  import opened Quadrants

  /** A node owns its rectangle and either its points or exactly four
      children, one per quadrant. */
  datatype Node =
    | Leaf(rect: Rect, pts: seq<Point>)
    | Internal(rect: Rect, ld: Node, lu: Node, rd: Node, ru: Node)
  {
    function Child(q: Quadrant): Node
      requires Internal?
    {
      match q
      case LeftDown => ld
      case LeftUp => lu
      case RightDown => rd
      case RightUp => ru
    }
  }

  /** All stored points, leaves visited depth first in quadrant order. */
  function LeafPoints(n: Node): seq<Point> {
    match n
    case Leaf(_, pts) => pts
    case Internal(_, ld, lu, rd, ru) => LeafPoints(ld) + LeafPoints(lu) + LeafPoints(rd) + LeafPoints(ru)
  }

  function Depth(n: Node): nat {
    match n
    case Leaf(_, _) => 0
    case Internal(_, ld, lu, rd, ru) => 1 + Max(Max(Depth(ld), Depth(lu)), Max(Depth(rd), Depth(ru)))
  }

  /** Every point stored below a node lies in that node's rectangle. */
  predicate Nested(n: Node) {
    (forall p :: p in LeafPoints(n) ==> Contains(n.rect, p)) &&
    (n.Internal? ==> Nested(n.ld) && Nested(n.lu) && Nested(n.rd) && Nested(n.ru))
  }

  /** The children of every internal node cover the quadrants of its
      rectangle, in quadrant order. */
  predicate Shaped(n: Node) {
    n.Internal? ==>
      n.ld.rect == QuadRect(n.rect, LeftDown) && n.lu.rect == QuadRect(n.rect, LeftUp) &&
      n.rd.rect == QuadRect(n.rect, RightDown) && n.ru.rect == QuadRect(n.rect, RightUp) &&
      Shaped(n.ld) && Shaped(n.lu) && Shaped(n.rd) && Shaped(n.ru)
  }

  /** Every leaf holds at most `maxNum` points, unless its rectangle is at
      most one unit wide and high. */
  predicate LeavesBounded(n: Node, maxNum: nat) {
    match n
    case Leaf(rect, pts) => |pts| <= maxNum || Unit(rect)
    case Internal(_, ld, lu, rd, ru) =>
      LeavesBounded(ld, maxNum) && LeavesBounded(lu, maxNum) && LeavesBounded(rd, maxNum) && LeavesBounded(ru, maxNum)
  }

  /** Every leaf holds at most `maxNum` points. */
  predicate WithinBudget(n: Node, maxNum: nat) {
    match n
    case Leaf(_, pts) => |pts| <= maxNum
    case Internal(_, ld, lu, rd, ru) =>
      WithinBudget(ld, maxNum) && WithinBudget(lu, maxNum) && WithinBudget(rd, maxNum) && WithinBudget(ru, maxNum)
  }

  /** Splitting would hand every point to a quadrant equal to the rectangle
      itself, so the recursive call would repeat the current one exactly. */
  predicate Repeats(objs: seq<Point>, rt: Rect, q: Quadrant) {
    QuadRect(rt, q) == rt && forall p :: p in objs ==> FirstQuadrant(rt, p) == Some(q)
  }

  predicate Stuck(objs: seq<Point>, rt: Rect) {
    Repeats(objs, rt, LeftDown) || Repeats(objs, rt, LeftUp) ||
    Repeats(objs, rt, RightDown) || Repeats(objs, rt, RightUp)
  }

  /** Only a rectangle at most one unit wide and high can be stuck. */
  lemma StuckIsUnit(objs: seq<Point>, rt: Rect)
    requires WellFormed(rt) && Stuck(objs, rt)
    ensures Unit(rt)
  {
    if Repeats(objs, rt, LeftDown) {
      QuadrantEqualsParent(rt, LeftDown);
    } else if Repeats(objs, rt, LeftUp) {
      QuadrantEqualsParent(rt, LeftUp);
    } else if Repeats(objs, rt, RightDown) {
      QuadrantEqualsParent(rt, RightDown);
    } else {
      QuadrantEqualsParent(rt, RightUp);
    }
  }

  /** Splitting a rectangle that is not stuck makes progress: each quadrant
      is smaller, or equal to it and given fewer points. */
  lemma SplitProgress(objs: seq<Point>, rt: Rect, q: Quadrant)
    requires WellFormed(rt) && !Stuck(objs, rt)
    ensures Extent(QuadRect(rt, q)) < Extent(rt) ||
            (Extent(QuadRect(rt, q)) == Extent(rt) && |SplitObjs(objs, rt).Get(q)| < |objs|)
  {
    SplitObjsGet(objs, rt, q);
    if QuadRect(rt, q) != rt {
      InsideShrinks(QuadRect(rt, q), rt);
    } else {
      assert !Repeats(objs, rt, q);
      var p :| p in objs && FirstQuadrant(rt, p) != Some(q);
      BucketShorter(objs, rt, q, p);
    }
  }

  /** The bulk build of one node. A node given at most `maxNum` points is a
      leaf holding exactly them; otherwise the points are split among the
      four quadrants and each quadrant is built recursively. A node whose
      split would only repeat itself is also a leaf: that is where the
      source recurses without end. */
  function CreateQuadTree(objs: seq<Point>, rt: Rect, maxNum: nat): (n: Node)
    requires forall p :: p in objs ==> Contains(rt, p)
    ensures n.rect == rt
    ensures n.Leaf? <==> |objs| <= maxNum || Stuck(objs, rt)
    ensures n.Leaf? ==> n.pts == objs
    decreases Extent(rt), |objs|
  {
    if |objs| <= maxNum || Stuck(objs, rt) then Leaf(rt, objs)
    else
      assert objs[0] in objs;
      ContainsWellFormed(rt, objs[0]);
      var b := SplitObjs(objs, rt);
      SplitInQuadrants(objs, rt);
      SplitProgress(objs, rt, LeftDown);
      SplitProgress(objs, rt, LeftUp);
      SplitProgress(objs, rt, RightDown);
      SplitProgress(objs, rt, RightUp);
      Internal(rt,
        CreateQuadTree(b.ld, QuadRect(rt, LeftDown), maxNum),
        CreateQuadTree(b.lu, QuadRect(rt, LeftUp), maxNum),
        CreateQuadTree(b.rd, QuadRect(rt, RightDown), maxNum),
        CreateQuadTree(b.ru, QuadRect(rt, RightUp), maxNum))
  }

  /** Outside a rectangle at most one unit wide and high, a node is a leaf
      exactly when it is given at most `maxNum` points. */
  lemma LeafIffWithinBudget(objs: seq<Point>, rt: Rect, maxNum: nat)
    requires forall p :: p in objs ==> Contains(rt, p)
    requires !Unit(rt)
    ensures CreateQuadTree(objs, rt, maxNum).Leaf? <==> |objs| <= maxNum
  {
    if |objs| > maxNum {
      assert objs[0] in objs;
      ContainsWellFormed(rt, objs[0]);
      if Stuck(objs, rt) {
        StuckIsUnit(objs, rt);
      }
    }
  }

  /** The built tree stores exactly the points it was given, keeps every
      point inside the rectangle of each node above it, gives every internal
      node the four quadrants as children, and keeps every leaf within
      `maxNum` points unless its rectangle is at most one unit wide and
      high. */
  lemma {:induction false} BuildInvariants(objs: seq<Point>, rt: Rect, maxNum: nat)
    requires forall p :: p in objs ==> Contains(rt, p)
    ensures multiset(LeafPoints(CreateQuadTree(objs, rt, maxNum))) == multiset(objs)
    ensures Nested(CreateQuadTree(objs, rt, maxNum))
    ensures Shaped(CreateQuadTree(objs, rt, maxNum))
    ensures LeavesBounded(CreateQuadTree(objs, rt, maxNum), maxNum)
    decreases Extent(rt), |objs|
  {
    var n := CreateQuadTree(objs, rt, maxNum);
    if n.Leaf? {
      if Stuck(objs, rt) && |objs| > maxNum {
        assert objs[0] in objs;
        ContainsWellFormed(rt, objs[0]);
        StuckIsUnit(objs, rt);
      }
    } else {
      assert objs[0] in objs;
      ContainsWellFormed(rt, objs[0]);
      var b := SplitObjs(objs, rt);
      SplitInQuadrants(objs, rt);
      SplitProgress(objs, rt, LeftDown);
      SplitProgress(objs, rt, LeftUp);
      SplitProgress(objs, rt, RightDown);
      SplitProgress(objs, rt, RightUp);
      BuildInvariants(b.ld, QuadRect(rt, LeftDown), maxNum);
      BuildInvariants(b.lu, QuadRect(rt, LeftUp), maxNum);
      BuildInvariants(b.rd, QuadRect(rt, RightDown), maxNum);
      BuildInvariants(b.ru, QuadRect(rt, RightUp), maxNum);
      SplitObjsBuckets(objs, rt);
      SplitPartition(objs, rt);
      FilterAllContained(objs, rt);
      assert multiset(LeafPoints(n)) == multiset(objs);
      assert forall p :: p in LeafPoints(n) ==> p in multiset(objs);
    }
  }

  /** The entry point: drop the points outside the bounds, then build. The
      leaves together hold exactly the kept points, with the invariants of
      `BuildInvariants`. */
  function CreateQuadTreeWrapper(objs: seq<Point>, rt: Rect, maxNum: nat): (n: Node)
    ensures n.rect == rt
    ensures multiset(LeafPoints(n)) == multiset(FilterByRect(objs, rt))
    ensures forall p :: p in LeafPoints(n) <==> p in objs && Contains(rt, p)
    ensures Nested(n) && Shaped(n) && LeavesBounded(n, maxNum)
  {
    BuildInvariants(FilterByRect(objs, rt), rt, maxNum);
    var n := CreateQuadTree(FilterByRect(objs, rt), rt, maxNum);
    assert forall p :: p in LeafPoints(n) <==> p in multiset(FilterByRect(objs, rt));
    n
  }

  /** Bounds that contain none of the points, malformed bounds among them,
      give a single empty leaf. */
  lemma TrivialBuild(objs: seq<Point>, rt: Rect, maxNum: nat)
    ensures (forall p :: p in objs ==> !Contains(rt, p)) ==> CreateQuadTreeWrapper(objs, rt, maxNum) == Leaf(rt, [])
    ensures !WellFormed(rt) ==> CreateQuadTreeWrapper(objs, rt, maxNum) == Leaf(rt, [])
  {
    if !WellFormed(rt) {
      forall p | p in objs ensures !Contains(rt, p) {
        if Contains(rt, p) {
          ContainsWellFormed(rt, p);
        }
      }
    }
    if forall p :: p in objs ==> !Contains(rt, p) {
      FilterNoneContained(objs, rt);
    }
  }

  /** The build as the source runs it, with no guard against repeating
      itself; `fuel` bounds the recursion depth. */
  function CreateQuadTreeAsWritten(objs: seq<Point>, rt: Rect, maxNum: nat, fuel: nat): (res: Run<Node>)
    ensures !res.Undefined?
    ensures res.Returns? ==> res.value.rect == rt && WithinBudget(res.value, maxNum)
    decreases fuel
  {
    if |objs| <= maxNum then Returns(Leaf(rt, objs))
    else if fuel == 0 then OutOfFuel
    else
      var b := SplitObjs(objs, rt);
      var ld := CreateQuadTreeAsWritten(b.ld, QuadRect(rt, LeftDown), maxNum, fuel - 1);
      var lu := CreateQuadTreeAsWritten(b.lu, QuadRect(rt, LeftUp), maxNum, fuel - 1);
      var rd := CreateQuadTreeAsWritten(b.rd, QuadRect(rt, RightDown), maxNum, fuel - 1);
      var ru := CreateQuadTreeAsWritten(b.ru, QuadRect(rt, RightUp), maxNum, fuel - 1);
      if ld.Returns? && lu.Returns? && rd.Returns? && ru.Returns? then
        Returns(Internal(rt, ld.value, lu.value, rd.value, ru.value))
      else OutOfFuel
  }

  /** A quadrant that is every point's first is handed all of them. */
  lemma RepeatedBucket(objs: seq<Point>, rt: Rect, q: Quadrant)
    requires Repeats(objs, rt, q)
    ensures SplitObjs(objs, rt).Get(q) == objs
  {
    SplitObjsGet(objs, rt, q);
    BucketAll(objs, rt, q);
  }

  /** One diverging child makes the whole build diverge. */
  lemma ChildDiverges(objs: seq<Point>, rt: Rect, maxNum: nat, fuel: nat, q: Quadrant)
    requires |objs| > maxNum && fuel > 0
    requires SplitObjs(objs, rt).Get(q) == objs && QuadRect(rt, q) == rt
    requires CreateQuadTreeAsWritten(objs, rt, maxNum, fuel - 1) == OutOfFuel
    ensures CreateQuadTreeAsWritten(objs, rt, maxNum, fuel) == OutOfFuel
  {
    var b := SplitObjs(objs, rt);
    match q
    case LeftDown => assert b.ld == objs;
    case LeftUp => assert b.lu == objs;
    case RightDown => assert b.rd == objs;
    case RightUp => assert b.ru == objs;
  }

  /** Where the split hands every point to a quadrant equal to the
      rectangle, the source never returns, however deep the recursion is
      allowed to go. */
  lemma {:induction false} RepeatsDiverges(objs: seq<Point>, rt: Rect, maxNum: nat, fuel: nat, q: Quadrant)
    requires |objs| > maxNum && Repeats(objs, rt, q)
    ensures CreateQuadTreeAsWritten(objs, rt, maxNum, fuel) == OutOfFuel
    decreases fuel
  {
    if fuel > 0 {
      RepeatsDiverges(objs, rt, maxNum, fuel - 1, q);
      RepeatedBucket(objs, rt, q);
      ChildDiverges(objs, rt, maxNum, fuel, q);
    }
  }

  lemma StuckDiverges(objs: seq<Point>, rt: Rect, maxNum: nat, fuel: nat)
    requires |objs| > maxNum && Stuck(objs, rt)
    ensures CreateQuadTreeAsWritten(objs, rt, maxNum, fuel) == OutOfFuel
  {
    if Repeats(objs, rt, LeftDown) {
      RepeatsDiverges(objs, rt, maxNum, fuel, LeftDown);
    } else if Repeats(objs, rt, LeftUp) {
      RepeatsDiverges(objs, rt, maxNum, fuel, LeftUp);
    } else if Repeats(objs, rt, RightDown) {
      RepeatsDiverges(objs, rt, maxNum, fuel, RightDown);
    } else {
      RepeatsDiverges(objs, rt, maxNum, fuel, RightUp);
    }
  }

  /** Whenever the source's build returns, it returns the modelled tree. */
  lemma {:induction false} AsWrittenAgrees(objs: seq<Point>, rt: Rect, maxNum: nat, fuel: nat)
    requires forall p :: p in objs ==> Contains(rt, p)
    requires CreateQuadTreeAsWritten(objs, rt, maxNum, fuel).Returns?
    ensures CreateQuadTreeAsWritten(objs, rt, maxNum, fuel) == Returns(CreateQuadTree(objs, rt, maxNum))
    decreases fuel, 0
  {
    if |objs| > maxNum {
      if Stuck(objs, rt) {
        StuckDiverges(objs, rt, maxNum, fuel);
      } else {
        var b := SplitObjs(objs, rt);
        SplitInQuadrants(objs, rt);
        AsWrittenChildrenReturn(objs, rt, maxNum, fuel);
        QuadrantsAgree(b.ld, b.lu, b.rd, b.ru, rt, maxNum, fuel - 1);
        BuildSplits(objs, rt, maxNum);
        AsWrittenInternal(objs, rt, maxNum, fuel, CreateQuadTree(objs, rt, maxNum));
      }
    }
  }

  /** `AsWrittenAgrees` for the four buckets of one split at once. */
  lemma {:induction false} QuadrantsAgree(ld: seq<Point>, lu: seq<Point>, rd: seq<Point>, ru: seq<Point>,
                                          rt: Rect, maxNum: nat, fuel: nat)
    requires forall p :: p in ld ==> Contains(QuadRect(rt, LeftDown), p)
    requires forall p :: p in lu ==> Contains(QuadRect(rt, LeftUp), p)
    requires forall p :: p in rd ==> Contains(QuadRect(rt, RightDown), p)
    requires forall p :: p in ru ==> Contains(QuadRect(rt, RightUp), p)
    requires CreateQuadTreeAsWritten(ld, QuadRect(rt, LeftDown), maxNum, fuel).Returns?
    requires CreateQuadTreeAsWritten(lu, QuadRect(rt, LeftUp), maxNum, fuel).Returns?
    requires CreateQuadTreeAsWritten(rd, QuadRect(rt, RightDown), maxNum, fuel).Returns?
    requires CreateQuadTreeAsWritten(ru, QuadRect(rt, RightUp), maxNum, fuel).Returns?
    ensures CreateQuadTreeAsWritten(ld, QuadRect(rt, LeftDown), maxNum, fuel) == Returns(CreateQuadTree(ld, QuadRect(rt, LeftDown), maxNum))
    ensures CreateQuadTreeAsWritten(lu, QuadRect(rt, LeftUp), maxNum, fuel) == Returns(CreateQuadTree(lu, QuadRect(rt, LeftUp), maxNum))
    ensures CreateQuadTreeAsWritten(rd, QuadRect(rt, RightDown), maxNum, fuel) == Returns(CreateQuadTree(rd, QuadRect(rt, RightDown), maxNum))
    ensures CreateQuadTreeAsWritten(ru, QuadRect(rt, RightUp), maxNum, fuel) == Returns(CreateQuadTree(ru, QuadRect(rt, RightUp), maxNum))
    decreases fuel, 1
  {
    AsWrittenAgrees(ld, QuadRect(rt, LeftDown), maxNum, fuel);
    AsWrittenAgrees(lu, QuadRect(rt, LeftUp), maxNum, fuel);
    AsWrittenAgrees(rd, QuadRect(rt, RightDown), maxNum, fuel);
    AsWrittenAgrees(ru, QuadRect(rt, RightUp), maxNum, fuel);
  }

  /** A returning source build of more than `maxNum` points had fuel left
      and returned from all four quadrants. */
  lemma AsWrittenChildrenReturn(objs: seq<Point>, rt: Rect, maxNum: nat, fuel: nat)
    requires |objs| > maxNum
    requires CreateQuadTreeAsWritten(objs, rt, maxNum, fuel).Returns?
    ensures fuel > 0
    ensures CreateQuadTreeAsWritten(SplitObjs(objs, rt).ld, QuadRect(rt, LeftDown), maxNum, fuel - 1).Returns?
    ensures CreateQuadTreeAsWritten(SplitObjs(objs, rt).lu, QuadRect(rt, LeftUp), maxNum, fuel - 1).Returns?
    ensures CreateQuadTreeAsWritten(SplitObjs(objs, rt).rd, QuadRect(rt, RightDown), maxNum, fuel - 1).Returns?
    ensures CreateQuadTreeAsWritten(SplitObjs(objs, rt).ru, QuadRect(rt, RightUp), maxNum, fuel - 1).Returns?
  {
  }

  /** A node the model splits holds the builds of its four buckets. */
  lemma BuildSplits(objs: seq<Point>, rt: Rect, maxNum: nat)
    requires forall p :: p in objs ==> Contains(rt, p)
    requires |objs| > maxNum && !Stuck(objs, rt)
    requires forall p :: p in SplitObjs(objs, rt).ld ==> Contains(QuadRect(rt, LeftDown), p)
    requires forall p :: p in SplitObjs(objs, rt).lu ==> Contains(QuadRect(rt, LeftUp), p)
    requires forall p :: p in SplitObjs(objs, rt).rd ==> Contains(QuadRect(rt, RightDown), p)
    requires forall p :: p in SplitObjs(objs, rt).ru ==> Contains(QuadRect(rt, RightUp), p)
    ensures CreateQuadTree(objs, rt, maxNum) ==
      Internal(rt, CreateQuadTree(SplitObjs(objs, rt).ld, QuadRect(rt, LeftDown), maxNum),
                   CreateQuadTree(SplitObjs(objs, rt).lu, QuadRect(rt, LeftUp), maxNum),
                   CreateQuadTree(SplitObjs(objs, rt).rd, QuadRect(rt, RightDown), maxNum),
                   CreateQuadTree(SplitObjs(objs, rt).ru, QuadRect(rt, RightUp), maxNum))
  {
  }

  /** The source's build of a node given more than `maxNum` points whose
      four quadrant builds return the children of `n`. */
  lemma AsWrittenInternal(objs: seq<Point>, rt: Rect, maxNum: nat, fuel: nat, n: Node)
    requires |objs| > maxNum && fuel > 0 && n.Internal? && n.rect == rt
    requires CreateQuadTreeAsWritten(objs, rt, maxNum, fuel).Returns?
    requires CreateQuadTreeAsWritten(SplitObjs(objs, rt).ld, QuadRect(rt, LeftDown), maxNum, fuel - 1) == Returns(n.ld)
    requires CreateQuadTreeAsWritten(SplitObjs(objs, rt).lu, QuadRect(rt, LeftUp), maxNum, fuel - 1) == Returns(n.lu)
    requires CreateQuadTreeAsWritten(SplitObjs(objs, rt).rd, QuadRect(rt, RightDown), maxNum, fuel - 1) == Returns(n.rd)
    requires CreateQuadTreeAsWritten(SplitObjs(objs, rt).ru, QuadRect(rt, RightUp), maxNum, fuel - 1) == Returns(n.ru)
    ensures CreateQuadTreeAsWritten(objs, rt, maxNum, fuel) == Returns(n)
  {
  }

  /** The source's build of a node whose four children all return. */
  lemma AsWrittenSplits(objs: seq<Point>, rt: Rect, maxNum: nat, fuel: nat, n: Node)
    requires |objs| > maxNum && fuel > 0
    requires n.Internal? && n.rect == rt
    requires forall q :: CreateQuadTreeAsWritten(SplitObjs(objs, rt).Get(q), QuadRect(rt, q), maxNum, fuel - 1) == Returns(n.Child(q))
    ensures CreateQuadTreeAsWritten(objs, rt, maxNum, fuel) == Returns(n)
  {
    var b := SplitObjs(objs, rt);
    assert CreateQuadTreeAsWritten(b.ld, QuadRect(rt, LeftDown), maxNum, fuel - 1) == Returns(n.ld) by {
      assert b.Get(LeftDown) == b.ld && n.Child(LeftDown) == n.ld;
    }
    assert CreateQuadTreeAsWritten(b.lu, QuadRect(rt, LeftUp), maxNum, fuel - 1) == Returns(n.lu) by {
      assert b.Get(LeftUp) == b.lu && n.Child(LeftUp) == n.lu;
    }
    assert CreateQuadTreeAsWritten(b.rd, QuadRect(rt, RightDown), maxNum, fuel - 1) == Returns(n.rd) by {
      assert b.Get(RightDown) == b.rd && n.Child(RightDown) == n.rd;
    }
    assert CreateQuadTreeAsWritten(b.ru, QuadRect(rt, RightUp), maxNum, fuel - 1) == Returns(n.ru) by {
      assert b.Get(RightUp) == b.ru && n.Child(RightUp) == n.ru;
    }
  }

  /** Conversely, when no leaf of the modelled tree is over budget, the
      source's build returns it once allowed the tree's depth. */
  lemma {:induction false} AsWrittenTerminates(objs: seq<Point>, rt: Rect, maxNum: nat, fuel: nat)
    requires forall p :: p in objs ==> Contains(rt, p)
    requires WithinBudget(CreateQuadTree(objs, rt, maxNum), maxNum)
    requires fuel >= Depth(CreateQuadTree(objs, rt, maxNum))
    ensures CreateQuadTreeAsWritten(objs, rt, maxNum, fuel) == Returns(CreateQuadTree(objs, rt, maxNum))
    decreases Extent(rt), |objs|
  {
    if |objs| > maxNum {
      var n := CreateQuadTree(objs, rt, maxNum);
      assert n.Internal?;
      forall q
        ensures CreateQuadTreeAsWritten(SplitObjs(objs, rt).Get(q), QuadRect(rt, q), maxNum, fuel - 1) == Returns(n.Child(q))
      {
        BuiltChild(objs, rt, maxNum, q);
        ChildWithinBudget(n, maxNum, q);
        AsWrittenTerminates(SplitObjs(objs, rt).Get(q), QuadRect(rt, q), maxNum, fuel - 1);
      }
      AsWrittenSplits(objs, rt, maxNum, fuel, n);
    }
  }

  /** A node built from more than `maxNum` points and not stuck has, in
      each quadrant, the tree built from that quadrant's points. */
  lemma BuiltChild(objs: seq<Point>, rt: Rect, maxNum: nat, q: Quadrant)
    requires forall p :: p in objs ==> Contains(rt, p)
    requires CreateQuadTree(objs, rt, maxNum).Internal?
    ensures forall p :: p in SplitObjs(objs, rt).Get(q) ==> Contains(QuadRect(rt, q), p)
    ensures CreateQuadTree(objs, rt, maxNum).Child(q) == CreateQuadTree(SplitObjs(objs, rt).Get(q), QuadRect(rt, q), maxNum)
    ensures Extent(QuadRect(rt, q)) < Extent(rt) ||
            (Extent(QuadRect(rt, q)) == Extent(rt) && |SplitObjs(objs, rt).Get(q)| < |objs|)
  {
    assert objs[0] in objs;
    ContainsWellFormed(rt, objs[0]);
    SplitInQuadrants(objs, rt);
    SplitProgress(objs, rt, q);
  }

  lemma ChildWithinBudget(n: Node, maxNum: nat, q: Quadrant)
    requires n.Internal? && WithinBudget(n, maxNum)
    ensures WithinBudget(n.Child(q), maxNum) && Depth(n.Child(q)) < Depth(n)
  {
  }

  /** The source's build terminates exactly when the modelled tree has no
      leaf over budget. */
  lemma AsWrittenTerminatesIff(objs: seq<Point>, rt: Rect, maxNum: nat)
    requires forall p :: p in objs ==> Contains(rt, p)
    ensures (exists fuel: nat :: CreateQuadTreeAsWritten(objs, rt, maxNum, fuel).Returns?)
            <==> WithinBudget(CreateQuadTree(objs, rt, maxNum), maxNum)
  {
    var n := CreateQuadTree(objs, rt, maxNum);
    if WithinBudget(n, maxNum) {
      AsWrittenTerminates(objs, rt, maxNum, Depth(n));
    }
    forall fuel: nat | CreateQuadTreeAsWritten(objs, rt, maxNum, fuel).Returns?
      ensures WithinBudget(n, maxNum)
    {
      AsWrittenAgrees(objs, rt, maxNum, fuel);
    }
  }

  /** The entry point as written, downstream of the erase loop: an outside
      point the loop skips reaches the build and is stored in a leaf whose
      rectangle does not contain it. */
  lemma AsWrittenStoresOutsidePoint()
    ensures FilterAsWritten([Point(20, 20), Point(30, 30)], Rect(Point(0, 0), Point(10, 10))) == Returns([Point(30, 30)])
    ensures CreateQuadTreeAsWritten([Point(30, 30)], Rect(Point(0, 0), Point(10, 10)), 2, 0)
         == Returns(Leaf(Rect(Point(0, 0), Point(10, 10)), [Point(30, 30)]))
    ensures !Contains(Rect(Point(0, 0), Point(10, 10)), Point(30, 30))
  {
    var objs := [Point(20, 20), Point(30, 30)];
    assert objs[..0] + objs[1..] == [Point(30, 30)];
  }

  /** Three coincident points at the corner of the unit square: with a leaf
      size of two, splitting would only repeat itself. */
  lemma CoincidentPointsStuck()
    ensures Repeats([Point(1, 1), Point(1, 1), Point(1, 1)], Rect(Point(0, 0), Point(1, 1)), RightUp)
  {
    var rt := Rect(Point(0, 0), Point(1, 1));
    assert QuadRect(rt, RightUp) == rt;
    FirstQuadrantChain(rt, Point(1, 1));
  }

  /** On those points the source recurses forever, while the model makes a
      leaf holding all three. */
  lemma CoincidentPointsDiverge(fuel: nat)
    ensures CreateQuadTreeAsWritten([Point(1, 1), Point(1, 1), Point(1, 1)], Rect(Point(0, 0), Point(1, 1)), 2, fuel) == OutOfFuel
    ensures CreateQuadTree([Point(1, 1), Point(1, 1), Point(1, 1)], Rect(Point(0, 0), Point(1, 1)), 2)
         == Leaf(Rect(Point(0, 0), Point(1, 1)), [Point(1, 1), Point(1, 1), Point(1, 1)])
  {
    CoincidentPointsStuck();
    RepeatsDiverges([Point(1, 1), Point(1, 1), Point(1, 1)], Rect(Point(0, 0), Point(1, 1)), 2, fuel, RightUp);
  }
}
