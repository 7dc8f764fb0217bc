/** Range queries over a built tree (`findObjByRect`): the traversal with an
    explicit node, at the source's leaf granularity and with a per-point
    test, and the traversal as the source writes it. */
module RangeQuery {
  import opened Outcomes
  import opened Geometry
  import opened Filtering
  import opened QuadTree

  /** The source's traversal, descending through the node passed in: a
      subtree whose rectangle misses the query contributes nothing, and an
      overlapping leaf contributes all of its points. */
  function FindObjByRect(n: Node, q: Rect): (found: seq<Point>)
    ensures multiset(found) <= multiset(LeafPoints(n))
    ensures !Intersect(q, n.rect) ==> found == []
    ensures n.Leaf? && Intersect(q, n.rect) ==> found == n.pts
  {
    if !Intersect(q, n.rect) then []
    else
      match n
      case Leaf(_, pts) => pts
      case Internal(_, ld, lu, rd, ru) =>
        FindObjByRect(ld, q) + FindObjByRect(lu, q) + FindObjByRect(rd, q) + FindObjByRect(ru, q)
  }

  /** The same traversal with each leaf point tested against the query. */
  function Query(n: Node, q: Rect): (found: seq<Point>)
    ensures forall p :: p in found ==> Contains(q, p)
    ensures multiset(found) <= multiset(LeafPoints(n))
    ensures !Intersect(q, n.rect) ==> found == []
  {
    if !Intersect(q, n.rect) then []
    else
      match n
      case Leaf(_, pts) => FilterByRect(pts, q)
      case Internal(_, ld, lu, rd, ru) =>
        Query(ld, q) + Query(lu, q) + Query(rd, q) + Query(ru, q)
  }

  /** The per-point query is the leaf-granular one with the points outside
      the query removed. */
  lemma {:induction false} QueryFiltersFind(n: Node, q: Rect)
    ensures Query(n, q) == FilterByRect(FindObjByRect(n, q), q)
  {
    if Intersect(q, n.rect) && n.Internal? {
      QueryFiltersFind(n.ld, q);
      QueryFiltersFind(n.lu, q);
      QueryFiltersFind(n.rd, q);
      QueryFiltersFind(n.ru, q);
      var a, b, c, d := FindObjByRect(n.ld, q), FindObjByRect(n.lu, q), FindObjByRect(n.rd, q), FindObjByRect(n.ru, q);
      FilterAppend(a, b, q);
      FilterAppend(a + b, c, q);
      FilterAppend(a + b + c, d, q);
    }
  }

  /** On a tree whose nodes enclose their points, the per-point query
      returns exactly the stored points inside the query, in storage order:
      pruning never loses a point. */
  lemma {:induction false} QueryExact(n: Node, q: Rect)
    requires Nested(n)
    ensures Query(n, q) == FilterByRect(LeafPoints(n), q)
  {
    if !Intersect(q, n.rect) {
      forall p | p in LeafPoints(n)
        ensures !Contains(q, p)
      {
        if Contains(q, p) {
          CommonPointIntersect(q, n.rect, p);
        }
      }
      FilterNoneContained(LeafPoints(n), q);
    } else if n.Internal? {
      QueryExact(n.ld, q);
      QueryExact(n.lu, q);
      QueryExact(n.rd, q);
      QueryExact(n.ru, q);
      var a, b, c, d := LeafPoints(n.ld), LeafPoints(n.lu), LeafPoints(n.rd), LeafPoints(n.ru);
      FilterAppend(a, b, q);
      FilterAppend(a + b, c, q);
      FilterAppend(a + b + c, d, q);
    }
  }

  /** The leaf-granular traversal is complete: every stored point inside the
      query is reported, as often as it is stored. */
  lemma FindComplete(n: Node, q: Rect)
    requires Nested(n)
    ensures multiset(FilterByRect(LeafPoints(n), q)) <= multiset(FindObjByRect(n, q))
    ensures forall p :: p in LeafPoints(n) && Contains(q, p) ==> p in FindObjByRect(n, q)
  {
    QueryExact(n, q);
    QueryFiltersFind(n, q);
    var found := FindObjByRect(n, q);
    assert multiset(FilterByRect(found, q)) <= multiset(found);
    forall p | p in LeafPoints(n) && Contains(q, p)
      ensures p in found
    {
      assert p in FilterByRect(LeafPoints(n), q);
    }
  }

  /** A query on a built tree agrees with a linear scan of the points the
      build kept, and a query over the bounds returns all of them. */
  lemma QueryBuiltTree(objs: seq<Point>, bounds: Rect, maxNum: nat, q: Rect)
    ensures multiset(Query(CreateQuadTreeWrapper(objs, bounds, maxNum), q))
         == multiset(FilterByRect(FilterByRect(objs, bounds), q))
    ensures multiset(Query(CreateQuadTreeWrapper(objs, bounds, maxNum), bounds))
         == multiset(FilterByRect(objs, bounds))
  {
    var t := CreateQuadTreeWrapper(objs, bounds, maxNum);
    QueryExact(t, q);
    FilterRespectsMultiset(LeafPoints(t), FilterByRect(objs, bounds), q);
    QueryExact(t, bounds);
    FilterRespectsMultiset(LeafPoints(t), FilterByRect(objs, bounds), bounds);
    FilterAllContained(FilterByRect(objs, bounds), bounds);
  }

  /** The traversal as the source writes it: the node tested is always the
      tree's root, and the recursion passes a child's rectangle as the new
      query; a leaf is recognised by holding points, so an empty leaf is
      taken for an internal node and its null children are dereferenced.
      `fuel` bounds the recursion depth. */
  function FindObjByRectAsWritten(root: Node, q: Rect, fuel: nat): (res: Run<seq<Point>>)
    decreases fuel
  {
    if !Intersect(q, root.rect) then Returns([])
    else if root.Leaf? && |root.pts| != 0 then Returns(root.pts)
    else if root.Leaf? then Undefined
    else if fuel == 0 then OutOfFuel
    else
      Then(Then(Then(FindObjByRectAsWritten(root, root.ld.rect, fuel - 1),
                     FindObjByRectAsWritten(root, root.lu.rect, fuel - 1)),
                FindObjByRectAsWritten(root, root.rd.rect, fuel - 1)),
           FindObjByRectAsWritten(root, root.ru.rect, fuel - 1))
  }

  /** On an internal root that meets the query, the source never returns:
      its first child's rectangle meets the root again, forever. */
  lemma {:induction false} AsWrittenQueryDiverges(root: Node, q: Rect, fuel: nat)
    requires root.Internal? && Shaped(root) && Intersect(q, root.rect)
    ensures FindObjByRectAsWritten(root, q, fuel) == OutOfFuel
    decreases fuel
  {
    if fuel > 0 {
      assert WellFormed(root.rect);
      InsideContains(root.ld.rect, root.rect);
      IntersectSymmetric(root.ld.rect, root.rect);
      AsWrittenQueryDiverges(root, root.ld.rect, fuel - 1);
    }
  }

  /** An empty leaf that meets the query is dereferenced as if internal. */
  lemma AsWrittenQueryEmptyLeaf(r: Rect, q: Rect, fuel: nat)
    requires Intersect(q, r)
    ensures FindObjByRectAsWritten(Leaf(r, []), q, fuel) == Undefined
  {
  }

  /** Whenever the source's query returns, the root missed the query or was
      a non-empty leaf, and the result is the modelled traversal's. */
  lemma AsWrittenQueryAgrees(root: Node, q: Rect, fuel: nat)
    requires Shaped(root)
    requires FindObjByRectAsWritten(root, q, fuel).Returns?
    ensures !Intersect(q, root.rect) || (root.Leaf? && |root.pts| != 0)
    ensures FindObjByRectAsWritten(root, q, fuel).value == FindObjByRect(root, q)
  {
    if Intersect(q, root.rect) && root.Internal? {
      AsWrittenQueryDiverges(root, q, fuel);
    }
  }
}
