# NEQuadTree point quadtree in Dafny

A model of the point quadtree in `NEQuadTree/main.cpp`:
- integer points and axis-aligned rectangles with their boundary-inclusive `contains` and `intersect` tests;
- the split of a rectangle into four quadrants at its integer midpoint (`splitSubtreeObjs`);
- the filter of the input to the bounds (`filterObjsByRect`);
- the bulk build (`createQuadTreeWrapper`, `createQuadTree`);
- the range query (`findObjByRect`).

The C++ tree of heap nodes with four child pointers becomes the immutable datatype `Node = Leaf(rect, pts) | Internal(rect, ld, lu, rd, ru)`. Every operation is a pure function.

Three source functions do not behave as their evident purpose requires. Each is modelled twice, and both are kept:
- **as written:** a function that returns a `Run`. A `Run` is `Returns(value)`, `OutOfFuel` (the recursion is still going when a depth budget runs out) or `Undefined` (the C++ program reaches undefined behaviour).
- **as intended:** the function the rest of the model uses.

Lemmas connect the two versions and exhibit the inputs where they differ. See "## Findings".

Modules, one per file:
- `Outcomes` (`outcomes.dfy`): `Option` and `Run`.
- `Geometry` (`geometry.dfy`): `Point`, `Rect`, `Contains`, `Intersect`.
- `Filtering` (`filtering.dfy`): the intended filter `FilterByRect` and the erase loop as written.
- `Quadrants` (`quadrants.dfy`):
  - the truncating midpoint and the quadrant rectangles;
  - `FirstQuadrant`, the quadrant a point is sent to;
  - the one-pass split `SplitObjs` and its per-quadrant `Bucket`s.
- `QuadTree` (`quadtree.dfy`): `Node`, the tree invariants, the build, and the build as written.
- `RangeQuery` (`rangequery.dfy`): two queries, plus the query as written.
  - the leaf-granular query `FindObjByRect`;
  - the per-point query `Query`.
- `Example` (`example.dfy`): the nine-point tree that the program's `main` builds, worked out and checked. It also includes window queries on that tree.

Three places where the code departs from the textbook quadtree; the model follows the code:
- **Midpoint:** the code computes `(lo + hi) / 2` with C++ truncation toward zero (`Quadrants.TruncDiv2`), not floor division. The two differ only when `lo + hi` is odd and negative.
- **Minimum leaf size:** the code never rejects `maxNum < 1`. The model accepts any `nat` as `maxNum`; the build's guard (below) keeps even `maxNum == 0` finite.
- **Leaf test:** the code does not test each leaf point against the query (main.cpp:166). Both behaviours are modelled: `FindObjByRect` at the code's leaf granularity, and `Query` with the per-point test.

The build as written recurses forever on more than `maxNum` coincident points in a unit rectangle. `QuadTree.CreateQuadTree` therefore becomes a leaf when `|objs| <= maxNum` or when the split would only repeat the current call (`Stuck`). `QuadTree.AsWrittenAgrees` and `QuadTree.AsWrittenTerminatesIff` prove this deviation is exactly the source's non-termination:
- wherever the source returns, it returns the modelled tree;
- it returns exactly when no leaf of the modelled tree exceeds `maxNum`.

## Model

| member | source | states |
|---|---|---|
| Outcomes.ThenAssociative | NEQuadTree/main.cpp:169-172 | sequencing runs that append to one output vector is associative, so the left-nested chain of the four recursive calls is the four calls appending to the same vector in order |
| Geometry.Contains | NEQuadTree/main.cpp:38-40 | `Rect::contains`: the point lies between the corners on both axes, boundaries included |
| Geometry.Intersect | NEQuadTree/main.cpp:42-46 | `Rect::intersect`: the maxima of the lower corners do not exceed the minima of the upper corners, on both axes |
| Geometry.ContainsInclusive | NEQuadTree/main.cpp:38-40 | containment is inclusive on all four sides: the four corners of a well-formed rectangle are inside it and a point one step beyond any side is not |
| Geometry.ContainsWellFormed | NEQuadTree/main.cpp:38-40 | a rectangle whose lower corner exceeds its upper corner contains no point |
| Geometry.IntersectIffCommonPoint | NEQuadTree/main.cpp:42-46 | the max-of-lows/min-of-highs test holds exactly when some point lies in both rectangles |
| Geometry.CommonPointIntersect | NEQuadTree/main.cpp:42-46 | two rectangles that both contain a point intersect, in either argument order |
| Geometry.IntersectSymmetric | NEQuadTree/main.cpp:42-46 | the intersection test does not depend on argument order |
| Geometry.ContainsIsPointOverlap | NEQuadTree/main.cpp:38-46 | containing a point is the same as intersecting the degenerate rectangle at that point |
| Quadrants.TruncDiv2 | NEQuadTree/main.cpp:115-116 | the integer division by two rounds toward zero: for a non-negative sum the remainder is 0 or 1, for a negative sum it is 0 or -1 |
| Quadrants.Mid | NEQuadTree/main.cpp:115-116 | for ordered bounds the midpoint lies between them and cuts the interval into two parts whose lengths differ by at most one |
| Quadrants.QuadRect | NEQuadTree/main.cpp:117-120 | each quadrant of a well-formed rectangle is well-formed, lies inside it, and is at most half as wide and half as high, rounded up |
| Quadrants.QuadrantsCover | NEQuadTree/main.cpp:117-120 | a point lies in a well-formed rectangle exactly when it lies in one of its four quadrants |
| Quadrants.QuadrantEqualsParent | NEQuadTree/main.cpp:115-120 | a quadrant equals its parent only when the parent is at most one unit wide and high |
| Quadrants.QuadrantShrinks | NEQuadTree/main.cpp:115-120 | every quadrant of a rectangle larger than a unit is strictly smaller than it |
| Quadrants.FirstQuadrant | NEQuadTree/main.cpp:128-138 | a point goes to a quadrant that contains it and to no earlier one in the order LeftDown, LeftUp, RightDown, RightUp; it goes nowhere only when no quadrant contains it |
| Quadrants.FirstQuadrantChain | NEQuadTree/main.cpp:128-138 | the earliest-first rule is the source's if/else-if chain over the four quadrant rectangles, with the final "do nothing" branch |
| Quadrants.FirstQuadrantTotal | NEQuadTree/main.cpp:127-138 | in a well-formed rectangle a point has a quadrant exactly when the rectangle contains it, so the "do nothing" branch drops only outside points |
| Quadrants.BucketContents | NEQuadTree/main.cpp:127-139 | a bucket holds exactly the input points sent to its quadrant, each as often as the input holds it, and they all lie in that quadrant |
| Quadrants.BucketIsSubseq | NEQuadTree/main.cpp:127-139 | each bucket keeps the relative input order of its points |
| Quadrants.SplitObjs | NEQuadTree/main.cpp:122-143 | the loop of `splitSubtreeObjs`: each point is appended to the first of the four quadrant vectors whose rectangle contains it, or dropped |
| Quadrants.SplitObjsBuckets | NEQuadTree/main.cpp:127-143 | the one-pass loop fills the four output vectors with the four buckets, in quadrant order |
| Quadrants.SplitInQuadrants | NEQuadTree/main.cpp:127-143 | every point in an output vector lies in that vector's quadrant rectangle |
| Quadrants.SplitPartition | NEQuadTree/main.cpp:127-143 | the multiset union of the four buckets equals the multiset of the input points the rectangle contains: nothing lost, nothing duplicated |
| Filtering.FilterByRect | NEQuadTree/main.cpp:100-106 | the intended filter keeps a point exactly when the rectangle contains it, with its input multiplicity, and never grows the input |
| Filtering.FilterIsSubseq | NEQuadTree/main.cpp:100-106 | the intended filter keeps the input order |
| Filtering.FilterAllContained | NEQuadTree/main.cpp:100-106 | a vector whose points all lie in the rectangle passes unchanged, so filtering twice is filtering once |
| Filtering.EraseLoop | NEQuadTree/main.cpp:101-105 | the erase loop as written, from iterator position `it`: an outside point is erased and the iterator then advances past the element after it; stepping past the end is undefined; a finished run never grows the vector |
| Filtering.FilterAsWritten | NEQuadTree/main.cpp:100-106 | `filterObjsByRect` as written: the erase loop from the first element |
| Filtering.EraseLoopKeepsContained | NEQuadTree/main.cpp:101-105 | whenever the erase loop as written finishes, its result filters to the intended result, so it loses no contained point |
| Filtering.FilterAsWrittenSkips | NEQuadTree/main.cpp:101-105 | an outside point that follows an erased one is never tested and survives the loop as written |
| Filtering.FilterAsWrittenUndefined | NEQuadTree/main.cpp:101-105 | erasing the last element moves the iterator past the end |
| QuadTree.CreateQuadTree | NEQuadTree/main.cpp:146-161 | the node owns its rectangle; it is a leaf holding exactly its points when given at most `maxNum` of them, or when splitting would repeat the call, and internal otherwise |
| QuadTree.LeafIffWithinBudget | NEQuadTree/main.cpp:149-159 | outside rectangles at most one unit wide and high, a node is a leaf exactly when it is given at most `maxNum` points |
| QuadTree.StuckIsUnit | NEQuadTree/main.cpp:115-120 | a split that repeats the call can only happen in a rectangle at most one unit wide and high |
| QuadTree.SplitProgress | NEQuadTree/main.cpp:155-159 | every recursive call that does not repeat the current one gets a smaller rectangle, or the same rectangle with fewer points |
| QuadTree.BuildInvariants | NEQuadTree/main.cpp:146-161 | the built tree stores exactly the given points as a multiset. Every point lies in the rectangle of each node above it. Every internal node has the four quadrants as children, in order. Every leaf holds at most `maxNum` points unless its rectangle is a unit |
| QuadTree.BuiltChild | NEQuadTree/main.cpp:155-159 | each child of a split node is the tree built from that quadrant's bucket and rectangle, with the call's progress measure decreasing |
| QuadTree.CreateQuadTreeWrapper | NEQuadTree/main.cpp:108-111 | the entry point's tree stores exactly the input points the bounds contain, as a multiset, and has the invariants of the build |
| QuadTree.TrivialBuild | NEQuadTree/main.cpp:108-111 | bounds that contain no input point, malformed bounds among them, give a single empty leaf |
| QuadTree.CreateQuadTreeAsWritten | NEQuadTree/main.cpp:146-161 | the build as written never reaches undefined behaviour, and when it returns, the tree owns the given rectangle and no leaf holds more than `maxNum` points |
| QuadTree.RepeatsDiverges | NEQuadTree/main.cpp:146-161 | when a quadrant equal to the rectangle receives every point, the build as written never returns, at any recursion depth |
| QuadTree.StuckDiverges | NEQuadTree/main.cpp:146-161 | wherever the model stops because the split would repeat the call, the build as written never returns |
| QuadTree.AsWrittenAgrees | NEQuadTree/main.cpp:146-161 | whenever the build as written returns, it returns the modelled tree |
| QuadTree.AsWrittenTerminates | NEQuadTree/main.cpp:146-161 | when no leaf of the modelled tree exceeds `maxNum`, the build as written returns that tree once allowed the tree's depth |
| QuadTree.AsWrittenTerminatesIff | NEQuadTree/main.cpp:146-161 | the build as written returns for some recursion depth exactly when the modelled tree has no leaf over `maxNum` |
| QuadTree.AsWrittenStoresOutsidePoint | NEQuadTree/main.cpp:108-111 | in the entry point as written, the erase loop keeps the outside point (30,30) after (20,20), and the build then stores it in a leaf of (0,0)-(10,10) that does not contain it |
| QuadTree.CoincidentPointsStuck | NEQuadTree/main.cpp:120 | in the rectangle (0,0)-(1,1) the RightTop quadrant equals the parent, and three copies of (1,1) all go to it |
| QuadTree.CoincidentPointsDiverge | NEQuadTree/main.cpp:146-161 | with `maxNum` 2, those three points make the build as written recurse forever, while the model stores them in one leaf |
| RangeQuery.FindObjByRect | NEQuadTree/main.cpp:163-174 | a subtree that misses the query contributes nothing, an intersecting leaf contributes all its points, and the result is a sub-multiset of the stored points |
| RangeQuery.Query | NEQuadTree/main.cpp:163-174 | with the per-point test, every reported point lies in the query, a subtree that misses it contributes nothing, and the result is a sub-multiset of the stored points |
| RangeQuery.QueryFiltersFind | NEQuadTree/main.cpp:165-166 | the per-point query is the leaf-granular one with the points outside the query removed |
| RangeQuery.QueryExact | NEQuadTree/main.cpp:163-174 | on a tree whose nodes enclose their points, the per-point query returns exactly a linear scan of the stored points over the query, in storage order: pruning loses nothing |
| RangeQuery.FindComplete | NEQuadTree/main.cpp:163-174 | the leaf-granular query reports every stored point inside the query, at least as often as it is stored |
| RangeQuery.QueryBuiltTree | NEQuadTree/main.cpp:163-174 | on a built tree, the query's multiset equals a brute-force scan of the filtered input, and a query over the bounds returns the whole filtered input |
| RangeQuery.FindObjByRectAsWritten | NEQuadTree/main.cpp:163-174 | the query as written, which always tests the member root and passes a child's rectangle as the new query |
| RangeQuery.AsWrittenQueryDiverges | NEQuadTree/main.cpp:169-172 | on an internal root that meets the query, the query as written never returns |
| RangeQuery.AsWrittenQueryEmptyLeaf | NEQuadTree/main.cpp:165-172 | an empty leaf that meets the query is taken for an internal node, and its null children are dereferenced |
| RangeQuery.AsWrittenQueryAgrees | NEQuadTree/main.cpp:163-174 | whenever the query as written returns, the root missed the query or was a non-empty leaf, and the result equals the leaf-granular query |
| Example.WorkedExampleTree | NEQuadTree/main.cpp:180-185 | the nine points in (0,0)-(16,16) with `maxNum` 2 build the hand-computed tree: three leaves and an east quadrant split once more |
| Example.WorkedExampleBudget | NEQuadTree/main.cpp:180-185 | every leaf of that tree holds at most two points |
| Example.WorkedExampleKeepsAll | NEQuadTree/main.cpp:180-185 | its leaves hold all nine points, none twice |
| Example.WorkedExampleQueryAll | NEQuadTree/main.cpp:163-174 | a query over the bounds returns all nine points |
| Example.WorkedExampleQueryList | NEQuadTree/main.cpp:163-174 | the query (9,0)-(16,8) returns the six east points, in leaf order |
| Example.WorkedExampleScan | NEQuadTree/main.cpp:100-106 | a brute-force scan of the nine points over (9,0)-(16,8) keeps the six east points |
| Example.WorkedExampleQuery | NEQuadTree/main.cpp:163-174 | that query agrees with the brute-force scan as a multiset |
| Example.ContainmentBoundary | NEQuadTree/main.cpp:38-40 | (0,0)-(10,10) contains its four corners but not (11,0) or (-1,5) |
| Example.EdgeSharingIntersects | NEQuadTree/main.cpp:42-46 | rectangles sharing only an edge or only a corner intersect; rectangles one step apart do not |
| Example.LeafGranularityOverReports | NEQuadTree/main.cpp:165-167 | on the example tree, the leaf-granular query (0,0)-(3,3) reports (4,4), which lies outside the window |
| Example.PerPointQueryExact | NEQuadTree/main.cpp:165-167 | the per-point query over the same window reports nothing |
| Example.WorkedExampleAsWrittenQuery | NEQuadTree/main.cpp:169-172 | the query as written, given the window (9,0)-(16,8), never returns on the example tree |

## Left out

- `operator<<`, both `printTree` overloads and the `cout` output of `main` (main.cpp:22-25, 76-96, 187-189): stream output only.
- The `m_pParent` back-pointer (main.cpp:53, 148): it is set but never read by the build or the query.
- Heap allocation with `new`, null child pointers, and the leaked nodes of an earlier tree that a new build overwrites: the immutable `Node` datatype replaces them.
- `setMaxNum` (main.cpp:98) and the `maxNum` field become a parameter of the build. The field's uninitialised state before `setMaxNum` is not modelled.
- QuadTree.CreateQuadTree: `maxNum` is a `nat`, so the model does not cover a negative `maxNum`. In the source, the comparison `objs.size()<=maxNum` (main.cpp:149) converts a negative `maxNum` to a huge unsigned value, which makes every node a leaf.
- QuadTree.CreateQuadTree: becomes a leaf where the split would only repeat the call. The source recurses forever there; `QuadTree.StuckDiverges` states this, and "## Findings" records it.
- QuadTree.BuildInvariants: bounds leaves by `maxNum` only outside unit rectangles (`LeavesBounded`). A stuck unit rectangle may hold more points. `QuadTree.AsWrittenTerminatesIff` shows that the all-leaves bound (`WithinBudget`) holds exactly when the source's build returns.
- Quadrants.Mid: computes `lo + hi` on unbounded integers. The source's 32-bit `int` sum overflows when `lo + hi` exceeds the `int` range, which is undefined behaviour that the model does not represent. Point coordinates are likewise unbounded.
- `createQuadTreeWrapper` filters with the erase loop as written (main.cpp:109), which can let outside points through to the build; they are then stored in leaves whose rectangles do not contain them (`QuadTree.AsWrittenStoresOutsidePoint`). `QuadTree.CreateQuadTreeWrapper` uses the intended filter, so its `Nested` and multiset guarantees hold for the intended entry point only.
- `createQuadTreeWrapper` filters the caller's vector in place (main.cpp:109). The model returns only the tree; the caller's vector afterwards would be `FilterByRect(objs, rt)` under the intended filter.
- `findObjByRect` appends to a caller-supplied vector (main.cpp:166). The model returns only the appended points.
- A query before any build dereferences the null `root` (main.cpp:164). The model's queries take a tree, so no unbuilt state exists.
- Query idempotence: the queries are pure functions of the tree and the window, so two calls agree by construction. No lemma states it.

## Findings

Every row below was found by proof and counterexample. None of the source code was executed.

| source | as written | input that shows it | evidently intended | confidence | as-written member | corrected member |
|---|---|---|---|---|---|---|
| NEQuadTree/main.cpp:101-104 | `it=objs.erase(it)` is followed by the loop's own `it++`, so the element after each erased one is never tested | `[(20,20),(30,30),(1,1)]` filtered by (0,0)-(10,10) keeps (30,30) | keep exactly the points the rectangle contains, in order | high; not executed | Filtering.FilterAsWrittenSkips | Filtering.FilterIsSubseq |
| NEQuadTree/main.cpp:101-104 | erasing the last element leaves the iterator at the end, and the loop's `it++` then steps past it | `[(1,1),(20,20)]` filtered by (0,0)-(10,10) | stop after the last element | high; not executed | Filtering.FilterAsWrittenUndefined | Filtering.FilterByRect |
| NEQuadTree/main.cpp:149-159 | no floor on the recursion: a node with more than `maxNum` points always splits, even when a quadrant equals the node's rectangle | three copies of (1,1) in (0,0)-(1,1) with `maxNum` 2 recurse forever in the RightTop quadrant | stop splitting when the split would not make progress | high; not executed | QuadTree.CoincidentPointsDiverge | QuadTree.BuildInvariants |
| NEQuadTree/main.cpp:169-172 | the recursion tests the member `root` again and passes a child's rectangle as the query, so it never descends | the example tree built by `main`, queried with (9,0)-(16,8) | recurse into each child node with the same query | high; not executed | Example.WorkedExampleAsWrittenQuery | RangeQuery.QueryExact |
| NEQuadTree/main.cpp:165 | a node counts as a leaf only if it holds points, so an empty leaf that meets the query is taken as internal and its null children are dereferenced | a tree built from no points is the single leaf `Leaf(rt, [])`; any window meeting `rt` dereferences null | tell leaves from internal nodes by their kind | high; not executed | RangeQuery.AsWrittenQueryEmptyLeaf | RangeQuery.FindComplete |
| NEQuadTree/main.cpp:166 | an intersecting leaf reports all its points without testing each against the query | the example tree queried with (0,0)-(3,3) reports (4,4) | report only points inside the query | medium; not executed | Example.LeafGranularityOverReports | RangeQuery.QueryExact |
