/** Keeping the points a rectangle contains (`filterObjsByRect`), both as
    intended and as the erase-in-a-for-loop of the source behaves. */
module Filtering {
  import opened Outcomes
  import opened Geometry

  /** `a` is `b` with some elements removed, the rest in their order. */
  predicate IsSubseq<T(==)>(a: seq<T>, b: seq<T>)
    decreases |b|
  {
    |a| == 0 ||
    (|b| > 0 &&
     ((a[|a| - 1] == b[|b| - 1] && IsSubseq(a[..|a| - 1], b[..|b| - 1])) ||
      IsSubseq(a, b[..|b| - 1])))
  }

  /** The intended filter: the points of `objs` that `rt` contains, in
      input order, with their multiplicities. */
  function FilterByRect(objs: seq<Point>, rt: Rect): (kept: seq<Point>)
    ensures forall p :: p in kept <==> p in objs && Contains(rt, p)
    ensures forall p :: multiset(kept)[p] == if Contains(rt, p) then multiset(objs)[p] else 0
    ensures |kept| <= |objs|
    decreases |objs|
  {
    if |objs| == 0 then []
    else
      var init := objs[..|objs| - 1];
      var p := objs[|objs| - 1];
      assert objs == init + [p];
      var kept := FilterByRect(init, rt);
      if Contains(rt, p) then kept + [p] else kept
  }

  /** The filter keeps input order. */
  lemma {:induction false} FilterIsSubseq(objs: seq<Point>, rt: Rect)
    ensures IsSubseq(FilterByRect(objs, rt), objs)
    decreases |objs|
  {
    if |objs| > 0 {
      var init := objs[..|objs| - 1];
      FilterIsSubseq(init, rt);
      var kept := FilterByRect(objs, rt);
      if Contains(rt, objs[|objs| - 1]) {
        assert kept[..|kept| - 1] == FilterByRect(init, rt);
      }
    }
  }

  /** Filtering distributes over concatenation. */
  lemma {:induction false} FilterAppend(a: seq<Point>, b: seq<Point>, rt: Rect)
    ensures FilterByRect(a + b, rt) == FilterByRect(a, rt) + FilterByRect(b, rt)
    decreases |b|
  {
    if |b| == 0 {
      assert a + b == a;
    } else {
      var init := b[..|b| - 1];
      assert (a + b)[..|a + b| - 1] == a + init;
      FilterAppend(a, init, rt);
    }
  }

  /** A sequence whose points all lie in `rt` passes unchanged. */
  lemma {:induction false} FilterAllContained(objs: seq<Point>, rt: Rect)
    requires forall p :: p in objs ==> Contains(rt, p)
    ensures FilterByRect(objs, rt) == objs
    decreases |objs|
  {
    if |objs| > 0 {
      var init := objs[..|objs| - 1];
      assert objs == init + [objs[|objs| - 1]];
      FilterAllContained(init, rt);
    }
  }

  /** A sequence with no point in `rt` filters to nothing. */
  lemma FilterNoneContained(objs: seq<Point>, rt: Rect)
    requires forall p :: p in objs ==> !Contains(rt, p)
    ensures FilterByRect(objs, rt) == []
  {
  }

  /** Points outside the rectangle followed by points inside it filter to
      the points inside. */
  lemma FilterSplit(outside: seq<Point>, inside: seq<Point>, rt: Rect)
    requires forall p :: p in outside ==> !Contains(rt, p)
    requires forall p :: p in inside ==> Contains(rt, p)
    ensures FilterByRect(outside + inside, rt) == inside
  {
    FilterAppend(outside, inside, rt);
    FilterNoneContained(outside, rt);
    FilterAllContained(inside, rt);
  }

  /** Removing a point outside `rt` does not change the filtered result. */
  lemma FilterDropOutside(objs: seq<Point>, it: nat, rt: Rect)
    requires it < |objs| && !Contains(rt, objs[it])
    ensures FilterByRect(objs[..it] + objs[it + 1..], rt) == FilterByRect(objs, rt)
  {
    var a, x, c := objs[..it], objs[it], objs[it + 1..];
    assert objs == (a + [x]) + c;
    assert FilterByRect([x], rt) == [] by {
      assert [x][..0] == [];
    }
    calc {
      FilterByRect(objs, rt);
      { FilterAppend(a + [x], c, rt); }
      FilterByRect(a + [x], rt) + FilterByRect(c, rt);
      { FilterAppend(a, [x], rt); }
      FilterByRect(a, rt) + FilterByRect(c, rt);
      { FilterAppend(a, c, rt); }
      FilterByRect(a + c, rt);
    }
  }

  /** Sequences with equal multisets filter to sequences with equal multisets. */
  lemma FilterRespectsMultiset(a: seq<Point>, b: seq<Point>, rt: Rect)
    requires multiset(a) == multiset(b)
    ensures multiset(FilterByRect(a, rt)) == multiset(FilterByRect(b, rt))
  {
    assert forall p :: multiset(FilterByRect(a, rt))[p] == multiset(FilterByRect(b, rt))[p];
  }

  /** The loop of the source as written: when `objs[it]` is outside `rt` it is
      erased and `it` is set to the element after it, and then the loop's own
      `it++` advances once more, so the element following an erased one is
      never tested. Erasing the last element leaves `it` at the end, and
      incrementing it there is undefined. */
  function EraseLoop(objs: seq<Point>, rt: Rect, it: nat): (res: Run<seq<Point>>)
    requires it <= |objs|
    ensures res.Returns? ==> |res.value| <= |objs|
    decreases |objs| - it
  {
    if it == |objs| then Returns(objs)
    else if Contains(rt, objs[it]) then EraseLoop(objs, rt, it + 1)
    else
      var erased := objs[..it] + objs[it + 1..];
      if it == |erased| then Undefined
      else EraseLoop(erased, rt, it + 1)
  }

  function FilterAsWritten(objs: seq<Point>, rt: Rect): (res: Run<seq<Point>>)
    ensures res.Returns? ==> |res.value| <= |objs|
  {
    EraseLoop(objs, rt, 0)
  }

  /** The loop as written never loses a contained point: whatever it returns
      filters to the intended result, so its only defect is letting points
      outside `rt` through. */
  lemma {:induction false} EraseLoopKeepsContained(objs: seq<Point>, rt: Rect, it: nat)
    requires it <= |objs|
    requires EraseLoop(objs, rt, it).Returns?
    ensures FilterByRect(EraseLoop(objs, rt, it).value, rt) == FilterByRect(objs, rt)
    decreases |objs| - it
  {
    if it < |objs| {
      if Contains(rt, objs[it]) {
        EraseLoopKeepsContained(objs, rt, it + 1);
      } else {
        var erased := objs[..it] + objs[it + 1..];
        assert EraseLoop(objs, rt, it) == EraseLoop(erased, rt, it + 1);
        EraseLoopKeepsContained(erased, rt, it + 1);
        FilterDropOutside(objs, it, rt);
      }
    }
  }

  /** An outside point followed by another one lets the second through:
      `[(20,20), (30,30), (1,1)]` filtered by `(0,0)-(10,10)` keeps
      `(30,30)`. */
  lemma FilterAsWrittenSkips()
    ensures FilterAsWritten([Point(20, 20), Point(30, 30), Point(1, 1)], Rect(Point(0, 0), Point(10, 10)))
         == Returns([Point(30, 30), Point(1, 1)])
    ensures FilterByRect([Point(20, 20), Point(30, 30), Point(1, 1)], Rect(Point(0, 0), Point(10, 10)))
         == [Point(1, 1)]
  {
    var rt := Rect(Point(0, 0), Point(10, 10));
    var objs := [Point(20, 20), Point(30, 30), Point(1, 1)];
    assert objs[..0] + objs[1..] == [Point(30, 30), Point(1, 1)];
    var objs3 := [Point(20, 20), Point(30, 30)];
    assert objs[..2] == objs3 && objs3[..1] == [Point(20, 20)];
    assert FilterByRect(objs3, rt) == [];
  }

  /** An outside point at the end makes the loop step past the end. */
  lemma FilterAsWrittenUndefined()
    ensures FilterAsWritten([Point(1, 1), Point(20, 20)], Rect(Point(0, 0), Point(10, 10))) == Undefined
  {
    var objs := [Point(1, 1), Point(20, 20)];
    assert objs[..1] + objs[2..] == [Point(1, 1)];
  }
}
