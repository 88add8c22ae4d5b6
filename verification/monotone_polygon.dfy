/** Monotone polygons and their stack-based fan triangulation. A polygon is a
    top point, an optional bottom point and the left and right chains between
    them, each listed from top to bottom. */
module MonotonePolygons {
  import opened Wrappers
  import opened Points

  datatype MonotonePolygon = MonotonePolygon(top: Point, bottom: Option<Point>, left: seq<Point>, right: seq<Point>)

  /** A triangle as the triangulation emits it: the three corners in emission
      order. */
  datatype PointTriangle = PointTriangle(p1: Point, p2: Point, p3: Point)

  /** Which chain a point of the merged list comes from. */
  datatype Side = TopOrBottom | Left | Right

  /** `MonotonePolygon::new`. */
  function NewMonotonePolygon(top: Point): MonotonePolygon
  {
    MonotonePolygon(top, None, [], [])
  }

  /** `MonotonePolygon::finished`. */
  predicate Finished(polygon: MonotonePolygon)
  {
    polygon.bottom.Some?
  }

  /** A new polygon is unfinished whatever is pushed onto its chains, and
      setting the bottom finishes it. */
  lemma NewPolygonFinishedOnlyWithBottom(top: Point, l: seq<Point>, r: seq<Point>, b: Point)
    ensures NewMonotonePolygon(top).left == [] && NewMonotonePolygon(top).right == []
    ensures !Finished(NewMonotonePolygon(top).(left := l, right := r))
    ensures Finished(NewMonotonePolygon(top).(left := l, right := r, bottom := Some(b)))
    ensures NewMonotonePolygon(top).(bottom := Some(b)).top == top
  {
  }

  // ---------------------------------------------------------------------------
  // Merging the chains

  /** The merge loops: take the right head when the left head is smaller,
      otherwise the left head; then the rest of whichever chain remains. */
  function MergeChains(left: seq<Point>, right: seq<Point>): seq<(Point, Side)>
    decreases |left| + |right|
  {
    if left != [] && right != [] then
      if Lt(left[0], right[0]) then [(right[0], Right)] + MergeChains(left, right[1..])
      else [(left[0], Left)] + MergeChains(left[1..], right)
    else if left != [] then [(left[0], Left)] + MergeChains(left[1..], right)
    else if right != [] then [(right[0], Right)] + MergeChains(left, right[1..])
    else []
  }

  /** The points of a merged list that come from one side, in order. */
  function FromSide(points: seq<(Point, Side)>, side: Side): seq<Point>
  {
    if points == [] then []
    else (if points[0].1 == side then [points[0].0] else []) + FromSide(points[1..], side)
  }

  lemma FromSideCons(x: (Point, Side), rest: seq<(Point, Side)>)
    ensures FromSide([x] + rest, Left) == (if x.1 == Left then [x.0] else []) + FromSide(rest, Left)
    ensures FromSide([x] + rest, Right) == (if x.1 == Right then [x.0] else []) + FromSide(rest, Right)
    ensures FromSide([x] + rest, TopOrBottom) == (if x.1 == TopOrBottom then [x.0] else []) + FromSide(rest, TopOrBottom)
  {
    assert ([x] + rest)[1..] == rest;
  }

  /** Merging keeps every point of both chains exactly once, each chain in its
      own order, and tags each point with its chain. */
  lemma {:induction false} MergeChainsKeepsChains(left: seq<Point>, right: seq<Point>)
    ensures |MergeChains(left, right)| == |left| + |right|
    ensures FromSide(MergeChains(left, right), Left) == left
    ensures FromSide(MergeChains(left, right), Right) == right
    ensures FromSide(MergeChains(left, right), TopOrBottom) == []
    decreases |left| + |right|
  {
    if left != [] && (right == [] || !Lt(left[0], right[0])) {
      var rest := MergeChains(left[1..], right);
      MergeChainsKeepsChains(left[1..], right);
      FromSideCons((left[0], Left), rest);
      assert MergeChains(left, right) == [(left[0], Left)] + rest;
      assert [left[0]] + left[1..] == left;
    } else if right != [] {
      var rest := MergeChains(left, right[1..]);
      MergeChainsKeepsChains(left, right[1..]);
      FromSideCons((right[0], Right), rest);
      assert MergeChains(left, right) == [(right[0], Right)] + rest;
      assert [right[0]] + right[1..] == right;
    }
  }

  /** A chain listed strictly from top to bottom. */
  predicate Descending(chain: seq<Point>)
  {
    forall i :: 0 <= i < |chain| - 1 ==> Lt(chain[i + 1], chain[i])
  }

  /** No point of the list is below its successor. */
  predicate NonIncreasing(points: seq<(Point, Side)>)
  {
    forall i :: 0 <= i < |points| - 1 ==> !Lt(points[i].0, points[i + 1].0)
  }

  lemma MergeChainsHead(left: seq<Point>, right: seq<Point>)
    requires left != [] || right != []
    ensures MergeChains(left, right) != []
    ensures MergeChains(left, right)[0].0 == (if left != [] && (right == [] || !Lt(left[0], right[0])) then left[0] else right[0])
  {
  }

  /** Descending chains merge into a list that never rises: each step takes
      the greater of the two heads. */
  lemma {:induction false} MergeChainsDescending(left: seq<Point>, right: seq<Point>)
    requires Descending(left) && Descending(right)
    ensures NonIncreasing(MergeChains(left, right))
    decreases |left| + |right|
  {
    var m := MergeChains(left, right);
    if left != [] && (right == [] || !Lt(left[0], right[0])) {
      var rest := MergeChains(left[1..], right);
      MergeChainsDescending(left[1..], right);
      assert m == [(left[0], Left)] + rest;
      if rest != [] {
        MergeChainsHead(left[1..], right);
        if |left| > 1 {
          PointOrderIsTotal(left[1], left[0], left[0]);
        }
        if right != [] {
          PointOrderIsTotal(left[0], right[0], right[0]);
        }
      }
    } else if right != [] {
      var rest := MergeChains(left, right[1..]);
      MergeChainsDescending(left, right[1..]);
      assert m == [(right[0], Right)] + rest;
      if rest != [] {
        MergeChainsHead(left, right[1..]);
        if |right| > 1 {
          PointOrderIsTotal(right[1], right[0], right[0]);
        }
        if left != [] {
          PointOrderIsTotal(left[0], right[0], right[0]);
        }
      }
    }
  }

  // ---------------------------------------------------------------------------
  // The shape the sweep gives a polygon

  /** The lowest point of a chain hanging from `top`: its last point, or
      `top` itself while the chain is empty. */
  function ChainEnd(top: Point, chain: seq<Point>): Point
  {
    if chain == [] then top else chain[|chain| - 1]
  }

  /** Both chains run strictly down from the top and neither ends below q:
      a polygon the sweep has grown down to q. */
  predicate MonotoneDownTo(polygon: MonotonePolygon, q: Point)
  {
    && Descending([polygon.top] + polygon.left) && Descending([polygon.top] + polygon.right)
    && !Lt(ChainEnd(polygon.top, polygon.left), q) && !Lt(ChainEnd(polygon.top, polygon.right), q)
  }

  /** A finished y-monotone polygon: both chains run strictly down from the
      top, and the bottom is at or below their last points. */
  predicate MonotoneFinished(polygon: MonotonePolygon)
  {
    polygon.bottom.Some? && MonotoneDownTo(polygon, polygon.bottom.value)
  }

  /** Pushing a point strictly below a chain's end keeps it descending and
      makes the point the new end. */
  lemma DescendingPush(top: Point, chain: seq<Point>, p: Point)
    requires Descending([top] + chain) && Lt(p, ChainEnd(top, chain))
    ensures Descending([top] + (chain + [p])) && ChainEnd(top, chain + [p]) == p
  {
    assert [top] + (chain + [p]) == ([top] + chain) + [p];
    assert ChainEnd(top, chain) == ([top] + chain)[|chain|];
  }

  /** Every point of a descending chain lies strictly below its head and no
      lower than its last point. */
  lemma {:induction false} DescendingBetween(chain: seq<Point>)
    requires Descending(chain) && chain != []
    ensures forall i :: 0 < i < |chain| ==> Lt(chain[i], chain[0])
    ensures forall i :: 0 <= i < |chain| ==> !Lt(chain[i], chain[|chain| - 1])
  {
    if |chain| > 1 {
      DescendingBetween(chain[1..]);
      assert forall i :: 0 < i < |chain| ==> chain[i] == chain[1..][i - 1];
    }
  }

  /** A finished monotone polygon: every chain point lies strictly below the
      top and at or above the bottom, and the two chains merge into a list
      that never rises, which is what the fan triangulation walks. */
  lemma MonotoneFinishedShape(polygon: MonotonePolygon)
    requires MonotoneFinished(polygon)
    ensures Descending(polygon.left) && Descending(polygon.right)
    ensures !Lt(polygon.top, polygon.bottom.value)
    ensures forall i :: 0 <= i < |polygon.left| ==> Lt(polygon.left[i], polygon.top) && !Lt(polygon.left[i], polygon.bottom.value)
    ensures forall i :: 0 <= i < |polygon.right| ==> Lt(polygon.right[i], polygon.top) && !Lt(polygon.right[i], polygon.bottom.value)
    ensures NonIncreasing(MergeChains(polygon.left, polygon.right))
  {
    var b := polygon.bottom.value;
    ChainShape(polygon.top, polygon.left, b);
    ChainShape(polygon.top, polygon.right, b);
    MergeChainsDescending(polygon.left, polygon.right);
  }

  lemma ChainShape(top: Point, chain: seq<Point>, b: Point)
    requires Descending([top] + chain) && !Lt(ChainEnd(top, chain), b)
    ensures Descending(chain) && !Lt(top, b)
    ensures forall i :: 0 <= i < |chain| ==> Lt(chain[i], top) && !Lt(chain[i], b)
  {
    var full := [top] + chain;
    DescendingBetween(full);
    assert forall i :: 0 <= i < |chain| ==> chain[i] == full[i + 1];
    assert ChainEnd(top, chain) == full[|full| - 1];
  }

  /** One step of the merge on the remaining suffixes of the two chains. */
  lemma MergeChainsUnfold(left: seq<Point>, right: seq<Point>, i: nat, j: nat)
    requires i <= |left| && j <= |right| && (i < |left| || j < |right|)
    ensures MergeChains(left[i..], right[j..]) ==
      (if i < |left| && (j == |right| || !Lt(left[i], right[j]))
       then [(left[i], Left)] + MergeChains(left[i + 1..], right[j..])
       else [(right[j], Right)] + MergeChains(left[i..], right[j + 1..]))
  {
    assert left[i..] != [] ==> left[i..][0] == left[i] && left[i..][1..] == left[i + 1..];
    assert right[j..] != [] ==> right[j..][0] == right[j] && right[j..][1..] == right[j + 1..];
  }

  /** The merged point list of `triangulate_monotone_polygon`, without the
      bottom point appended at the end. */
  method MergeSides(polygon: MonotonePolygon) returns (points: seq<(Point, Side)>)
    ensures points == [(polygon.top, TopOrBottom)] + MergeChains(polygon.left, polygon.right)
  {
    var prefix, leftIndex, rightIndex := MergeBothHeads(polygon.left, polygon.right, [(polygon.top, TopOrBottom)]);
    points := MergeRemaining(polygon.left, polygon.right, prefix, leftIndex, rightIndex);
  }

  /** The first merge loop: while both chains have points, take the higher
      head (the left one on a tie). */
  method MergeBothHeads(left: seq<Point>, right: seq<Point>, start: seq<(Point, Side)>)
    returns (points: seq<(Point, Side)>, leftIndex: nat, rightIndex: nat)
    ensures leftIndex <= |left| && rightIndex <= |right|
    ensures leftIndex == |left| || rightIndex == |right|
    ensures points + MergeChains(left[leftIndex..], right[rightIndex..]) == start + MergeChains(left, right)
  {
    leftIndex, rightIndex := 0, 0;
    points := start;
    while leftIndex < |left| && rightIndex < |right|
      invariant leftIndex <= |left| && rightIndex <= |right|
      invariant points + MergeChains(left[leftIndex..], right[rightIndex..]) == start + MergeChains(left, right)
      decreases |left| - leftIndex + |right| - rightIndex
    {
      MergeChainsUnfold(left, right, leftIndex, rightIndex);
      if Lt(left[leftIndex], right[rightIndex]) {
        points := points + [(right[rightIndex], Right)];
        rightIndex := rightIndex + 1;
      } else {
        points := points + [(left[leftIndex], Left)];
        leftIndex := leftIndex + 1;
      }
    }
  }

  /** The two remaining merge loops: the rest of whichever chain is left. */
  method MergeRemaining(left: seq<Point>, right: seq<Point>, start: seq<(Point, Side)>, i: nat, j: nat)
    returns (points: seq<(Point, Side)>)
    requires i <= |left| && j <= |right| && (i == |left| || j == |right|)
    ensures points == start + MergeChains(left[i..], right[j..])
  {
    var leftIndex, rightIndex := i, j;
    points := start;
    while leftIndex < |left|
      invariant i <= leftIndex <= |left| && rightIndex == j
      invariant leftIndex < |left| ==> rightIndex == |right|
      invariant points + MergeChains(left[leftIndex..], right[rightIndex..]) == start + MergeChains(left[i..], right[j..])
    {
      MergeChainsUnfold(left, right, leftIndex, rightIndex);
      points := points + [(left[leftIndex], Left)];
      leftIndex := leftIndex + 1;
    }
    while rightIndex < |right|
      invariant j <= rightIndex <= |right| && leftIndex == |left|
      invariant points + MergeChains(left[leftIndex..], right[rightIndex..]) == start + MergeChains(left[i..], right[j..])
    {
      MergeChainsUnfold(left, right, leftIndex, rightIndex);
      points := points + [(right[rightIndex], Right)];
      rightIndex := rightIndex + 1;
    }
    assert MergeChains(left[leftIndex..], right[rightIndex..]) == [];
  }

  // ---------------------------------------------------------------------------
  // The two stack steps

  /** The orientation a same-side step keeps popping on: collinear on the left
      chain, counter-clockwise otherwise. */
  function TargetOrientation(side: Side): Orientation
  {
    if side == Left then Collinear else CounterClockwise
  }

  /** Where the popping loop of `_build_triangles_current_edge` stops, starting
      from index i. */
  function CurrentEdgeStop(stack: seq<Point>, c: Point, target: Orientation, i: nat): (k: nat)
    requires i < |stack|
    ensures k <= i
    decreases i
  {
    if i > 0 && Orient(stack[i - 1], stack[i], c) == target then CurrentEdgeStop(stack, c, target, i - 1) else i
  }

  /** The loop stops at the first pair from the back without the target
      orientation: every pair above the stop has it, the pair at the stop (if
      any) does not. */
  lemma {:induction false} CurrentEdgeStopIsFirstMismatch(stack: seq<Point>, c: Point, target: Orientation, i: nat)
    requires i < |stack|
    ensures var k := CurrentEdgeStop(stack, c, target, i);
      && (forall j :: k < j <= i ==> Orient(stack[j - 1], stack[j], c) == target)
      && (k == 0 || Orient(stack[k - 1], stack[k], c) != target)
    decreases i
  {
    if i > 0 && Orient(stack[i - 1], stack[i], c) == target {
      CurrentEdgeStopIsFirstMismatch(stack, c, target, i - 1);
    }
  }

  /** The triangles the popping loop emits, starting from index i. */
  function CurrentEdgeFan(stack: seq<Point>, c: Point, target: Orientation, i: nat): seq<PointTriangle>
    requires i < |stack|
    decreases i
  {
    if i > 0 && Orient(stack[i - 1], stack[i], c) == target then
      [PointTriangle(c, stack[i], stack[i - 1])] + CurrentEdgeFan(stack, c, target, i - 1)
    else []
  }

  /** `_build_triangles_current_edge` on values: the new stack and the
      triangles appended to the result. */
  function CurrentEdgeStep(stack: seq<Point>, c: Point, side: Side): (seq<Point>, seq<PointTriangle>)
    requires |stack| >= 1
  {
    var target := TargetOrientation(side);
    var k := CurrentEdgeStop(stack, c, target, |stack| - 1);
    (stack[..k + 1] + [c], CurrentEdgeFan(stack, c, target, |stack| - 1))
  }

  /** Every corner of every triangle belongs to the set. */
  predicate CornersIn(triangles: seq<PointTriangle>, vertices: set<Point>)
  {
    forall t :: t in triangles ==> t.p1 in vertices && t.p2 in vertices && t.p3 in vertices
  }

  lemma {:induction false} CurrentEdgeFanShape(stack: seq<Point>, c: Point, target: Orientation, i: nat)
    requires i < |stack|
    ensures |CurrentEdgeFan(stack, c, target, i)| == i - CurrentEdgeStop(stack, c, target, i)
    ensures forall t :: t in CurrentEdgeFan(stack, c, target, i) ==> t.p1 == c && t.p2 in stack && t.p3 in stack
    decreases i
  {
    if i > 0 && Orient(stack[i - 1], stack[i], c) == target {
      CurrentEdgeFanShape(stack, c, target, i - 1);
    }
  }

  /** The j-th triangle joins the current point to the j-th pair from index
      i downwards, and that pair has the target orientation with it. */
  predicate PoppedPairs(stack: seq<Point>, c: Point, target: Orientation, i: nat, fan: seq<PointTriangle>)
    requires i < |stack|
  {
    forall j {:trigger fan[j]} :: 0 <= j < |fan| ==>
      && j < i
      && fan[j] == PointTriangle(c, stack[i - j], stack[i - j - 1])
      && Orient(stack[i - j - 1], stack[i - j], c) == target
  }

  /** The popping loop emits one triangle per popped pair, in popping order,
      and pops only pairs with the target orientation. */
  lemma {:induction false} CurrentEdgeFanTriangles(stack: seq<Point>, c: Point, target: Orientation, i: nat)
    requires i < |stack|
    ensures PoppedPairs(stack, c, target, i, CurrentEdgeFan(stack, c, target, i))
    decreases i
  {
    if i > 0 && Orient(stack[i - 1], stack[i], c) == target {
      CurrentEdgeFanTriangles(stack, c, target, i - 1);
      var rest := CurrentEdgeFan(stack, c, target, i - 1);
      var fan := CurrentEdgeFan(stack, c, target, i);
      assert fan == [PointTriangle(c, stack[i], stack[i - 1])] + rest;
      forall j | 0 <= j < |fan|
        ensures j < i && fan[j] == PointTriangle(c, stack[i - j], stack[i - j - 1])
        ensures Orient(stack[i - j - 1], stack[i - j], c) == target
      {
        if j > 0 {
          var j' := j - 1;
          assert fan[j] == rest[j'];
          assert j' < i - 1 && rest[j'] == PointTriangle(c, stack[i - 1 - j'], stack[i - 1 - j' - 1]);
          assert i - 1 - j' == i - j;
        }
      }
    }
  }

  /** The same-side step never empties the stack: it emits one triangle per
      popped point, then pushes the current point at the back, so triangles
      plus stack size grow by exactly one. */
  lemma CurrentEdgeStepCounts(stack: seq<Point>, c: Point, side: Side)
    requires |stack| >= 1
    ensures var (stack', fan) := CurrentEdgeStep(stack, c, side);
      && |stack'| >= 2 && stack'[|stack'| - 1] == c
      && stack'[..|stack'| - 1] == stack[..|stack'| - 1]
      && |fan| + |stack'| == |stack| + 1
      && forall t :: t in fan ==> t.p1 == c && t.p2 in stack && t.p3 in stack
  {
    var target := TargetOrientation(side);
    var k := CurrentEdgeStop(stack, c, target, |stack| - 1);
    var fan := CurrentEdgeFan(stack, c, target, |stack| - 1);
    CurrentEdgeFanShape(stack, c, target, |stack| - 1);
    var stack' := stack[..k + 1] + [c];
    assert CurrentEdgeStep(stack, c, side) == (stack', fan);
    assert |stack'| == k + 2;
    assert stack'[..|stack'| - 1] == stack[..k + 1];
  }

  /** The triangles of `_build_triangles_opposite_edge`: the current point with
      every pair of neighbours on the stack. */
  function OppositeFan(stack: seq<Point>, c: Point): (fan: seq<PointTriangle>)
    requires |stack| >= 1
    ensures |fan| == |stack| - 1
    ensures forall i :: 0 <= i < |fan| ==> fan[i] == PointTriangle(c, stack[i], stack[i + 1])
  {
    seq(|stack| - 1, i requires 0 <= i < |stack| - 1 => PointTriangle(c, stack[i], stack[i + 1]))
  }

  /** `_build_triangles_opposite_edge` as written: pop the back, pop the front,
      push the old back and then the current point at the front. Every point
      between the old front and the old back stays on the stack. */
  function OppositeEdgeStepAsWritten(stack: seq<Point>, c: Point): (seq<Point>, seq<PointTriangle>)
    requires |stack| >= 1
  {
    var back := stack[|stack| - 1];
    var rest := if |stack| == 1 then [] else stack[1..|stack| - 1];
    ([c, back] + rest, OppositeFan(stack, c))
  }

  /** `_build_triangles_opposite_edge` as its comments describe it: only the
      current point and the previous back remain. */
  function OppositeEdgeStep(stack: seq<Point>, c: Point): (seq<Point>, seq<PointTriangle>)
    requires |stack| >= 1
  {
    ([c, stack[|stack| - 1]], OppositeFan(stack, c))
  }

  /** The opposite-side triangles form a fan around the current point that
      covers the whole stack: each triangle has the current point first, each
      starts where the previous one ended, the first starts at the front of
      the stack and the last ends at its back. */
  lemma OppositeFanIsFan(stack: seq<Point>, c: Point)
    requires |stack| >= 2
    ensures var fan := OppositeFan(stack, c);
      && |fan| == |stack| - 1
      && fan[0].p2 == stack[0] && fan[|fan| - 1].p3 == stack[|stack| - 1]
      && (forall i :: 0 <= i < |fan| ==> fan[i].p1 == c)
      && forall i :: 0 <= i < |fan| - 1 ==> fan[i].p3 == fan[i + 1].p2
  {
  }

  /** The opposite-side step emits `|stack| - 1` triangles, each with the
      current point first, and leaves exactly the current point and the
      previous back, so triangles plus stack size grow by exactly one. */
  lemma OppositeEdgeStepCounts(stack: seq<Point>, c: Point)
    requires |stack| >= 1
    ensures var (stack', fan) := OppositeEdgeStep(stack, c);
      && stack' == [c, stack[|stack| - 1]]
      && |fan| == |stack| - 1
      && |fan| + |stack'| == |stack| + 1
      && forall t :: t in fan ==> t.p1 == c && t.p2 in stack && t.p3 in stack
  {
    var fan := OppositeFan(stack, c);
    forall t | t in fan
      ensures t.p1 == c && t.p2 in stack && t.p3 in stack
    {
      var i :| 0 <= i < |fan| && fan[i] == t;
    }
  }

  /** As written, the opposite-side step keeps the stack's length when it held
      three or more points: the sum of triangles and stack size then grows by
      |stack| - 1 instead of one. */
  lemma OppositeEdgeStepAsWrittenKeepsLength(stack: seq<Point>, c: Point)
    requires |stack| >= 2
    ensures |OppositeEdgeStepAsWritten(stack, c).0| == |stack|
    ensures |OppositeEdgeStepAsWritten(stack, c).1| + |OppositeEdgeStepAsWritten(stack, c).0| == |stack| + |stack| - 1
  {
  }

  /** `_build_triangles_current_edge` over the deque and the result vector. */
  method BuildTrianglesCurrentEdge(stack: seq<Point>, result: seq<PointTriangle>, c: Point, side: Side)
    returns (stack': seq<Point>, result': seq<PointTriangle>)
    requires |stack| >= 1
    ensures stack' == CurrentEdgeStep(stack, c, side).0
    ensures result' == result + CurrentEdgeStep(stack, c, side).1
  {
    var target := TargetOrientation(side);
    var i := |stack| - 1;
    result' := result;
    while i > 0 && Orient(stack[i - 1], stack[i], c) == target
      invariant 0 <= i < |stack|
      invariant CurrentEdgeStop(stack, c, target, i) == CurrentEdgeStop(stack, c, target, |stack| - 1)
      invariant result' + CurrentEdgeFan(stack, c, target, i) == result + CurrentEdgeFan(stack, c, target, |stack| - 1)
    {
      result' := result' + [PointTriangle(c, stack[i], stack[i - 1])];
      i := i - 1;
    }
    stack' := stack[..i + 1] + [c];
  }

  /** `_build_triangles_opposite_edge` with only the current point and the
      previous back left on the stack. */
  method BuildTrianglesOppositeEdge(stack: seq<Point>, result: seq<PointTriangle>, c: Point)
    returns (stack': seq<Point>, result': seq<PointTriangle>)
    requires |stack| >= 1
    ensures stack' == OppositeEdgeStep(stack, c).0
    ensures result' == result + OppositeEdgeStep(stack, c).1
  {
    result' := result;
    for i := 0 to |stack| - 1
      invariant result' == result + OppositeFan(stack, c)[..i]
    {
      assert OppositeFan(stack, c)[..i + 1] == OppositeFan(stack, c)[..i] + [PointTriangle(c, stack[i], stack[i + 1])];
      result' := result' + [PointTriangle(c, stack[i], stack[i + 1])];
    }
    assert OppositeFan(stack, c)[..|stack| - 1] == OppositeFan(stack, c);
    var back := stack[|stack| - 1];
    stack' := [c, back];
  }

  // ---------------------------------------------------------------------------
  // The whole triangulation

  /** The full point list: top, the merged chains, bottom. */
  function PolygonPoints(polygon: MonotonePolygon): seq<(Point, Side)>
    requires polygon.bottom.Some?
  {
    [(polygon.top, TopOrBottom)] + MergeChains(polygon.left, polygon.right) + [(polygon.bottom.value, TopOrBottom)]
  }

  /** The list a finished monotone polygon is triangulated along never rises:
      the top, the merged chains, then the bottom. */
  lemma PolygonPointsNonIncreasing(polygon: MonotonePolygon)
    requires MonotoneFinished(polygon)
    ensures NonIncreasing(PolygonPoints(polygon))
  {
    var merged := MergeChains(polygon.left, polygon.right);
    MonotoneFinishedShape(polygon);
    MergeChainsSides(polygon.left, polygon.right);
    MergeChainsKeepsChains(polygon.left, polygon.right);
    var points := PolygonPoints(polygon);
    forall j | 0 <= j < |merged|
      ensures Lt(merged[j].0, polygon.top) && !Lt(merged[j].0, polygon.bottom.value)
    {
      var q := merged[j].0;
      assert q in polygon.left || q in polygon.right;
    }
    forall i | 0 <= i < |points| - 1
      ensures !Lt(points[i].0, points[i + 1].0)
    {
      if 0 < i < |points| - 2 {
        assert points[i] == merged[i - 1] && points[i + 1] == merged[i];
      } else if i == 0 && |merged| > 0 {
        assert points[1] == merged[0];
      } else if i > 0 {
        assert points[i] == merged[i - 1];
      }
    }
  }

  /** One iteration of the main loop. */
  function Step(stack: seq<Point>, side: Side, q: (Point, Side)): (seq<Point>, seq<PointTriangle>)
    requires |stack| >= 1
  {
    if side == q.1 then CurrentEdgeStep(stack, q.0, side) else OppositeEdgeStep(stack, q.0)
  }

  /** The main loop from index i on: the final stack and result. */
  function Run(points: seq<(Point, Side)>, i: nat, stack: seq<Point>, side: Side, result: seq<PointTriangle>): (seq<Point>, seq<PointTriangle>)
    requires i <= |points| && |stack| >= 2
    decreases |points| - i
  {
    if i == |points| then (stack, result)
    else
      var (stack', fan) := Step(stack, side, points[i]);
      StepKeepsTwo(stack, side, points[i]);
      Run(points, i + 1, stack', points[i].1, result + fan)
  }

  lemma StepKeepsTwo(stack: seq<Point>, side: Side, q: (Point, Side))
    requires |stack| >= 1
    ensures |Step(stack, side, q).0| >= 2
  {
    if side == q.1 {
      CurrentEdgeStepCounts(stack, q.0, side);
    }
  }

  /** `triangulate_monotone_polygon` as a function of the polygon. */
  function Triangulation(polygon: MonotonePolygon): Result<seq<PointTriangle>>
  {
    if polygon.bottom.None? then Err("called `Option::unwrap()` on a `None` value")
    else
      var points := PolygonPoints(polygon);
      Ok(Run(points, 2, [points[0].0, points[1].0], points[1].1, []).1)
  }

  /** The vertices of a polygon. */
  function Vertices(polygon: MonotonePolygon): set<Point>
  {
    {polygon.top} + (if polygon.bottom.Some? then {polygon.bottom.value} else {}) + set q | q in polygon.left + polygon.right
  }

  /** One step keeps the stack and the new triangles among the vertices. */
  lemma StepInVertices(stack: seq<Point>, side: Side, q: (Point, Side), vertices: set<Point>)
    requires |stack| >= 1
    requires q.0 in vertices && forall x :: x in stack ==> x in vertices
    ensures forall x :: x in Step(stack, side, q).0 ==> x in vertices
    ensures CornersIn(Step(stack, side, q).1, vertices)
  {
    if side == q.1 {
      CurrentEdgeStepCounts(stack, q.0, side);
      var stack' := Step(stack, side, q).0;
      forall x | x in stack' ensures x in vertices {
        var j :| 0 <= j < |stack'| && stack'[j] == x;
        if j < |stack'| - 1 {
          assert x == stack[j];
        }
      }
    } else {
      OppositeEdgeStepCounts(stack, q.0);
    }
  }

  /** The invariant of the main loop: triangles plus stack size grow by one
      per point; the stack ends with two points once a step has followed a
      chain point; every corner stays among the given vertices. */
  lemma {:induction false} RunCounts(points: seq<(Point, Side)>, i: nat, stack: seq<Point>, side: Side, result: seq<PointTriangle>, vertices: set<Point>)
    requires 2 <= i <= |points| && |stack| >= 2
    requires forall j :: 1 <= j < |points| - 1 ==> points[j].1 != TopOrBottom
    requires points[|points| - 1].1 == TopOrBottom
    requires side == points[i - 1].1
    requires forall j :: 0 <= j < |points| ==> points[j].0 in vertices
    requires forall q :: q in stack ==> q in vertices
    requires CornersIn(result, vertices)
    ensures var (stack', result') := Run(points, i, stack, side, result);
      && |result'| + |stack'| == |result| + |stack| + (|points| - i)
      && (i < |points| ==> |stack'| == 2)
      && CornersIn(result', vertices)
    decreases |points| - i
  {
    if i < |points| {
      var (stack', fan) := Step(stack, side, points[i]);
      StepKeepsTwo(stack, side, points[i]);
      if side == points[i].1 {
        CurrentEdgeStepCounts(stack, points[i].0, side);
        assert i < |points| - 1;
      } else {
        OppositeEdgeStepCounts(stack, points[i].0);
      }
      StepInVertices(stack, side, points[i], vertices);
      assert CornersIn(result + fan, vertices);
      RunCounts(points, i + 1, stack', points[i].1, result + fan, vertices);
    }
  }

  lemma MergeChainsSides(left: seq<Point>, right: seq<Point>)
    ensures forall j :: 0 <= j < |MergeChains(left, right)| ==>
      MergeChains(left, right)[j].1 != TopOrBottom &&
      MergeChains(left, right)[j].0 in left + right
    decreases |left| + |right|
  {
    if left != [] && (right == [] || !Lt(left[0], right[0])) {
      MergeChainsSides(left[1..], right);
      assert forall q :: q in left[1..] + right ==> q in left + right;
    } else if right != [] {
      MergeChainsSides(left, right[1..]);
      assert forall q :: q in left + right[1..] ==> q in left + right;
    }
  }

  /** `triangulate_monotone_polygon` panics without a bottom; otherwise it
      emits one triangle per chain point and uses only the polygon's
      vertices. */
  lemma TriangulationCounts(polygon: MonotonePolygon)
    ensures Triangulation(polygon).Err? <==> polygon.bottom.None?
    ensures Triangulation(polygon).Ok? ==> |Triangulation(polygon).value| == |polygon.left| + |polygon.right|
    ensures Triangulation(polygon).Ok? ==> CornersIn(Triangulation(polygon).value, Vertices(polygon))
  {
    if polygon.bottom.Some? {
      var points := PolygonPoints(polygon);
      var merged := MergeChains(polygon.left, polygon.right);
      MergeChainsKeepsChains(polygon.left, polygon.right);
      MergeChainsSides(polygon.left, polygon.right);
      var vs := Vertices(polygon);
      forall j | 0 <= j < |points| ensures points[j].0 in vs {
        if 0 < j < |points| - 1 {
          assert points[j] == merged[j - 1];
        }
      }
      forall j | 1 <= j < |points| - 1 ensures points[j].1 != TopOrBottom {
        assert points[j] == merged[j - 1];
      }
      RunCounts(points, 2, [points[0].0, points[1].0], points[1].1, [], vs);
    }
  }

  /** `triangulate_monotone_polygon`: merges the chains, seeds the stack with
      the first two points and runs one step per remaining point. */
  method TriangulateMonotonePolygon(polygon: MonotonePolygon) returns (r: Result<seq<PointTriangle>>)
    ensures r == Triangulation(polygon)
  {
    var result: seq<PointTriangle> := [];
    var points := MergeSides(polygon);
    if polygon.bottom.None? {
      return Err("called `Option::unwrap()` on a `None` value");
    }
    points := points + [(polygon.bottom.value, TopOrBottom)];
    assert points == PolygonPoints(polygon);
    var stack := [points[0].0, points[1].0];
    var side := points[1].1;
    for i := 2 to |points|
      invariant |stack| >= 2
      invariant side == points[i - 1].1
      invariant Run(points, i, stack, side, result) == Run(points, 2, [points[0].0, points[1].0], points[1].1, [])
    {
      StepKeepsTwo(stack, side, points[i]);
      if side == points[i].1 {
        stack, result := BuildTrianglesCurrentEdge(stack, result, points[i].0, side);
      } else {
        stack, result := BuildTrianglesOppositeEdge(stack, result, points[i].0);
      }
      side := points[i].1;
    }
    return Ok(result);
  }

  /** The crate's single test polygon: top (0, 10), left (-1, 7), right
      (1, 5), bottom (0, 0) gives two triangles. */
  lemma TriangulationTestPolygon()
    ensures var top, l, r, b := Point(0.0, 10.0), Point(-1.0, 7.0), Point(1.0, 5.0), Point(0.0, 0.0);
      Triangulation(MonotonePolygon(top, Some(b), [l], [r])) == Ok([PointTriangle(r, top, l), PointTriangle(b, r, l)])
  {
    var top, l, r, b := Point(0.0, 10.0), Point(-1.0, 7.0), Point(1.0, 5.0), Point(0.0, 0.0);
    var polygon := MonotonePolygon(top, Some(b), [l], [r]);
    assert MergeChains([], [r]) == [(r, Right)];
    assert MergeChains([l], [r]) == [(l, Left), (r, Right)];
    var points := PolygonPoints(polygon);
    assert points == [(top, TopOrBottom), (l, Left), (r, Right), (b, TopOrBottom)];
    var fan3 := OppositeFan([top, l], r);
    assert fan3 == [PointTriangle(r, top, l)];
    var fan4 := OppositeFan([r, l], b);
    assert fan4 == [PointTriangle(b, r, l)];
    assert Step([top, l], Left, points[2]) == ([r, l], fan3);
    assert Step([r, l], Right, points[3]) == ([b, l], fan4);
    assert Run(points, 4, [b, l], TopOrBottom, fan3 + fan4) == ([b, l], fan3 + fan4);
    assert Run(points, 3, [r, l], Right, fan3) == ([b, l], fan3 + fan4);
    assert [] + fan3 == fan3;
    assert Run(points, 2, [top, l], Left, []) == ([b, l], fan3 + fan4);
    assert Triangulation(polygon) == Ok(Run(points, 2, [top, l], Left, []).1);
    assert fan3 + fan4 == [PointTriangle(r, top, l), PointTriangle(b, r, l)];
  }

  /** `t` lists the corners of `u` in the same cyclic order. */
  predicate SameCycle(t: PointTriangle, u: PointTriangle)
  {
    t == u || t == PointTriangle(u.p2, u.p3, u.p1) || t == PointTriangle(u.p3, u.p1, u.p2)
  }

  /** The crate's test expects `PointTriangle::new(top, left, right)` and
      `PointTriangle::new(left, right, bottom)`. The model's first triangle is
      the first expected one up to rotation; its second is the second
      expected one reversed: both of the model's triangles turn
      counter-clockwise, while (left, right, bottom) turns clockwise. */
  lemma TriangulationTestPolygonAgainstTest()
    ensures var top, l, r, b := Point(0.0, 10.0), Point(-1.0, 7.0), Point(1.0, 5.0), Point(0.0, 0.0);
      var result := Triangulation(MonotonePolygon(top, Some(b), [l], [r]));
      && result.Ok? && |result.value| == 2
      && SameCycle(result.value[0], PointTriangle(top, l, r))
      && !SameCycle(result.value[1], PointTriangle(l, r, b))
      && SameCycle(result.value[1], PointTriangle(l, b, r))
      && Orient(top, l, r) == CounterClockwise && Orient(r, top, l) == CounterClockwise
      && Orient(l, r, b) == Clockwise && Orient(b, r, l) == CounterClockwise
  {
    TriangulationTestPolygon();
  }

  /** The polygon with top (0, 10), left chain (-1, 7), (-3, 5), right chain
      (1, 2) and bottom (0, 0): the steps as written leave three points on the
      stack after (1, 2) and emit four triangles for three chain points; the
      corrected steps emit three. */
  lemma OppositeEdgeAsWrittenOvercounts()
    ensures var top, l1, l2, r1, b := Point(0.0, 10.0), Point(-1.0, 7.0), Point(-3.0, 5.0), Point(1.0, 2.0), Point(0.0, 0.0);
      var (st3, fan3) := CurrentEdgeStep([top, l1], l2, Left);
      var (st4, fan4) := OppositeEdgeStepAsWritten(st3, r1);
      var (st5, fan5) := OppositeEdgeStepAsWritten(st4, b);
      && st3 == [top, l1, l2] && fan3 == []
      && st4 == [r1, l2, l1]
      && |fan3| + |fan4| + |fan5| == 4
      && |Triangulation(MonotonePolygon(top, Some(b), [l1, l2], [r1])).value| == 3
  {
    var top, l1, l2, r1, b := Point(0.0, 10.0), Point(-1.0, 7.0), Point(-3.0, 5.0), Point(1.0, 2.0), Point(0.0, 0.0);
    assert Orient(top, l1, l2) == Clockwise;
    assert CurrentEdgeStop([top, l1], l2, Collinear, 1) == 1;
    TriangulationCounts(MonotonePolygon(top, Some(b), [l1, l2], [r1]));
  }
}
