/** The sweep-line builder of `face_triangulation.rs`: a line sweeps the
    polygon's vertices from the highest down, keeping the intervals between
    active segments and the monotone polygons growing inside them.

    Each `Rc<RefCell<Interval>>` cell is an entry of the arena `intervals`,
    addressed by its index; `segment_to_line` maps a segment to the index of
    its interval, so two segments share an interval exactly when they map to
    the same index. */
module MonotoneBuilder {
  import opened Wrappers
  import opened Points
  import opened MonotonePolygons
  import opened FaceTriangulation

  // ---------------------------------------------------------------------------
  // Polygon bookkeeping, as values

  /** Every polygon of the list, cloned with its bottom set to p: how
      polygons leave the sweep. */
  function FinishAll(polygons: seq<MonotonePolygon>, p: Point): seq<MonotonePolygon>
  {
    seq(|polygons|, i requires 0 <= i < |polygons| => polygons[i].(bottom := Some(p)))
  }

  function PushRight(polygon: MonotonePolygon, p: Point): MonotonePolygon
  {
    polygon.(right := polygon.right + [p])
  }

  function PushLeft(polygon: MonotonePolygon, p: Point): MonotonePolygon
  {
    polygon.(left := polygon.left + [p])
  }

  /** `after` keeps `before` as its prefix and every polygon added behind it
      is finished at p. */
  predicate EmittedAt(before: seq<MonotonePolygon>, after: seq<MonotonePolygon>, p: Point)
  {
    && |before| <= |after|
    && after[..|before|] == before
    && forall i :: |before| <= i < |after| ==> after[i].bottom == Some(p)
  }

  lemma EmittedAtFinishAll(before: seq<MonotonePolygon>, polygons: seq<MonotonePolygon>, p: Point)
    ensures EmittedAt(before, before + FinishAll(polygons, p), p)
  {
    assert (before + FinishAll(polygons, p))[..|before|] == before;
  }

  lemma EmittedAtTransitive(a: seq<MonotonePolygon>, b: seq<MonotonePolygon>, c: seq<MonotonePolygon>, p: Point)
    requires EmittedAt(a, b, p) && EmittedAt(b, c, p)
    ensures EmittedAt(a, c, p)
  {
    assert c[..|a|] == c[..|b|][..|a|];
  }

  /** The polygons of `process_normal_point` as written, for an interval
      holding more than one polygon: on the right side all but the first are
      finished; on the left side the `if let` keeps the interval's `RefMut`
      alive while its body borrows the interval again, which panics. */
  function NormalPolygonsAsWritten(polygons: seq<MonotonePolygon>, onRight: bool, p: Point): Result<(seq<MonotonePolygon>, seq<MonotonePolygon>)>
  {
    if |polygons| <= 1 then Ok(([], polygons))
    else if onRight then Ok((FinishAll(polygons[1..], p), polygons[..1]))
    else Err("already borrowed: BorrowMutError")
  }

  /** The polygons of `process_normal_point` as intended: the finished
      polygons and the one kept, which is the first on the right side and the
      last on the left side. */
  function NormalPolygons(polygons: seq<MonotonePolygon>, onRight: bool, p: Point): (seq<MonotonePolygon>, seq<MonotonePolygon>)
  {
    if |polygons| <= 1 then ([], polygons)
    else if onRight then (FinishAll(polygons[1..], p), polygons[..1])
    else (FinishAll(polygons[..|polygons| - 1], p), [polygons[|polygons| - 1]])
  }

  /** At a normal point every polygon of the interval but one is finished at
      p, and the one kept is the polygon next to the side the point is on;
      the code as written agrees except on the left side of an interval with
      several polygons, where it panics. */
  lemma NormalPolygonsKeepsOne(polygons: seq<MonotonePolygon>, onRight: bool, p: Point)
    ensures var (emitted, kept) := NormalPolygons(polygons, onRight, p);
      && |emitted| + |kept| == |polygons|
      && |kept| == (if polygons == [] then 0 else 1)
      && (polygons != [] ==> kept[0] == if onRight then polygons[0] else polygons[|polygons| - 1])
      && (forall i :: 0 <= i < |emitted| ==> Finished(emitted[i]) && emitted[i].bottom == Some(p))
      && (forall i :: 0 <= i < |emitted| ==> emitted[i] == polygons[if onRight then i + 1 else i].(bottom := Some(p)))
    ensures NormalPolygonsAsWritten(polygons, onRight, p).Err? <==> !onRight && |polygons| > 1
    ensures NormalPolygonsAsWritten(polygons, onRight, p).Ok? ==>
      NormalPolygonsAsWritten(polygons, onRight, p).value == NormalPolygons(polygons, onRight, p)
  {
  }

  /** The interval after `process_normal_point` at p, with the polygons it
      finishes, or the panic of `replace_segment` when `edgeTop` is neither
      side. */
  function NormalPointInterval(interval: Interval, edgeTop: Segment, edgeBottom: Segment, p: Point): (r: Result<(Interval, seq<MonotonePolygon>)>)
    ensures r.Err? <==> edgeTop != interval.leftSegment && edgeTop != interval.rightSegment
    ensures r.Ok? ==> var (iv, emitted) := r.value;
      && iv.lastSeen == p
      && |iv.polygonsList| == (if interval.polygonsList == [] then 0 else 1)
      && |emitted| + |iv.polygonsList| == |interval.polygonsList|
      && (forall i :: 0 <= i < |emitted| ==> emitted[i].bottom == Some(p))
      && (edgeTop == interval.leftSegment ==> iv.leftSegment == edgeBottom && iv.rightSegment == interval.rightSegment)
      && (edgeTop != interval.leftSegment ==> iv.leftSegment == interval.leftSegment && iv.rightSegment == edgeBottom)
  {
    var onRight := edgeTop == interval.rightSegment;
    var (emitted, kept) := NormalPolygons(interval.polygonsList, onRight, p);
    NormalPolygonsKeepsOne(interval.polygonsList, onRight, p);
    var kept' := if kept == [] then [] else [if onRight then PushRight(kept[0], p) else PushLeft(kept[0], p)];
    var replaced := ReplaceSegment(interval.(lastSeen := p, polygonsList := kept'), edgeTop, edgeBottom);
    if replaced.Err? then Err(replaced.error) else Ok((replaced.value, emitted))
  }

  /** The polygons a normal point finishes: all but the one kept. */
  function NormalFinishing(polygons: seq<MonotonePolygon>, onRight: bool): seq<MonotonePolygon>
  {
    if |polygons| <= 1 then [] else if onRight then polygons[1..] else polygons[..|polygons| - 1]
  }

  lemma NormalPointFinishes(interval: Interval, edgeTop: Segment, edgeBottom: Segment, p: Point)
    requires NormalPointInterval(interval, edgeTop, edgeBottom, p).Ok?
    ensures NormalPointInterval(interval, edgeTop, edgeBottom, p).value.1
      == FinishAll(NormalFinishing(interval.polygonsList, edgeTop == interval.rightSegment), p)
  {
  }

  /** The kept polygon of a normal point gains p on the chain of the side the
      point is on. */
  lemma NormalPointExtendsKeptPolygon(interval: Interval, edgeTop: Segment, edgeBottom: Segment, p: Point)
    requires NormalPointInterval(interval, edgeTop, edgeBottom, p).Ok?
    requires interval.polygonsList != []
    ensures var iv := NormalPointInterval(interval, edgeTop, edgeBottom, p).value.0;
      var polygons := interval.polygonsList;
      if edgeTop == interval.rightSegment then
        iv.polygonsList == [PushRight(polygons[0], p)]
      else
        iv.polygonsList == [PushLeft(polygons[|polygons| - 1], p)]
  {
    NormalPolygonsKeepsOne(interval.polygonsList, edgeTop == interval.rightSegment, p);
  }

  /** The two intervals after `process_merge_point` joins the left interval
      `l` with the right interval `r` at p. */
  function MergeIntervals(l: Interval, r: Interval, p: Point): (Interval, Interval)
  {
    var lp := if l.polygonsList == [] then [] else l.polygonsList[..|l.polygonsList| - 1] + [PushRight(l.polygonsList[|l.polygonsList| - 1], p)];
    var rp := if r.polygonsList == [] then [] else [PushLeft(r.polygonsList[0], p)] + r.polygonsList[1..];
    (l.(rightSegment := r.rightSegment, lastSeen := p, polygonsList := lp + rp), r.(polygonsList := []))
  }

  /** A merge spans both intervals: the joined interval runs from the left
      interval's left side to the right interval's right side and holds all
      polygons of both, the last of the left interval and the first of the
      right one gaining p on their facing chains; the right interval is left
      empty. */
  lemma MergeIntervalsSpans(l: Interval, r: Interval, p: Point)
    ensures var (joined, emptied) := MergeIntervals(l, r, p);
      && joined.leftSegment == l.leftSegment && joined.rightSegment == r.rightSegment
      && joined.lastSeen == p
      && |joined.polygonsList| == |l.polygonsList| + |r.polygonsList|
      && (l.polygonsList != [] ==> joined.polygonsList[|l.polygonsList| - 1] == PushRight(l.polygonsList[|l.polygonsList| - 1], p))
      && (r.polygonsList != [] ==> joined.polygonsList[|l.polygonsList|] == PushLeft(r.polygonsList[0], p))
      && (forall i :: 0 <= i < |l.polygonsList| - 1 ==> joined.polygonsList[i] == l.polygonsList[i])
      && (forall i :: 1 <= i < |r.polygonsList| ==> joined.polygonsList[|l.polygonsList| + i] == r.polygonsList[i])
      && emptied.polygonsList == [] && emptied.leftSegment == r.leftSegment && emptied.rightSegment == r.rightSegment
  {
  }

  /** The polygons of `process_split_point` at p: those kept in the found
      interval, those moved to the new interval on its right, and those
      finished. */
  function SplitPolygons(polygons: seq<MonotonePolygon>, p: Point): (seq<MonotonePolygon>, seq<MonotonePolygon>, seq<MonotonePolygon>)
  {
    if |polygons| == 1 then
      var first := polygons[0];
      var newTop := if first.right == [] then first.top else first.right[|first.right| - 1];
      ([PushRight(first, p)], [PushLeft(NewMonotonePolygon(newTop), p)], [])
    else if |polygons| >= 2 then
      ([PushRight(polygons[0], p)], [PushLeft(polygons[|polygons| - 1], p)], FinishAll(polygons[1..|polygons| - 1], p))
    else ([], [], [])
  }

  /** A split keeps one polygon on each side of p: the first polygon goes on
      with p on its right chain; the last one (or, when there was a single
      polygon, a new one topped by the lowest vertex of its right chain) goes
      on in the new interval with p on its left chain; the polygons in between
      are finished at p. */
  lemma SplitPolygonsShape(polygons: seq<MonotonePolygon>, p: Point)
    ensures var (kept, moved, emitted) := SplitPolygons(polygons, p);
      && |kept| == |moved| == (if polygons == [] then 0 else 1)
      && |emitted| == (if |polygons| >= 2 then |polygons| - 2 else 0)
      && (polygons != [] ==> kept[0] == PushRight(polygons[0], p))
      && (|polygons| >= 2 ==> moved[0] == PushLeft(polygons[|polygons| - 1], p))
      && (|polygons| == 1 ==>
            && moved[0].left == [p] && moved[0].right == [] && moved[0].bottom == None
            && moved[0].top == (if polygons[0].right == [] then polygons[0].top else polygons[0].right[|polygons[0].right| - 1]))
      && (forall i :: 0 <= i < |emitted| ==> emitted[i] == polygons[i + 1].(bottom := Some(p)))
  {
  }

  // ---------------------------------------------------------------------------
  // The shape of the polygons, as values

  /** Both chains of the polygon run strictly down from its top and end
      strictly above p, so p may be pushed on either. */
  predicate ChainsAbove(polygon: MonotonePolygon, p: Point)
  {
    && Descending([polygon.top] + polygon.left) && Descending([polygon.top] + polygon.right)
    && Lt(p, ChainEnd(polygon.top, polygon.left)) && Lt(p, ChainEnd(polygon.top, polygon.right))
  }

  predicate PolygonsDownTo(polygons: seq<MonotonePolygon>, q: Point)
  {
    forall k :: 0 <= k < |polygons| ==> MonotoneDownTo(polygons[k], q)
  }

  predicate PolygonsAbove(polygons: seq<MonotonePolygon>, p: Point)
  {
    forall k :: 0 <= k < |polygons| ==> ChainsAbove(polygons[k], p)
  }

  /** Every polygon still open in an interval has been grown down to q. */
  predicate IntervalsDownTo(intervals: seq<Interval>, q: Point)
  {
    forall i :: 0 <= i < |intervals| ==> PolygonsDownTo(intervals[i].polygonsList, q)
  }

  /** Every chain of every polygon open in an interval ends strictly above p. */
  predicate IntervalsAbove(intervals: seq<Interval>, p: Point)
  {
    forall i :: 0 <= i < |intervals| ==> PolygonsAbove(intervals[i].polygonsList, p)
  }

  predicate AllMonotoneFinished(polygons: seq<MonotonePolygon>)
  {
    forall k :: 0 <= k < |polygons| ==> MonotoneFinished(polygons[k])
  }

  /** Chains that end strictly above p end at or above it; chains that end
      at or above `prev` end strictly above any p below `prev`. */
  lemma IntervalsAboveLower(intervals: seq<Interval>, p: Point, prev: Point)
    ensures IntervalsAbove(intervals, p) ==> IntervalsDownTo(intervals, p)
    ensures IntervalsDownTo(intervals, prev) && Lt(p, prev) ==> IntervalsAbove(intervals, p)
  {
  }

  /** Polygons grown down to p leave the sweep at p as finished monotone
      polygons. */
  lemma FinishAllMonotone(finished: seq<MonotonePolygon>, polygons: seq<MonotonePolygon>, p: Point)
    requires AllMonotoneFinished(finished) && PolygonsDownTo(polygons, p)
    ensures AllMonotoneFinished(finished + FinishAll(polygons, p))
  {
    assert forall k :: |finished| <= k < |finished| + |polygons| ==>
      (finished + FinishAll(polygons, p))[k] == polygons[k - |finished|].(bottom := Some(p));
  }

  /** p pushed on the right chain of a polygon whose chains end above it. */
  lemma PushRightDownTo(polygon: MonotonePolygon, p: Point)
    requires Descending([polygon.top] + polygon.left) && !Lt(ChainEnd(polygon.top, polygon.left), p)
    requires Descending([polygon.top] + polygon.right) && Lt(p, ChainEnd(polygon.top, polygon.right))
    ensures MonotoneDownTo(PushRight(polygon, p), p)
    ensures ChainEnd(polygon.top, PushRight(polygon, p).left) == ChainEnd(polygon.top, polygon.left)
  {
    DescendingPush(polygon.top, polygon.right, p);
  }

  /** p pushed on the left chain of a polygon whose chains end above it. */
  lemma PushLeftDownTo(polygon: MonotonePolygon, p: Point)
    requires Descending([polygon.top] + polygon.right) && !Lt(ChainEnd(polygon.top, polygon.right), p)
    requires Descending([polygon.top] + polygon.left) && Lt(p, ChainEnd(polygon.top, polygon.left))
    ensures MonotoneDownTo(PushLeft(polygon, p), p)
  {
    DescendingPush(polygon.top, polygon.left, p);
  }

  /** The chain a normal point at p extends ends strictly above p: the right
      chain of the first polygon on the right side, the left chain of the
      last one on the left side. */
  predicate NormalChainFree(interval: Interval, edgeTop: Segment, p: Point)
  {
    var polygons := interval.polygonsList;
    polygons != [] ==>
      if edgeTop == interval.rightSegment then Lt(p, ChainEnd(polygons[0].top, polygons[0].right))
      else Lt(p, ChainEnd(polygons[|polygons| - 1].top, polygons[|polygons| - 1].left))
  }

  /** A normal point keeps the interval's polygons grown down to p and
      finishes the others as monotone polygons. */
  lemma NormalPointMonotone(interval: Interval, edgeTop: Segment, edgeBottom: Segment, p: Point)
    requires NormalPointInterval(interval, edgeTop, edgeBottom, p).Ok?
    requires PolygonsDownTo(interval.polygonsList, p) && NormalChainFree(interval, edgeTop, p)
    ensures var (iv, emitted) := NormalPointInterval(interval, edgeTop, edgeBottom, p).value;
      PolygonsDownTo(iv.polygonsList, p) && AllMonotoneFinished(emitted)
  {
    var polygons := interval.polygonsList;
    var onRight := edgeTop == interval.rightSegment;
    NormalPolygonsKeepsOne(polygons, onRight, p);
    if polygons != [] {
      NormalPointExtendsKeptPolygon(interval, edgeTop, edgeBottom, p);
      if onRight {
        PushRightDownTo(polygons[0], p);
      } else {
        PushLeftDownTo(polygons[|polygons| - 1], p);
      }
    }
  }

  /** The arena and the emitted list after a normal point in interval `id`
      keep their shape. */
  lemma NormalStepMonotone(intervals: seq<Interval>, finished: seq<MonotonePolygon>, id: nat, edgeTop: Segment, edgeBottom: Segment, p: Point)
    requires id < |intervals| && NormalPointInterval(intervals[id], edgeTop, edgeBottom, p).Ok?
    requires IntervalsDownTo(intervals, p) && AllMonotoneFinished(finished)
    requires NormalChainFree(intervals[id], edgeTop, p)
    ensures var (iv, emitted) := NormalPointInterval(intervals[id], edgeTop, edgeBottom, p).value;
      IntervalsDownTo(intervals[id := iv], p) && AllMonotoneFinished(finished + emitted)
  {
    NormalPointMonotone(intervals[id], edgeTop, edgeBottom, p);
  }

  /** After a normal point at p on the right side of an interval whose
      chains all end above p, the left chain it offers to every other segment
      still ends above p. */
  lemma NormalKeepsLeftChainsFree(interval: Interval, edgeTop: Segment, edgeBottom: Segment, p: Point)
    requires NormalPointInterval(interval, edgeTop, edgeBottom, p).Ok?
    requires PolygonsAbove(interval.polygonsList, p) && edgeTop == interval.rightSegment
    ensures var iv := NormalPointInterval(interval, edgeTop, edgeBottom, p).value.0;
      forall s :: s != iv.rightSegment ==> NormalChainFree(iv, s, p)
  {
    if interval.polygonsList != [] {
      NormalPointExtendsKeptPolygon(interval, edgeTop, edgeBottom, p);
    }
  }

  /** After a normal point at p on the right side of interval `id`, p may
      still be pushed on the left chain that the left side of any interval
      offers, when that side is not the edge the point continued with. */
  lemma SecondNormalChainFree(intervals: seq<Interval>, id: nat, edgeTop: Segment, edgeBottom: Segment, p: Point, j: nat, s: Segment)
    requires id < |intervals| && j < |intervals| && NormalPointInterval(intervals[id], edgeTop, edgeBottom, p).Ok?
    requires IntervalsAbove(intervals, p) && edgeTop == intervals[id].rightSegment
    requires s.top == p && edgeBottom.top != p
    requires s == intervals[id := NormalPointInterval(intervals[id], edgeTop, edgeBottom, p).value.0][j].leftSegment
    ensures NormalChainFree(intervals[id := NormalPointInterval(intervals[id], edgeTop, edgeBottom, p).value.0][j], s, p)
  {
    if j == id {
      NormalKeepsLeftChainsFree(intervals[id], edgeTop, edgeBottom, p);
    }
  }

  /** `SecondNormalChainFree` for every segment of a map into the arena. */
  lemma LeftSidesFreeAfterNormal(intervals: seq<Interval>, segmentToLine: map<Segment, nat>, id: nat, edgeTop: Segment, edgeBottom: Segment, p: Point)
    requires id < |intervals| && NormalPointInterval(intervals[id], edgeTop, edgeBottom, p).Ok?
    requires IntervalsAbove(intervals, p) && edgeTop == intervals[id].rightSegment && edgeBottom.top != p
    requires forall s :: s in segmentToLine ==> segmentToLine[s] < |intervals|
    ensures var now := intervals[id := NormalPointInterval(intervals[id], edgeTop, edgeBottom, p).value.0];
      forall s :: s in segmentToLine && s.top == p && s == now[segmentToLine[s]].leftSegment ==>
        NormalChainFree(now[segmentToLine[s]], s, p)
  {
    var now := intervals[id := NormalPointInterval(intervals[id], edgeTop, edgeBottom, p).value.0];
    forall s | s in segmentToLine && s.top == p && s == now[segmentToLine[s]].leftSegment
      ensures NormalChainFree(now[segmentToLine[s]], s, p)
    {
      SecondNormalChainFree(intervals, id, edgeTop, edgeBottom, p, segmentToLine[s], s);
    }
  }

  /** A merge of two intervals whose chains end above p leaves the joined
      interval's polygons grown down to p. */
  lemma MergeIntervalsMonotone(l: Interval, r: Interval, p: Point)
    requires PolygonsAbove(l.polygonsList, p) && PolygonsAbove(r.polygonsList, p)
    ensures PolygonsDownTo(MergeIntervals(l, r, p).0.polygonsList, p)
    ensures MergeIntervals(l, r, p).1.polygonsList == []
  {
    var lp, rp := l.polygonsList, r.polygonsList;
    MergeIntervalsSpans(l, r, p);
    if lp != [] {
      PushRightDownTo(lp[|lp| - 1], p);
    }
    if rp != [] {
      PushLeftDownTo(rp[0], p);
    }
  }

  /** A split of an interval whose chains end above p leaves both parts
      grown down to p and finishes the polygons in between as monotone
      polygons. */
  lemma SplitPolygonsMonotone(polygons: seq<MonotonePolygon>, p: Point)
    requires PolygonsAbove(polygons, p)
    ensures var (kept, moved, emitted) := SplitPolygons(polygons, p);
      PolygonsDownTo(kept, p) && PolygonsDownTo(moved, p) && AllMonotoneFinished(emitted)
  {
    SplitPolygonsShape(polygons, p);
    if polygons != [] {
      PushRightDownTo(polygons[0], p);
      if |polygons| >= 2 {
        PushLeftDownTo(polygons[|polygons| - 1], p);
        FinishAllMonotone([], polygons[1..|polygons| - 1], p);
      } else {
        var first := polygons[0];
        var newTop := ChainEnd(first.top, first.right);
        DescendingPush(newTop, [], p);
      }
    }
  }

  /** `find_interval_with_point`'s test of whether p lies strictly between
      the two sides of an interval at p's height. */
  predicate IntervalContains(interval: Interval, p: Point)
  {
    PointOnLineX(interval.leftSegment, p.y) < p.x && PointOnLineX(interval.rightSegment, p.y) > p.x
  }

  /** The interval between the vertical sides x = 0 and x = 10 contains
      (5, 5): the test as written treats it as outside and never returns it,
      while the corrected search can. */
  lemma FindIntervalAsWrittenRejectsContaining()
    ensures IntervalContains(
      Interval(Point(0.0, 10.0), Segment(Point(0.0, 10.0), Point(0.0, 0.0)), Segment(Point(10.0, 10.0), Point(10.0, 0.0)), []),
      Point(5.0, 5.0))
  {
  }

  // ---------------------------------------------------------------------------
  // The builder

  class MonotonePolygonBuilder {
    var segmentToLine: map<Segment, nat>
    var intervals: seq<Interval>
    var edges: seq<Segment>
    var pointToEdges: map<Point, seq<PointEdgeInfo>>
    var monotonePolygons: seq<MonotonePolygon>

    /** Every mapped segment names an interval of the arena. */
    ghost predicate Valid()
      reads this
    {
      forall s :: s in segmentToLine ==> segmentToLine[s] < |intervals|
    }

    /** No mapped segment and no side of an interval has its top below q:
        what the sweep keeps once it has reached q. */
    ghost predicate SidesAbove(q: Point)
      reads this
    {
      && (forall s :: s in segmentToLine ==> !Lt(s.top, q))
      && (forall i :: 0 <= i < |intervals| ==> !Lt(intervals[i].leftSegment.top, q) && !Lt(intervals[i].rightSegment.top, q))
    }

    /** Every open polygon has been grown down to q, and every emitted one is
        a finished monotone polygon: what the sweep keeps once it has
        processed q. */
    ghost predicate ShapedDownTo(q: Point)
      reads this
    {
      IntervalsDownTo(intervals, q) && AllMonotoneFinished(monotonePolygons)
    }

    /** Every chain of every open polygon ends strictly above p, and every
        emitted polygon is a finished monotone polygon: the state in which the
        sweep reaches p. */
    ghost predicate ShapedAbove(p: Point)
      reads this
    {
      IntervalsAbove(intervals, p) && AllMonotoneFinished(monotonePolygons)
    }

    /** The chain a normal point at p with top segment `edgeTop` extends ends
        strictly above p, and the rest is grown down to p. */
    ghost predicate ReadyForNormal(p: Point, edgeTop: Segment)
      reads this
      requires Valid()
    {
      && ShapedDownTo(p)
      && (edgeTop in segmentToLine ==> NormalChainFree(intervals[segmentToLine[edgeTop]], edgeTop, p))
    }

    /** `MonotonePolygonBuilder::new`. */
    constructor ()
      ensures Valid()
      ensures segmentToLine == map[] && intervals == [] && edges == [] && pointToEdges == map[] && monotonePolygons == []
    {
      segmentToLine := map[];
      intervals := [];
      edges := [];
      pointToEdges := map[];
      monotonePolygons := [];
    }

    /** `MonotonePolygonBuilder::new_with_edges`. */
    constructor WithEdges(edges: seq<Segment>)
      ensures Valid()
      ensures segmentToLine == map[] && intervals == [] && this.edges == edges && monotonePolygons == []
      ensures pointToEdges == PointToEdgesOf(edges) && Empty()
    {
      var table := GetPointsEdges(edges);
      segmentToLine := map[];
      intervals := [];
      this.edges := edges;
      pointToEdges := table;
      monotonePolygons := [];
    }

    /** The builder's `get_left_right_edges_top`: the two first edges listed
        at p, ordered by the free function; a panic when p is not listed, has
        fewer than two entries or an index is past the edges. */
    function LeftRightEdgesTopAt(p: Point): (r: Result<(Segment, Segment)>)
      reads this
      ensures r.Err? <==> (p !in pointToEdges || |pointToEdges[p]| < 2
        || pointToEdges[p][0].edgeIndex >= |edges| || pointToEdges[p][1].edgeIndex >= |edges|)
      ensures r.Ok? ==> r.value == GetLeftRightEdgesTop(edges[pointToEdges[p][0].edgeIndex], edges[pointToEdges[p][1].edgeIndex])
    {
      if p !in pointToEdges || |pointToEdges[p]| < 2 then Err("index out of bounds")
      else
        var fst, snd := pointToEdges[p][0].edgeIndex, pointToEdges[p][1].edgeIndex;
        if fst >= |edges| || snd >= |edges| then Err("index out of bounds")
        else if Orient(edges[fst].bottom, edges[fst].top, edges[snd].bottom) == CounterClockwise then Ok((edges[snd], edges[fst]))
        else Ok((edges[fst], edges[snd]))
    }

    /** The builder's `get_left_right_edges_bottom`. */
    function LeftRightEdgesBottomAt(p: Point): (r: Result<(Segment, Segment)>)
      reads this
      ensures r.Err? <==> (p !in pointToEdges || |pointToEdges[p]| < 2
        || pointToEdges[p][0].edgeIndex >= |edges| || pointToEdges[p][1].edgeIndex >= |edges|)
      ensures r.Ok? ==> r.value == GetLeftRightEdgesBottom(edges[pointToEdges[p][0].edgeIndex], edges[pointToEdges[p][1].edgeIndex])
    {
      if p !in pointToEdges || |pointToEdges[p]| < 2 then Err("index out of bounds")
      else
        var fst, snd := pointToEdges[p][0].edgeIndex, pointToEdges[p][1].edgeIndex;
        if fst >= |edges| || snd >= |edges| then Err("index out of bounds")
        else if Orient(edges[fst].top, edges[fst].bottom, edges[snd].top) == Clockwise then Ok((edges[snd], edges[fst]))
        else Ok((edges[fst], edges[snd]))
    }

    /** On a table built from proper segments, the builder's pair functions
        order the same two segments as the free ones applied to the segments
        from p to its first two opposite points. */
    lemma LeftRightEdgesAtAgree(p: Point)
      requires pointToEdges == PointToEdgesOf(edges)
      requires forall i :: 0 <= i < |edges| ==> ValidSegment(edges[i])
      requires p in pointToEdges && |pointToEdges[p]| >= 2
      ensures LeftRightEdgesTopAt(p) == Ok(GetLeftRightEdgesTop(SegmentOf(p, pointToEdges[p][0].oppositePoint), SegmentOf(p, pointToEdges[p][1].oppositePoint)))
      ensures LeftRightEdgesBottomAt(p) == Ok(GetLeftRightEdgesBottom(SegmentOf(p, pointToEdges[p][0].oppositePoint), SegmentOf(p, pointToEdges[p][1].oppositePoint)))
    {
      var x0, x1 := pointToEdges[p][0], pointToEdges[p][1];
      PointToEdgesListsEveryEdge(edges, p, x0);
      PointToEdgesListsEveryEdge(edges, p, x1);
      NewSegmentSymmetric(edges[x0.edgeIndex].bottom, edges[x0.edgeIndex].top, edges[x0.edgeIndex]);
      NewSegmentSymmetric(edges[x1.edgeIndex].bottom, edges[x1.edgeIndex].top, edges[x1.edgeIndex]);
    }

    /** The loops of `process_end_point` and `process_normal_point` that push
        a clone of each polygon, its bottom set to p. */
    method PushFinished(polygons: seq<MonotonePolygon>, p: Point)
      modifies this
      ensures monotonePolygons == old(monotonePolygons) + FinishAll(polygons, p)
      ensures segmentToLine == old(segmentToLine) && intervals == old(intervals)
      ensures edges == old(edges) && pointToEdges == old(pointToEdges)
    {
      for i := 0 to |polygons|
        invariant monotonePolygons == old(monotonePolygons) + FinishAll(polygons[..i], p)
        invariant segmentToLine == old(segmentToLine) && intervals == old(intervals)
        invariant edges == old(edges) && pointToEdges == old(pointToEdges)
      {
        var polygon := polygons[i].(bottom := Some(p));
        assert FinishAll(polygons[..i + 1], p) == FinishAll(polygons[..i], p) + [polygon];
        monotonePolygons := monotonePolygons + [polygon];
      }
      assert polygons[..|polygons|] == polygons;
    }

    /** `process_end_point`: finishes every polygon of the interval at p and
        unmaps both segments. */
    method ProcessEndPoint(p: Point, edgeLeft: Segment, edgeRight: Segment, interval: nat)
      requires Valid() && interval < |intervals|
      modifies this
      ensures monotonePolygons == old(monotonePolygons) + FinishAll(old(intervals[interval]).polygonsList, p)
      ensures segmentToLine == old(segmentToLine) - {edgeLeft, edgeRight}
      ensures intervals == old(intervals) && edges == old(edges) && pointToEdges == old(pointToEdges)
      ensures Valid() && EmittedAt(old(monotonePolygons), monotonePolygons, p)
      ensures old(SidesAbove(p)) ==> SidesAbove(p)
      ensures old(ShapedDownTo(p)) ==> ShapedDownTo(p)
      ensures old(ShapedAbove(p)) ==> ShapedAbove(p)
    {
      var polygons := intervals[interval].polygonsList;
      PushFinished(polygons, p);
      segmentToLine := segmentToLine - {edgeLeft, edgeRight};
      EmittedAtFinishAll(old(monotonePolygons), polygons, p);
      IntervalsAboveLower(intervals, p, p);
      if old(ShapedDownTo(p)) {
        FinishAllMonotone(old(monotonePolygons), polygons, p);
      }
    }

    /** `process_merge_point`: joins the intervals of the two segments; when
        both map to the same interval, p closes it as an end point. The
        `expect` on a missing segment panics. */
    method ProcessMergePoint(p: Point, edgeLeft: Segment, edgeRight: Segment) returns (outcome: Outcome)
      requires Valid()
      modifies this
      ensures outcome.Fail? <==> edgeLeft !in old(segmentToLine) || edgeRight !in old(segmentToLine)
      ensures outcome.Fail? ==> unchanged(this)
      ensures outcome.Pass? && old(segmentToLine[edgeLeft]) != old(segmentToLine[edgeRight]) ==>
        var (li, ri) := (old(segmentToLine[edgeLeft]), old(segmentToLine[edgeRight]));
        var (joined, emptied) := MergeIntervals(old(intervals[li]), old(intervals[ri]), p);
        && intervals == old(intervals)[li := joined][ri := emptied]
        && segmentToLine == (old(segmentToLine) - {edgeRight, edgeLeft})[old(intervals[ri]).rightSegment := li]
        && monotonePolygons == old(monotonePolygons)
    ensures outcome.Pass? && old(segmentToLine[edgeLeft]) == old(segmentToLine[edgeRight]) ==>
        && intervals == old(intervals)
        && segmentToLine == old(segmentToLine) - {edgeLeft, edgeRight}
        && monotonePolygons == old(monotonePolygons) + FinishAll(old(intervals[segmentToLine[edgeLeft]]).polygonsList, p)
      ensures edges == old(edges) && pointToEdges == old(pointToEdges)
      ensures Valid() && EmittedAt(old(monotonePolygons), monotonePolygons, p)
      ensures old(SidesAbove(p)) ==> SidesAbove(p)
      ensures old(ShapedAbove(p)) ==> ShapedDownTo(p)
    {
      IntervalsAboveLower(intervals, p, p);
      if edgeLeft !in segmentToLine {
        return Fail("Left edge interval not found");
      }
      if edgeRight !in segmentToLine {
        return Fail("Right edge interval not found");
      }
      var li, ri := segmentToLine[edgeLeft], segmentToLine[edgeRight];
      if li != ri {
        var (joined, emptied) := MergeIntervals(intervals[li], intervals[ri], p);
        var rightSide := intervals[ri].rightSegment;
        segmentToLine := (segmentToLine - {edgeRight, edgeLeft})[rightSide := li];
        ghost var above := IntervalsAbove(intervals, p);
        if above {
          MergeIntervalsMonotone(intervals[li], intervals[ri], p);
        }
        intervals := intervals[li := joined][ri := emptied];
        assert EmittedAt(monotonePolygons, monotonePolygons, p) by {
          assert monotonePolygons[..|monotonePolygons|] == monotonePolygons;
        }
      } else {
        ProcessEndPoint(p, edgeLeft, edgeRight, li);
      }
      outcome := Pass;
    }

    /** `process_normal_point`, with the left-side bookkeeping done as
        intended (see `NormalPolygonsAsWritten`): p continues the interval of
        `edgeTop`, whose side becomes `edgeBottom`. Fails when `edgeTop` is
        not mapped or is not a side of its interval. */
    method ProcessNormalPoint(p: Point, edgeTop: Segment, edgeBottom: Segment) returns (outcome: Outcome)
      requires Valid()
      modifies this
      ensures outcome.Fail? <==> (edgeTop !in old(segmentToLine)
        || NormalPointInterval(old(intervals[segmentToLine[edgeTop]]), edgeTop, edgeBottom, p).Err?)
      ensures outcome.Fail? ==> unchanged(this)
      ensures outcome.Pass? ==>
        var id := old(segmentToLine[edgeTop]);
        var (iv, emitted) := NormalPointInterval(old(intervals[id]), edgeTop, edgeBottom, p).value;
        && intervals == old(intervals)[id := iv]
        && segmentToLine == old(segmentToLine)[edgeBottom := id] - {edgeTop}
        && monotonePolygons == old(monotonePolygons) + emitted
      ensures edges == old(edges) && pointToEdges == old(pointToEdges)
      ensures Valid() && EmittedAt(old(monotonePolygons), monotonePolygons, p)
      ensures old(SidesAbove(p)) && !Lt(edgeBottom.top, p) ==> SidesAbove(p)
      ensures old(ReadyForNormal(p, edgeTop)) ==> ShapedDownTo(p)
    {
      if edgeTop !in segmentToLine {
        return Fail("Segment not found in the map");
      }
      var id := segmentToLine[edgeTop];
      var step := NormalPointInterval(intervals[id], edgeTop, edgeBottom, p);
      if step.Err? {
        return Fail(step.error);
      }
      var (iv, emitted) := step.value;
      var finishing := NormalFinishing(intervals[id].polygonsList, edgeTop == intervals[id].rightSegment);
      NormalPointFinishes(intervals[id], edgeTop, edgeBottom, p);
      if ReadyForNormal(p, edgeTop) {
        NormalStepMonotone(intervals, monotonePolygons, id, edgeTop, edgeBottom, p);
      }
      EmittedAtFinishAll(monotonePolygons, finishing, p);
      PushFinished(finishing, p);
      segmentToLine := segmentToLine[edgeBottom := id] - {edgeTop};
      intervals := intervals[id := iv];
      outcome := Pass;
    }

    /** `process_start_point`: a new interval between the two segments,
        holding one new polygon topped by p. */
    method ProcessStartPoint(p: Point, edgeLeft: Segment, edgeRight: Segment)
      requires Valid()
      modifies this
      ensures intervals == old(intervals) + [Interval(p, edgeLeft, edgeRight, [NewMonotonePolygon(p)])]
      ensures segmentToLine == old(segmentToLine)[edgeLeft := |old(intervals)|][edgeRight := |old(intervals)|]
      ensures monotonePolygons == old(monotonePolygons) && edges == old(edges) && pointToEdges == old(pointToEdges)
      ensures Valid() && EmittedAt(old(monotonePolygons), monotonePolygons, p)
      ensures old(SidesAbove(p)) && !Lt(edgeLeft.top, p) && !Lt(edgeRight.top, p) ==> SidesAbove(p)
      ensures old(ShapedDownTo(p)) ==> ShapedDownTo(p)
    {
      var id := |intervals|;
      intervals := intervals + [Interval(p, edgeLeft, edgeRight, [NewMonotonePolygon(p)])];
      segmentToLine := segmentToLine[edgeLeft := id][edgeRight := id];
      assert monotonePolygons[..|monotonePolygons|] == monotonePolygons;
    }

    /** A mapped segment that is not its interval's right side: the entries
        `find_interval_with_point` looks at. */
    ghost predicate ListedByLeft(s: Segment)
      reads this
      requires Valid()
    {
      s in segmentToLine && s != intervals[segmentToLine[s]].rightSegment
    }

    /** `find_interval_with_point` as written: walks the map in its own order,
        skips entries keyed by an interval's right side and returns the first
        interval whose test says p is NOT strictly inside it. */
    method FindIntervalWithPoint(p: Point) returns (r: Option<nat>)
      requires Valid()
      ensures r.Some? ==> exists s :: ListedByLeft(s) && segmentToLine[s] == r.value && !IntervalContains(intervals[r.value], p)
      ensures r.None? ==> forall s :: ListedByLeft(s) ==> IntervalContains(intervals[segmentToLine[s]], p)
    {
      var rest := segmentToLine.Keys;
      while rest != {}
        invariant rest <= segmentToLine.Keys
        invariant forall s :: ListedByLeft(s) && s !in rest ==> IntervalContains(intervals[segmentToLine[s]], p)
        decreases |rest|
      {
        var s :| s in rest;
        var id := segmentToLine[s];
        if s != intervals[id].rightSegment && !IntervalContains(intervals[id], p) {
          return Some(id);
        }
        rest := rest - {s};
      }
      return None;
    }

    /** The search as intended: the first interval, in the map's order, whose
        test says p lies strictly inside it. */
    method FindIntervalContainingPoint(p: Point) returns (r: Option<nat>)
      requires Valid()
      ensures r.Some? ==> r.value < |intervals| && IntervalContains(intervals[r.value], p)
      ensures r.Some? ==> exists s :: ListedByLeft(s) && segmentToLine[s] == r.value
      ensures r.None? ==> forall s :: ListedByLeft(s) ==> !IntervalContains(intervals[segmentToLine[s]], p)
    {
      var rest := segmentToLine.Keys;
      while rest != {}
        invariant rest <= segmentToLine.Keys
        invariant forall s :: ListedByLeft(s) && s !in rest ==> !IntervalContains(intervals[segmentToLine[s]], p)
        decreases |rest|
      {
        var s :| s in rest;
        var id := segmentToLine[s];
        if s != intervals[id].rightSegment && IntervalContains(intervals[id], p) {
          return Some(id);
        }
        rest := rest - {s};
      }
      return None;
    }

    /** `process_split_point`, given the result of the interval search
        (which the sweep makes with `FindIntervalContainingPoint`): the found
        interval is cut in two at p, keeping its left side and ending at
        `edgeLeft`, and a new interval runs from `edgeRight` to the old right
        side. Without an interval, p starts a new one. */
    method ProcessSplitPoint(p: Point, edgeLeft: Segment, edgeRight: Segment, found: Option<nat>)
      requires Valid() && (found.Some? ==> found.value < |intervals|)
      modifies this
      ensures found.Some? ==>
        var id := found.value;
        var iv := old(intervals[id]);
        var (kept, moved, emitted) := SplitPolygons(iv.polygonsList, p);
        && intervals == old(intervals)[id := iv.(rightSegment := edgeLeft, lastSeen := p, polygonsList := kept)]
                        + [Interval(p, edgeRight, iv.rightSegment, moved)]
        && segmentToLine == old(segmentToLine)[edgeLeft := id][edgeRight := |old(intervals)|][iv.rightSegment := |old(intervals)|]
        && monotonePolygons == old(monotonePolygons) + emitted
      ensures found.None? ==>
        && intervals == old(intervals) + [Interval(p, edgeLeft, edgeRight, [NewMonotonePolygon(p)])]
        && segmentToLine == old(segmentToLine)[edgeLeft := |old(intervals)|][edgeRight := |old(intervals)|]
        && monotonePolygons == old(monotonePolygons)
      ensures edges == old(edges) && pointToEdges == old(pointToEdges)
      ensures Valid() && EmittedAt(old(monotonePolygons), monotonePolygons, p)
      ensures old(SidesAbove(p)) && !Lt(edgeLeft.top, p) && !Lt(edgeRight.top, p) ==> SidesAbove(p)
      ensures old(ShapedAbove(p)) ==> ShapedDownTo(p)
    {
      IntervalsAboveLower(intervals, p, p);
      if found.None? {
        ProcessStartPoint(p, edgeLeft, edgeRight);
        return;
      }
      var id := found.value;
      var iv := intervals[id];
      var (kept, moved, emitted) := SplitPolygons(iv.polygonsList, p);
      if old(ShapedAbove(p)) {
        SplitPolygonsMonotone(iv.polygonsList, p);
        assert AllMonotoneFinished(monotonePolygons + emitted) by {
          FinishAllMonotone(monotonePolygons, if |iv.polygonsList| >= 2 then iv.polygonsList[1..|iv.polygonsList| - 1] else [], p);
        }
      }
      var newId := |intervals|;
      intervals := intervals[id := iv.(rightSegment := edgeLeft, lastSeen := p, polygonsList := kept)]
                   + [Interval(p, edgeRight, iv.rightSegment, moved)];
      segmentToLine := segmentToLine[edgeLeft := id][edgeRight := newId][iv.rightSegment := newId];
      EmittedAtFinishAll(monotonePolygons, if |iv.polygonsList| >= 2 then iv.polygonsList[1..|iv.polygonsList| - 1] else [], p);
      monotonePolygons := monotonePolygons + emitted;
    }

    /** The first loop of `process_intersection_point`: closes, as end points,
        the intervals in which both the edge and its opposite side end at p,
        and sorts the remaining edges into those leaving p downwards (`tops`,
        whose top is p) and the others (`bottoms`). Fails where
        `opposite_segment` panics. */
    method CollectIntersectionEdges(p: Point, edgeList: seq<Segment>) returns (outcome: Outcome, tops: seq<Segment>, bottoms: seq<Segment>)
      requires Valid()
      modifies this
      ensures Valid() && EmittedAt(old(monotonePolygons), monotonePolygons, p)
      ensures intervals == old(intervals) && edges == old(edges) && pointToEdges == old(pointToEdges)
      ensures segmentToLine.Keys <= old(segmentToLine).Keys
      ensures forall t :: t in tops ==> t in edgeList && t.top == p
      ensures forall b :: b in bottoms ==> b in edgeList && b.top != p
      ensures outcome.Pass? ==>
        forall e :: e in edgeList && e.top == p && e.bottom != p && e !in old(segmentToLine) ==> e in tops
      ensures old(SidesAbove(p)) ==> SidesAbove(p)
      ensures old(ShapedAbove(p)) ==> ShapedAbove(p)
    {
      var processed: set<Segment> := {};
      tops, bottoms := [], [];
      for k := 0 to |edgeList|
        invariant Valid() && EmittedAt(old(monotonePolygons), monotonePolygons, p)
        invariant intervals == old(intervals) && edges == old(edges) && pointToEdges == old(pointToEdges)
        invariant segmentToLine.Keys <= old(segmentToLine).Keys
        invariant forall s :: s in processed ==> s.bottom == p
        invariant forall t :: t in tops ==> t in edgeList && t.top == p
        invariant forall b :: b in bottoms ==> b in edgeList && b.top != p
        invariant forall j :: 0 <= j < k && edgeList[j].top == p && edgeList[j].bottom != p && edgeList[j] !in old(segmentToLine) ==> edgeList[j] in tops
        invariant old(SidesAbove(p)) ==> SidesAbove(p)
        invariant old(ShapedAbove(p)) ==> ShapedAbove(p)
      {
        var edge := edgeList[k];
        if edge in processed {
          continue;
        }
        if edge in segmentToLine {
          var id := segmentToLine[edge];
          var opposite := OppositeSegment(intervals[id], edge);
          if opposite.Err? {
            return Fail(opposite.error), tops, bottoms;
          }
          if edge.bottom == p && opposite.value.bottom == p {
            var before := monotonePolygons;
            ProcessEndPoint(p, edge, opposite.value, id);
            EmittedAtTransitive(old(monotonePolygons), before, monotonePolygons, p);
            processed := processed + {opposite.value, edge};
            continue;
          }
        }
        if edge.top == p {
          tops := tops + [edge];
        } else {
          bottoms := bottoms + [edge];
        }
      }
      outcome := Pass;
    }

    /** `process_intersection_point`, for a vertex with other than two edges.
        The code is written for a sweep that meets an edge's bottom first: it
        looks up the edges leaving p downwards in `segment_to_line`, where the
        descending sweep has not put them yet, and that lookup panics. The
        edges at p are sorted with the comparator for the endpoint they share;
        the code as written passes the other comparator, under which every
        comparison is `Equal` (see the Findings). */
    method ProcessIntersectionPoint(p: Point, edgeList: seq<Segment>) returns (outcome: Outcome)
      requires Valid()
      modifies this
      ensures Valid() && EmittedAt(old(monotonePolygons), monotonePolygons, p)
      ensures edges == old(edges) && pointToEdges == old(pointToEdges)
      ensures old(SidesAbove(p)) && (forall e :: e in edgeList ==> !Lt(e.top, p)) ==> SidesAbove(p)
      ensures (forall s :: s in old(segmentToLine) ==> s.top != p) && (exists e :: e in edgeList && e.top == p && e.bottom != p)
        ==> outcome.Fail?
      ensures old(ShapedAbove(p)) ==> ShapedDownTo(p)
    {
      var tops, bottoms;
      outcome, tops, bottoms := CollectIntersectionEdges(p, edgeList);
      if outcome.Fail? {
        return;
      }
      IntervalsAboveLower(intervals, p, p);
      if bottoms == [] && tops == [] {
        return Pass;
      }
      ghost var unsorted := tops;
      ghost var unsortedBottoms := bottoms;
      tops := SortBy(tops, LeftRightShareTop);
      bottoms := SortBy(bottoms, LeftRightShareBottom);
      assert forall t :: t in tops ==> t in unsorted by {
        forall t | t in tops
          ensures t in unsorted
        {
          assert t in multiset(tops);
        }
      }
      assert forall b :: b in bottoms ==> b in unsortedBottoms by {
        forall b | b in bottoms
          ensures b in unsortedBottoms
        {
          assert b in multiset(bottoms);
        }
      }
      var lo, hi := 0, |bottoms|;
      if tops != [] {
        assert tops[0] in unsorted;
        var before := monotonePolygons;
        outcome, lo, hi := ContinueTopEdges(p, tops, bottoms);
        EmittedAtTransitive(old(monotonePolygons), before, monotonePolygons, p);
        if outcome.Fail? {
          return;
        }
      }
      var before := monotonePolygons;
      outcome := StartBottomPairs(p, bottoms, lo, hi);
      EmittedAtTransitive(old(monotonePolygons), before, monotonePolygons, p);
    }

    /** Between the two continuations of an intersection point at p:
        everything is grown down to p, and p may still be pushed on the chain
        offered by the left side of any interval when that side leaves p
        downwards. */
    ghost predicate LeftSidesFree(p: Point)
      reads this
      requires Valid()
    {
      && ShapedDownTo(p)
      && forall s :: s in segmentToLine && s.top == p && s == intervals[segmentToLine[s]].leftSegment ==>
           NormalChainFree(intervals[segmentToLine[s]], s, p)
    }

    lemma AboveLeavesLeftSidesFree(p: Point)
      requires Valid() && ShapedAbove(p)
      ensures LeftSidesFree(p)
    {
      IntervalsAboveLower(intervals, p, p);
    }

    /** The middle of `process_intersection_point`: the leftmost edge leaving
        p continues its interval as a normal point with the first remaining
        edge arriving at p when it is that interval's right side, and the
        rightmost does so with the last one when it is its interval's left
        side. The lookups in `segment_to_line` and the `unwrap`s panic. */
    method ContinueTopEdges(p: Point, tops: seq<Segment>, bottoms: seq<Segment>) returns (outcome: Outcome, lo: nat, hi: nat)
      requires Valid() && tops != []
      modifies this
      ensures lo <= hi <= |bottoms|
      ensures Valid() && EmittedAt(old(monotonePolygons), monotonePolygons, p)
      ensures edges == old(edges) && pointToEdges == old(pointToEdges)
      ensures old(SidesAbove(p)) && (forall e :: e in bottoms ==> !Lt(e.top, p)) ==> SidesAbove(p)
      ensures tops[0] !in old(segmentToLine) ==> outcome.Fail?
      ensures old(ShapedAbove(p)) && (forall t :: t in tops ==> t.top == p) && (forall b :: b in bottoms ==> b.top != p)
        ==> ShapedDownTo(p)
    {
      var remaining;
      outcome, lo, remaining := ContinueLeftmostTop(p, tops[0], |tops|, bottoms);
      hi := |bottoms|;
      if outcome.Fail? || remaining == 0 {
        return;
      }
      var before := monotonePolygons;
      assert tops[|tops| - 1] in tops;
      outcome, hi := ContinueRightmostTop(p, tops[|tops| - 1], bottoms, lo);
      EmittedAtTransitive(old(monotonePolygons), before, monotonePolygons, p);
    }

    /** The leftmost of the `count` edges leaving p, when it is its
        interval's right side, continues that interval with the first edge
        arriving at p; `remaining` counts the edges leaving p still to
        handle. */
    method ContinueLeftmostTop(p: Point, firstTop: Segment, count: nat, bottoms: seq<Segment>) returns (outcome: Outcome, lo: nat, remaining: nat)
      requires Valid()
      modifies this
      ensures lo <= 1 && lo <= |bottoms| && remaining <= count
      ensures Valid() && EmittedAt(old(monotonePolygons), monotonePolygons, p)
      ensures edges == old(edges) && pointToEdges == old(pointToEdges)
      ensures old(SidesAbove(p)) && (forall e :: e in bottoms ==> !Lt(e.top, p)) ==> SidesAbove(p)
      ensures firstTop !in old(segmentToLine) ==> outcome.Fail?
      ensures old(ShapedAbove(p)) && (forall b :: b in bottoms ==> b.top != p) ==> LeftSidesFree(p)
    {
      if ShapedAbove(p) {
        AboveLeavesLeftSidesFree(p);
      }
      lo, remaining := 0, count;
      if firstTop !in segmentToLine {
        return Fail("segment of the intersection point not found in segment_to_line"), lo, remaining;
      }
      var id := segmentToLine[firstTop];
      if firstTop != intervals[id].rightSegment {
        assert monotonePolygons[..|monotonePolygons|] == monotonePolygons;
        return Pass, lo, remaining;
      }
      if count > 0 {
        remaining := count - 1;
      }
      if bottoms == [] {
        return Fail("called `Option::unwrap()` on a `None` value"), lo, remaining;
      }
      var firstBottom := bottoms[0];
      lo := 1;
      assert firstBottom in bottoms;
      outcome := ContinueRightSide(p, firstTop, firstBottom);
    }

    /** A normal point at p on the right side of an interval: afterwards p
        may still be pushed on the chains the left sides offer. */
    method ContinueRightSide(p: Point, edgeTop: Segment, edgeBottom: Segment) returns (outcome: Outcome)
      requires Valid() && edgeTop in segmentToLine && edgeTop == intervals[segmentToLine[edgeTop]].rightSegment
      modifies this
      ensures Valid() && EmittedAt(old(monotonePolygons), monotonePolygons, p)
      ensures edges == old(edges) && pointToEdges == old(pointToEdges)
      ensures old(SidesAbove(p)) && !Lt(edgeBottom.top, p) ==> SidesAbove(p)
      ensures old(ShapedAbove(p)) && edgeBottom.top != p ==> LeftSidesFree(p)
    {
      IntervalsAboveLower(intervals, p, p);
      var id := segmentToLine[edgeTop];
      outcome := ProcessNormalPoint(p, edgeTop, edgeBottom);
      if outcome.Pass? && old(ShapedAbove(p)) && edgeBottom.top != p {
        LeftSidesFreeAfterNormal(old(intervals), segmentToLine, id, edgeTop, edgeBottom, p);
      }
    }

    /** The rightmost edge leaving p, when it is its interval's left side,
        continues that interval with the last edge arriving at p not yet
        used (those from `lo` on). */
    method ContinueRightmostTop(p: Point, lastTop: Segment, bottoms: seq<Segment>, lo: nat) returns (outcome: Outcome, hi: nat)
      requires Valid() && lo <= |bottoms|
      modifies this
      ensures lo <= hi <= |bottoms|
      ensures Valid() && EmittedAt(old(monotonePolygons), monotonePolygons, p)
      ensures edges == old(edges) && pointToEdges == old(pointToEdges)
      ensures old(SidesAbove(p)) && (forall e :: e in bottoms ==> !Lt(e.top, p)) ==> SidesAbove(p)
      ensures lastTop !in old(segmentToLine) ==> outcome.Fail?
      ensures old(LeftSidesFree(p)) && lastTop.top == p ==> ShapedDownTo(p)
    {
      hi := |bottoms|;
      if lastTop !in segmentToLine {
        return Fail("segment of the intersection point not found in segment_to_line"), hi;
      }
      if lastTop != intervals[segmentToLine[lastTop]].leftSegment {
        assert monotonePolygons[..|monotonePolygons|] == monotonePolygons;
        return Pass, hi;
      }
      if lo == hi {
        return Fail("called `Option::unwrap()` on a `None` value"), hi;
      }
      var lastBottom := bottoms[hi - 1];
      hi := hi - 1;
      assert lastBottom in bottoms;
      outcome := ProcessNormalPoint(p, lastTop, lastBottom);
    }

    /** The last loop of `process_intersection_point`: the remaining arriving
        edges, taken two at a time from the left, each start an interval; an
        odd one out makes `unwrap` panic. */
    method StartBottomPairs(p: Point, bottoms: seq<Segment>, lo: nat, hi: nat) returns (outcome: Outcome)
      requires Valid() && lo <= hi <= |bottoms|
      modifies this
      ensures outcome.Fail? <==> (hi - lo) % 2 == 1
      ensures |intervals| == |old(intervals)| + (hi - lo) / 2
      ensures intervals[..|old(intervals)|] == old(intervals)
      ensures forall j :: 0 <= j < (hi - lo) / 2 ==>
        intervals[|old(intervals)| + j] == Interval(p, bottoms[lo + 2 * j], bottoms[lo + 2 * j + 1], [NewMonotonePolygon(p)])
      ensures Valid() && EmittedAt(old(monotonePolygons), monotonePolygons, p)
      ensures edges == old(edges) && pointToEdges == old(pointToEdges)
      ensures old(SidesAbove(p)) && (forall e :: e in bottoms ==> !Lt(e.top, p)) ==> SidesAbove(p)
      ensures old(ShapedDownTo(p)) ==> ShapedDownTo(p)
    {
      var i := lo;
      assert monotonePolygons[..|monotonePolygons|] == monotonePolygons;
      while i < hi
        invariant lo <= i <= hi && (i - lo) % 2 == 0
        invariant |intervals| == |old(intervals)| + (i - lo) / 2
        invariant intervals[..|old(intervals)|] == old(intervals)
        invariant forall j :: 0 <= j < (i - lo) / 2 ==>
          intervals[|old(intervals)| + j] == Interval(p, bottoms[lo + 2 * j], bottoms[lo + 2 * j + 1], [NewMonotonePolygon(p)])
        invariant Valid() && monotonePolygons == old(monotonePolygons)
        invariant edges == old(edges) && pointToEdges == old(pointToEdges)
        invariant old(SidesAbove(p)) && (forall e :: e in bottoms ==> !Lt(e.top, p)) ==> SidesAbove(p)
        invariant old(ShapedDownTo(p)) ==> ShapedDownTo(p)
        decreases hi - i
      {
        var a := bottoms[i];
        i := i + 1;
        if i == hi {
          return Fail("called `Option::unwrap()` on a `None` value");
        }
        var b := bottoms[i];
        i := i + 1;
        ProcessStartPoint(p, a, b);
      }
      return Pass;
    }

    /** When the sweep has reached `prev` and p comes strictly below it, it
        has reached p too, and no mapped segment has p as its top. */
    lemma SidesAboveLower(p: Point, prev: Point)
      requires SidesAbove(prev) && Lt(p, prev)
      ensures SidesAbove(p)
      ensures forall s :: s in segmentToLine ==> s.top != p
    {
      forall s | s in segmentToLine
        ensures !Lt(s.top, p) && s.top != p
      {
        PointOrderIsTotal(s.top, p, prev);
      }
      forall i | 0 <= i < |intervals|
        ensures !Lt(intervals[i].leftSegment.top, p) && !Lt(intervals[i].rightSegment.top, p)
      {
        PointOrderIsTotal(intervals[i].leftSegment.top, p, prev);
        PointOrderIsTotal(intervals[i].rightSegment.top, p, prev);
      }
    }

    /** No interval, no mapped segment and no polygon yet. */
    ghost predicate Empty()
      reads this
    {
      segmentToLine == map[] && intervals == [] && monotonePolygons == []
    }

    /** What the sweep keeps once it has processed q. */
    ghost predicate SweptTo(q: Point)
      reads this
    {
      SidesAbove(q) && BottomsAbove(monotonePolygons, q) && ShapedDownTo(q)
    }

    /** Reaching p strictly below the last processed point `prev`. */
    lemma SweptLower(p: Point, prev: Point)
      requires SweptTo(prev) && Lt(p, prev)
      ensures SidesAbove(p) && BottomsAbove(monotonePolygons, p) && ShapedAbove(p)
      ensures forall s :: s in segmentToLine ==> s.top != p
    {
      SidesAboveLower(p, prev);
      BottomsAboveLower(monotonePolygons, p, prev);
      IntervalsAboveLower(intervals, p, prev);
    }

    /** The sweep at the i-th point from the top: reach it from the one before
        and process it. */
    method SweepStep(points: seq<Point>, i: nat) returns (outcome: Outcome)
      requires Valid() && i < |points| && StrictlyDescending(points)
      requires i == 0 ==> Empty()
      requires i > 0 ==> SweptTo(points[i - 1])
      requires SweepOrdered(monotonePolygons)
      modifies this
      ensures Valid() && edges == old(edges) && pointToEdges == old(pointToEdges)
      ensures outcome.Pass? ==> SweptTo(points[i]) && SweepOrdered(monotonePolygons) && AllMonotoneFinished(monotonePolygons)
      ensures outcome.Pass? ==> IntersectionVertexAbove(points[i], pointToEdges)
    {
      var p := points[i];
      if i > 0 {
        SweptLower(p, points[i - 1]);
      }
      var before := monotonePolygons;
      outcome := ProcessPoint(p);
      if outcome.Pass? {
        EmittedKeepsSweepOrder(before, monotonePolygons, p);
      }
    }

    /** One pass of the loop of `sweeping_line_triangulation`: classify p
        (with the corrected pair functions) and hand it to the matching
        `process_*` method, a split point with the interval found by the
        corrected search; a panic on the way is a `Fail`. When no mapped
        segment has p as its top, as in the descending sweep, a vertex with
        other than two edges passes only if none of its edges leaves it
        downwards. */
    method ProcessPoint(p: Point) returns (outcome: Outcome)
      requires Valid()
      modifies this
      ensures Valid() && EmittedAt(old(monotonePolygons), monotonePolygons, p)
      ensures edges == old(edges) && pointToEdges == old(pointToEdges)
      ensures old(SidesAbove(p)) ==> SidesAbove(p)
      ensures old(forall s :: s in segmentToLine ==> s.top != p) && outcome.Pass? ==> IntersectionVertexAbove(p, pointToEdges)
      ensures old(ShapedAbove(p)) ==> ShapedDownTo(p)
    {
      IntervalsAboveLower(intervals, p, p);
      var pointType := GetPointTypeCorrected(p, pointToEdges);
      if pointType.Err? {
        assert monotonePolygons[..|monotonePolygons|] == monotonePolygons;
        return Fail(pointType.error);
      }
      PointTypeSegmentsAtPoint(p, pointToEdges);
      SegmentsAtPointNotBelow(p, PointTypeSegments(pointType.value));
      match pointType.value
      case Intersection(segments) =>
        outcome := ProcessIntersectionPoint(p, segments);
        if outcome.Pass? && old(forall s :: s in segmentToLine ==> s.top != p) {
          IntersectionEdgesAbove(p, pointToEdges);
        }
      case Split(left, right) =>
        var found := FindIntervalContainingPoint(p);
        ProcessSplitPoint(p, left, right, found);
        outcome := Pass;
      case Merge(left, right) =>
        outcome := ProcessMergePoint(p, left, right);
      case Normal(top, bottom) =>
        outcome := ProcessNormalPoint(p, top, bottom);
    }
  }

  // ---------------------------------------------------------------------------
  // The sweep

  /** A vertex with other than two edges has every edge ending above it. */
  predicate IntersectionVertexAbove(q: Point, pointToEdges: map<Point, seq<PointEdgeInfo>>)
  {
    q in pointToEdges && |pointToEdges[q]| != 2 ==>
      forall j :: 0 <= j < |pointToEdges[q]| ==> Lt(q, pointToEdges[q][j].oppositePoint)
  }

  /** No segment with p as an endpoint has its top below p. */
  lemma SegmentsAtPointNotBelow(p: Point, segments: seq<Segment>)
    requires forall s :: s in segments ==> ValidSegment(s) && (s.top == p || s.bottom == p)
    ensures forall s :: s in segments ==> !Lt(s.top, p)
  {
    forall s | s in segments
      ensures !Lt(s.top, p)
    {
      PointOrderIsTotal(s.top, p, s.top);
    }
  }

  /** A vertex classified as an intersection, none of whose segments leaves
      it downwards, has all its edges ending above it. */
  lemma IntersectionEdgesAbove(p: Point, pointToEdges: map<Point, seq<PointEdgeInfo>>)
    requires GetPointTypeCorrected(p, pointToEdges).Ok?
    requires var t := GetPointTypeCorrected(p, pointToEdges).value;
      t.Intersection? ==> forall e :: e in t.segments ==> !(e.top == p && e.bottom != p)
    ensures IntersectionVertexAbove(p, pointToEdges)
  {
    var t := GetPointTypeCorrected(p, pointToEdges).value;
    if p in pointToEdges && |pointToEdges[p]| != 2 {
      var infos := pointToEdges[p];
      forall j | 0 <= j < |infos|
        ensures Lt(p, infos[j].oppositePoint)
      {
        var q := infos[j].oppositePoint;
        assert t.segments[j] == SegmentOf(p, q);
        PointOrderIsTotal(p, q, p);
      }
    }
  }

  /** Points listed from the highest down, each once. */
  predicate StrictlyDescending(points: seq<Point>)
  {
    forall i :: 0 <= i < |points| - 1 ==> Lt(points[i + 1], points[i])
  }

  function InsertDescending(points: seq<Point>, q: Point): (r: seq<Point>)
    requires StrictlyDescending(points) && q !in points
    ensures StrictlyDescending(r)
    ensures forall x :: x in r <==> x in points || x == q
    ensures r[0] == q || (points != [] && r[0] == points[0])
  {
    if points == [] then [q]
    else if Lt(points[0], q) then [q] + points
    else
      PointOrderIsTotal(points[0], q, q);
      var tail := InsertDescending(points[1..], q);
      assert forall x :: x in points <==> x == points[0] || x in points[1..];
      [points[0]] + tail
  }

  /** `keys().collect()`, `sort()` and `reverse()`: the keys from the highest
      down. */
  method SortedPointsDescending(keys: set<Point>) returns (points: seq<Point>)
    ensures StrictlyDescending(points)
    ensures forall q :: q in points <==> q in keys
  {
    points := [];
    var rest := keys;
    while rest != {}
      invariant rest <= keys
      invariant StrictlyDescending(points)
      invariant forall q :: q in points <==> q in keys && q !in rest
      decreases |rest|
    {
      var q :| q in rest;
      points := InsertDescending(points, q);
      rest := rest - {q};
    }
  }

  /** Every polygon is finished no lower than q. */
  predicate BottomsAbove(polygons: seq<MonotonePolygon>, q: Point)
  {
    forall k :: 0 <= k < |polygons| ==> polygons[k].bottom.Some? && !Lt(polygons[k].bottom.value, q)
  }

  /** Every polygon is finished, and no later polygon is finished higher than
      an earlier one. */
  predicate SweepOrdered(polygons: seq<MonotonePolygon>)
  {
    && (forall k :: 0 <= k < |polygons| ==> Finished(polygons[k]))
    && (forall k :: 0 <= k < |polygons| - 1 ==> !Lt(polygons[k].bottom.value, polygons[k + 1].bottom.value))
  }

  lemma BottomsAboveLower(polygons: seq<MonotonePolygon>, p: Point, prev: Point)
    requires BottomsAbove(polygons, prev) && Lt(p, prev)
    ensures BottomsAbove(polygons, p)
  {
    forall k | 0 <= k < |polygons|
      ensures !Lt(polygons[k].bottom.value, p)
    {
      PointOrderIsTotal(polygons[k].bottom.value, p, prev);
    }
  }

  /** Polygons finished at p behind a list finished no lower than p keep the
      list in sweep order. */
  lemma EmittedKeepsSweepOrder(before: seq<MonotonePolygon>, after: seq<MonotonePolygon>, p: Point)
    requires SweepOrdered(before) && BottomsAbove(before, p) && EmittedAt(before, after, p)
    ensures SweepOrdered(after) && BottomsAbove(after, p)
  {
    assert forall k :: 0 <= k < |before| ==> after[k] == before[k] by {
      forall k | 0 <= k < |before|
        ensures after[k] == before[k]
      {
        assert after[..|before|][k] == after[k];
      }
    }
    PointOrderIsTotal(p, p, p);
  }

  /** Every polygon the sweep emits is triangulated without a panic, into one
      triangle per chain point, along a list of points that never rises. */
  lemma SweptPolygonsTriangulate(polygons: seq<MonotonePolygon>)
    requires forall k :: 0 <= k < |polygons| ==> MonotoneFinished(polygons[k])
    ensures forall k :: 0 <= k < |polygons| ==>
      && Triangulation(polygons[k]).Ok?
      && |Triangulation(polygons[k]).value| == |polygons[k].left| + |polygons[k].right|
      && NonIncreasing(PolygonPoints(polygons[k]))
  {
    forall k | 0 <= k < |polygons|
      ensures Triangulation(polygons[k]).Ok?
      ensures |Triangulation(polygons[k]).value| == |polygons[k].left| + |polygons[k].right|
      ensures NonIncreasing(PolygonPoints(polygons[k]))
    {
      TriangulationCounts(polygons[k]);
      PolygonPointsNonIncreasing(polygons[k]);
    }
  }

  /** The sweep visits every endpoint of the edges. */
  lemma EveryEndpointSwept(edges: seq<Segment>, points: seq<Point>)
    requires forall q :: q in points <==> q in PointToEdgesOf(edges)
    requires forall k :: 0 <= k < |points| ==> IntersectionVertexAbove(points[k], PointToEdgesOf(edges))
    ensures forall q :: q in Endpoints(edges) ==> IntersectionVertexAbove(q, PointToEdgesOf(edges))
  {
    forall q | q in Endpoints(edges)
      ensures IntersectionVertexAbove(q, PointToEdgesOf(edges))
    {
      assert q in PointToEdgesOf(edges);
      assert q in points;
      var k :| 0 <= k < |points| && points[k] == q;
    }
  }

  /** `sweeping_line_triangulation`, with the corrected classification and
      interval search: every vertex is processed from the highest down, and
      the monotone polygons come out finished and y-monotone, in the order
      the sweep finishes them. A panic is an `Err`; in particular the sweep fails at
      every vertex with other than two edges of which one leaves it
      downwards. */
  method SweepingLineTriangulation(edges: seq<Segment>) returns (r: Result<seq<MonotonePolygon>>)
    ensures r.Ok? ==> forall k :: 0 <= k < |r.value| ==> Finished(r.value[k])
    ensures r.Ok? ==> SweepOrdered(r.value)
    ensures r.Ok? ==> forall q :: q in Endpoints(edges) ==> IntersectionVertexAbove(q, PointToEdgesOf(edges))
    ensures r.Ok? ==> forall k :: 0 <= k < |r.value| ==> MonotoneFinished(r.value[k])
  {
    var builder := new MonotonePolygonBuilder.WithEdges(edges);
    ghost var table := builder.pointToEdges;
    var points := SortedPointsDescending(builder.pointToEdges.Keys);
    for i := 0 to |points|
      invariant builder.Valid()
      invariant builder.edges == edges && builder.pointToEdges == table
      invariant i == 0 ==> builder.Empty()
      invariant i > 0 ==> builder.SweptTo(points[i - 1])
      invariant SweepOrdered(builder.monotonePolygons) && AllMonotoneFinished(builder.monotonePolygons)
      invariant forall k :: 0 <= k < i ==> IntersectionVertexAbove(points[k], table)
    {
      var outcome := builder.SweepStep(points, i);
      if outcome.Fail? {
        return Err(outcome.error);
      }
    }
    EveryEndpointSwept(edges, points);
    return Ok(builder.monotonePolygons);
  }
}

