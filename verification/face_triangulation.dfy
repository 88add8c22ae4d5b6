/** The value-level part of the sweep-line decomposition: the point-to-edges
    table, the vertex classification, the left/right comparators and the
    interval record with its two segment operations. */
module FaceTriangulation {
  import opened Wrappers
  import opened Points
  import opened MonotonePolygons

  /** An edge seen from one of its endpoints: the edge's index and its other
      endpoint. */
  datatype PointEdgeInfo = PointEdgeInfo(edgeIndex: nat, oppositePoint: Point)

  // ---------------------------------------------------------------------------
  // get_points_edges

  /** The entries `get_points_edges` pushes for point p, in push order: for
      every edge i, one under its bottom and then one under its top. */
  function IncidentInfos(edges: seq<Segment>, p: Point): seq<PointEdgeInfo>
  {
    if edges == [] then []
    else
      var i := |edges| - 1;
      IncidentInfos(edges[..i], p)
      + (if edges[i].bottom == p then [PointEdgeInfo(i, edges[i].top)] else [])
      + (if edges[i].top == p then [PointEdgeInfo(i, edges[i].bottom)] else [])
  }

  function Endpoints(edges: seq<Segment>): set<Point>
  {
    (set e | e in edges :: e.bottom) + (set e | e in edges :: e.top)
  }

  /** The insertion step of a stable sort in descending order of the opposite
      point: x moves left past every entry whose opposite point is smaller. */
  function InsertByOpposite(sorted: seq<PointEdgeInfo>, x: PointEdgeInfo): (r: seq<PointEdgeInfo>)
    ensures multiset(r) == multiset(sorted) + multiset{x}
    ensures |r| == |sorted| + 1
  {
    if sorted == [] then [x]
    else
      var last := sorted[|sorted| - 1];
      var init := sorted[..|sorted| - 1];
      assert sorted == init + [last];
      if Lt(last.oppositePoint, x.oppositePoint) then InsertByOpposite(init, x) + [last] else sorted + [x]
  }

  /** `sort_by(|a, b| b.opposite_point.cmp(&a.opposite_point))`, as a stable
      insertion sort. */
  function SortByOpposite(s: seq<PointEdgeInfo>): seq<PointEdgeInfo>
  {
    if s == [] then [] else InsertByOpposite(SortByOpposite(s[..|s| - 1]), s[|s| - 1])
  }

  /** No entry's opposite point is below the next entry's. */
  predicate OppositeNonIncreasing(s: seq<PointEdgeInfo>)
  {
    forall j :: 0 <= j < |s| - 1 ==> !Lt(s[j].oppositePoint, s[j + 1].oppositePoint)
  }

  lemma {:induction false} InsertByOppositeSorted(sorted: seq<PointEdgeInfo>, x: PointEdgeInfo)
    requires OppositeNonIncreasing(sorted)
    ensures OppositeNonIncreasing(InsertByOpposite(sorted, x))
    decreases |sorted|
  {
    if sorted != [] {
      var last := sorted[|sorted| - 1];
      var init := sorted[..|sorted| - 1];
      if Lt(last.oppositePoint, x.oppositePoint) {
        InsertByOppositeSorted(init, x);
        var r := InsertByOpposite(init, x);
        assert InsertByOpposite(sorted, x) == r + [last];
        var rl := r[|r| - 1];
        assert rl == x || rl == init[|init| - 1] by {
          if init != [] && !Lt(init[|init| - 1].oppositePoint, x.oppositePoint) {
            assert r == init + [x];
          } else if init != [] {
            assert r == InsertByOpposite(init[..|init| - 1], x) + [init[|init| - 1]];
          }
        }
        PointOrderIsTotal(last.oppositePoint, x.oppositePoint, x.oppositePoint);
        if init != [] {
          assert sorted[|sorted| - 2] == init[|init| - 1];
        }
      }
    }
  }

  /** The per-point sort is a permutation and lists opposite points from the
      highest down. */
  lemma {:induction false} SortByOppositeSorts(s: seq<PointEdgeInfo>)
    ensures OppositeNonIncreasing(SortByOpposite(s))
    ensures multiset(SortByOpposite(s)) == multiset(s)
    decreases |s|
  {
    if s != [] {
      SortByOppositeSorts(s[..|s| - 1]);
      InsertByOppositeSorted(SortByOpposite(s[..|s| - 1]), s[|s| - 1]);
      assert s == s[..|s| - 1] + [s[|s| - 1]];
    }
  }

  /** The table `get_points_edges` returns. */
  function PointToEdgesOf(edges: seq<Segment>): map<Point, seq<PointEdgeInfo>>
  {
    map p | p in Endpoints(edges) :: SortByOpposite(IncidentInfos(edges, p))
  }

  /** `entry(a).or_default().push(x)`. */
  function PushInfo(m: map<Point, seq<PointEdgeInfo>>, a: Point, x: PointEdgeInfo): map<Point, seq<PointEdgeInfo>>
  {
    m[a := (if a in m then m[a] else []) + [x]]
  }

  lemma IncidentInfosStep(edges: seq<Segment>, i: nat, q: Point)
    requires i < |edges|
    ensures IncidentInfos(edges[..i + 1], q) == IncidentInfos(edges[..i], q)
      + (if edges[i].bottom == q then [PointEdgeInfo(i, edges[i].top)] else [])
      + (if edges[i].top == q then [PointEdgeInfo(i, edges[i].bottom)] else [])
  {
    assert edges[..i + 1][..i] == edges[..i];
  }

  lemma {:induction false} IncidentInfosOfOther(edges: seq<Segment>, q: Point)
    requires q !in Endpoints(edges)
    ensures IncidentInfos(edges, q) == []
    decreases |edges|
  {
    if edges != [] {
      var init := edges[..|edges| - 1];
      assert forall e :: e in init ==> e in edges;
      IncidentInfosOfOther(init, q);
    }
  }

  lemma EndpointsStep(edges: seq<Segment>, i: nat)
    requires i < |edges|
    ensures Endpoints(edges[..i + 1]) == Endpoints(edges[..i]) + {edges[i].bottom, edges[i].top}
  {
    assert edges[..i + 1] == edges[..i] + [edges[i]];
  }

  /** One pass of the first loop keeps the table equal to the entries of
      the edges seen so far. */
  lemma PushEdgeInfos(edges: seq<Segment>, i: nat, m: map<Point, seq<PointEdgeInfo>>)
    requires i < |edges|
    requires m.Keys == Endpoints(edges[..i])
    requires forall q :: q in m ==> m[q] == IncidentInfos(edges[..i], q)
    ensures var m' := PushInfo(PushInfo(m, edges[i].bottom, PointEdgeInfo(i, edges[i].top)), edges[i].top, PointEdgeInfo(i, edges[i].bottom));
      && m'.Keys == Endpoints(edges[..i + 1])
      && forall q :: q in m' ==> m'[q] == IncidentInfos(edges[..i + 1], q)
  {
    var edge := edges[i];
    var m1 := PushInfo(m, edge.bottom, PointEdgeInfo(i, edge.top));
    var m2 := PushInfo(m1, edge.top, PointEdgeInfo(i, edge.bottom));
    EndpointsStep(edges, i);
    assert m2.Keys == m.Keys + {edge.bottom, edge.top};
    forall q | q in m2
      ensures m2[q] == IncidentInfos(edges[..i + 1], q)
    {
      IncidentInfosStep(edges, i, q);
      if q !in m {
        IncidentInfosOfOther(edges[..i], q);
      }
    }
  }

  /** The first loop of `get_points_edges`: every edge pushed under both
      endpoints, in edge order. */
  method CollectPointEdges(edges: seq<Segment>) returns (m: map<Point, seq<PointEdgeInfo>>)
    ensures m.Keys == Endpoints(edges)
    ensures forall q :: q in m ==> m[q] == IncidentInfos(edges, q)
  {
    m := map[];
    for i := 0 to |edges|
      invariant m.Keys == Endpoints(edges[..i])
      invariant forall q :: q in m ==> m[q] == IncidentInfos(edges[..i], q)
    {
      var edge := edges[i];
      PushEdgeInfos(edges, i, m);
      m := PushInfo(m, edge.bottom, PointEdgeInfo(i, edge.top));
      m := PushInfo(m, edge.top, PointEdgeInfo(i, edge.bottom));
    }
    assert edges[..|edges|] == edges;
  }

  /** `get_points_edges`: pushes every edge under both endpoints, then sorts
      each list (in whatever order the map yields them). */
  method GetPointsEdges(edges: seq<Segment>) returns (m: map<Point, seq<PointEdgeInfo>>)
    ensures m == PointToEdgesOf(edges)
  {
    var collected := CollectPointEdges(edges);
    m := SortEachList(collected);
    var expected := PointToEdgesOf(edges);
    assert m.Keys == expected.Keys;
    forall q | q in m
      ensures m[q] == expected[q]
    {
      assert m[q] == SortByOpposite(collected[q]);
    }
  }

  /** The second loop of `get_points_edges`: every list sorted in place. */
  method SortEachList(m0: map<Point, seq<PointEdgeInfo>>) returns (m: map<Point, seq<PointEdgeInfo>>)
    ensures m.Keys == m0.Keys
    ensures forall q :: q in m ==> m[q] == SortByOpposite(m0[q])
  {
    m := m0;
    var rest := m.Keys;
    while rest != {}
      invariant rest <= m.Keys && m.Keys == m0.Keys
      invariant forall q :: q in m ==> m[q] == if q in rest then m0[q] else SortByOpposite(m0[q])
      decreases |rest|
    {
      var q :| q in rest;
      m := m[q := SortByOpposite(m[q])];
      rest := rest - {q};
    }
  }

  lemma {:induction false} IncidentInfosContents(edges: seq<Segment>, p: Point, x: PointEdgeInfo)
    ensures x in IncidentInfos(edges, p) <==>
      && x.edgeIndex < |edges|
      && ((edges[x.edgeIndex].bottom == p && x.oppositePoint == edges[x.edgeIndex].top)
          || (edges[x.edgeIndex].top == p && x.oppositePoint == edges[x.edgeIndex].bottom))
    decreases |edges|
  {
    if edges != [] {
      var i := |edges| - 1;
      IncidentInfosContents(edges[..i], p, x);
      if x.edgeIndex < i {
        assert edges[..i][x.edgeIndex] == edges[x.edgeIndex];
      }
    }
  }

  /** Every edge i is listed under both endpoints, with the other endpoint as
      the opposite point; every listed entry comes from such an edge; each
      list is sorted with the highest opposite point first. */
  lemma PointToEdgesListsEveryEdge(edges: seq<Segment>, p: Point, x: PointEdgeInfo)
    ensures p in PointToEdgesOf(edges) <==> p in Endpoints(edges)
    ensures p in PointToEdgesOf(edges) ==> OppositeNonIncreasing(PointToEdgesOf(edges)[p])
    ensures p in PointToEdgesOf(edges) ==>
      (x in PointToEdgesOf(edges)[p] <==>
        && x.edgeIndex < |edges|
        && ((edges[x.edgeIndex].bottom == p && x.oppositePoint == edges[x.edgeIndex].top)
            || (edges[x.edgeIndex].top == p && x.oppositePoint == edges[x.edgeIndex].bottom)))
  {
    if p in PointToEdgesOf(edges) {
      SortByOppositeSorts(IncidentInfos(edges, p));
      IncidentInfosContents(edges, p, x);
      assert x in PointToEdgesOf(edges)[p] <==> x in multiset(IncidentInfos(edges, p));
    }
  }

  // ---------------------------------------------------------------------------
  // Left and right

  /** `left_right_share_top`: the order of two segments with a common top. */
  function LeftRightShareTop(s1: Segment, s2: Segment): Ordering
  {
    match Orient(s1.bottom, s1.top, s2.bottom)
    case CounterClockwise => Less
    case Clockwise => Greater
    case Collinear => Equal
  }

  /** `left_right_share_bottom`: the order of two segments with a common bottom. */
  function LeftRightShareBottom(s1: Segment, s2: Segment): Ordering
  {
    match Orient(s1.top, s1.bottom, s2.top)
    case CounterClockwise => Greater
    case Clockwise => Less
    case Collinear => Equal
  }

  /** On segments with a common top (bottom) the comparators are
      antisymmetric: swapping the arguments reverses the order. */
  lemma LeftRightComparatorsAntisymmetric(s1: Segment, s2: Segment)
    ensures s1.top == s2.top ==> LeftRightShareTop(s2, s1) == Reverse(LeftRightShareTop(s1, s2))
    ensures s1.bottom == s2.bottom ==> LeftRightShareBottom(s2, s1) == Reverse(LeftRightShareBottom(s1, s2))
  {
    OrientReversed(s1.bottom, s1.top, s2.bottom);
    OrientReversed(s1.top, s1.bottom, s2.top);
  }

  /** The free `get_left_right_edges_top`. */
  function GetLeftRightEdgesTop(s1: Segment, s2: Segment): (Segment, Segment)
  {
    if Orient(s1.bottom, s1.top, s2.bottom) == CounterClockwise then (s2, s1) else (s1, s2)
  }

  /** The free `get_left_right_edges_bottom`. */
  function GetLeftRightEdgesBottom(s1: Segment, s2: Segment): (Segment, Segment)
  {
    if Orient(s1.top, s1.bottom, s2.top) == Clockwise then (s2, s1) else (s1, s2)
  }

  /** The pair functions swap exactly when the matching comparator puts the
      second segment first; on segments with the common endpoint they are
      meant for, the result is ordered left before right. */
  lemma LeftRightEdgesOrdered(s1: Segment, s2: Segment)
    ensures GetLeftRightEdgesTop(s1, s2) == if LeftRightShareTop(s1, s2) == Less then (s2, s1) else (s1, s2)
    ensures GetLeftRightEdgesBottom(s1, s2) == if LeftRightShareBottom(s1, s2) == Less then (s2, s1) else (s1, s2)
    ensures s1.top == s2.top ==>
      var (l, r) := GetLeftRightEdgesTop(s1, s2); Orient(l.bottom, l.top, r.bottom) != CounterClockwise
    ensures s1.bottom == s2.bottom ==>
      var (l, r) := GetLeftRightEdgesBottom(s1, s2); Orient(l.top, l.bottom, r.top) != Clockwise
  {
    OrientReversed(s1.bottom, s1.top, s2.bottom);
    OrientReversed(s1.top, s1.bottom, s2.top);
  }

  /** On two segments with a common top, the test of
      `get_left_right_edges_bottom` compares a point with itself, and on two
      with a common bottom so does that of `get_left_right_edges_top`: both
      then return their arguments unchanged. */
  lemma LeftRightEdgesDegenerate(s1: Segment, s2: Segment)
    ensures s1.top == s2.top ==> GetLeftRightEdgesBottom(s1, s2) == (s1, s2)
    ensures s1.bottom == s2.bottom ==> GetLeftRightEdgesTop(s1, s2) == (s1, s2)
  {
  }

  // ---------------------------------------------------------------------------
  // get_point_type

  datatype PointType =
    | Intersection(segments: seq<Segment>)
    | Split(left: Segment, right: Segment)
    | Merge(left: Segment, right: Segment)
    | Normal(top: Segment, bottom: Segment)

  /** The segments from p to every opposite point, built with `Segment::new`,
      which panics on the first opposite point equal to p. */
  function IncidentSegments(p: Point, infos: seq<PointEdgeInfo>): (r: Result<seq<Segment>>)
    ensures r.Err? <==> exists j :: 0 <= j < |infos| && infos[j].oppositePoint == p
    ensures r.Ok? ==> |r.value| == |infos|
    ensures r.Ok? ==> forall j :: 0 <= j < |infos| ==> r.value[j] == SegmentOf(p, infos[j].oppositePoint)
    ensures r.Ok? ==> forall j :: 0 <= j < |infos| ==> ValidSegment(r.value[j])
  {
    if infos == [] then Ok([])
    else
      var head := NewSegment(p, infos[0].oppositePoint);
      var tail := IncidentSegments(p, infos[1..]);
      if head.Err? then Err(head.error)
      else if tail.Err? then
        assert exists j :: 0 <= j < |infos| && infos[j].oppositePoint == p by {
          var j :| 0 <= j < |infos[1..]| && infos[1..][j].oppositePoint == p;
          assert infos[j + 1].oppositePoint == p;
        }
        Err(tail.error)
      else
        var r := [head.value] + tail.value;
        assert forall j :: 0 < j < |infos| ==> infos[j] == infos[1..][j - 1];
        Ok(r)
  }

  /** `get_point_type` as written: Split takes its sides from
      `get_left_right_edges_bottom` and Merge from `get_left_right_edges_top`. */
  function GetPointType(p: Point, pointToEdges: map<Point, seq<PointEdgeInfo>>): (r: Result<PointType>)
    ensures r.Err? <==> p !in pointToEdges || pointToEdges[p] == [] || exists j :: 0 <= j < |pointToEdges[p]| && pointToEdges[p][j].oppositePoint == p
    ensures r.Ok? ==> (r.value.Intersection? <==> |pointToEdges[p]| != 2)
    ensures r.Ok? && r.value.Intersection? ==> r.value.segments == IncidentSegments(p, pointToEdges[p]).value
    ensures r.Ok? && |pointToEdges[p]| == 2 ==>
      var (a, b) := (pointToEdges[p][0].oppositePoint, pointToEdges[p][1].oppositePoint);
      && (r.value.Split? <==> Lt(a, p) && Lt(b, p))
      && (r.value.Merge? <==> Lt(p, a) && Lt(p, b))
      && (r.value.Normal? ==> r.value == Normal(SegmentOf(p, a), SegmentOf(p, b)))
  {
    if p !in pointToEdges then Err("Point not found in the map")
    else
      var edges := pointToEdges[p];
      if edges == [] then Err("Empty point found in the map")
      else
        var segments := IncidentSegments(p, edges);
        if segments.Err? then Err(segments.error)
        else if |segments.value| != 2 then Ok(Intersection(segments.value))
        else
          var (seg1, seg2) := (segments.value[0], segments.value[1]);
          if Lt(edges[0].oppositePoint, p) && Lt(edges[1].oppositePoint, p) then
            var (left, right) := GetLeftRightEdgesBottom(seg1, seg2);
            Ok(Split(left, right))
          else if Lt(p, edges[0].oppositePoint) && Lt(p, edges[1].oppositePoint) then
            var (left, right) := GetLeftRightEdgesTop(seg1, seg2);
            Ok(Merge(left, right))
          else Ok(Normal(seg1, seg2))
  }

  /** `get_point_type` with the pair functions matched to the common endpoint:
      the two edges of a split point share their top, those of a merge point
      their bottom. */
  function GetPointTypeCorrected(p: Point, pointToEdges: map<Point, seq<PointEdgeInfo>>): (r: Result<PointType>)
    ensures r.Err? <==> GetPointType(p, pointToEdges).Err?
    ensures r.Ok? && !r.value.Split? && !r.value.Merge? ==> r == GetPointType(p, pointToEdges)
    ensures r.Ok? ==> (r.value.Split? <==> GetPointType(p, pointToEdges).value.Split?)
    ensures r.Ok? ==> (r.value.Merge? <==> GetPointType(p, pointToEdges).value.Merge?)
  {
    if p !in pointToEdges then Err("Point not found in the map")
    else
      var edges := pointToEdges[p];
      if edges == [] then Err("Empty point found in the map")
      else
        var segments := IncidentSegments(p, edges);
        if segments.Err? then Err(segments.error)
        else if |segments.value| != 2 then Ok(Intersection(segments.value))
        else
          var (seg1, seg2) := (segments.value[0], segments.value[1]);
          if Lt(edges[0].oppositePoint, p) && Lt(edges[1].oppositePoint, p) then
            var (left, right) := GetLeftRightEdgesTop(seg1, seg2);
            Ok(Split(left, right))
          else if Lt(p, edges[0].oppositePoint) && Lt(p, edges[1].oppositePoint) then
            var (left, right) := GetLeftRightEdgesBottom(seg1, seg2);
            Ok(Merge(left, right))
          else Ok(Normal(seg1, seg2))
  }

  /** The segments a point type carries. */
  function PointTypeSegments(t: PointType): seq<Segment>
  {
    match t
    case Intersection(segments) => segments
    case Split(left, right) => [left, right]
    case Merge(left, right) => [left, right]
    case Normal(top, bottom) => [top, bottom]
  }

  /** Every segment a successful classification of p carries is a proper
      segment with p as one endpoint. */
  lemma PointTypeSegmentsAtPoint(p: Point, pointToEdges: map<Point, seq<PointEdgeInfo>>)
    requires GetPointTypeCorrected(p, pointToEdges).Ok?
    ensures forall s :: s in PointTypeSegments(GetPointTypeCorrected(p, pointToEdges).value) ==>
      ValidSegment(s) && (s.top == p || s.bottom == p)
  {
    var segments := IncidentSegments(p, pointToEdges[p]).value;
    forall j | 0 <= j < |segments|
      ensures segments[j].top == p || segments[j].bottom == p
    {
      var q := pointToEdges[p][j].oppositePoint;
      assert segments[j] == SegmentOf(p, q);
    }
  }

  /** With the corrected pair functions: both edges of a split point have p as
      top, both edges of a merge point have p as bottom, and the two sides are
      ordered left before right; on a list sorted as
      `get_points_edges` sorts it, a normal point's first edge ends at p from
      above and its second leaves p downwards. */
  lemma PointTypeEdges(p: Point, pointToEdges: map<Point, seq<PointEdgeInfo>>)
    requires GetPointTypeCorrected(p, pointToEdges).Ok?
    ensures var t := GetPointTypeCorrected(p, pointToEdges).value;
      && (t.Split? ==> t.left.top == p && t.right.top == p
                       && Orient(t.left.bottom, p, t.right.bottom) != CounterClockwise)
      && (t.Merge? ==> t.left.bottom == p && t.right.bottom == p
                       && Orient(t.left.top, p, t.right.top) != Clockwise)
      && (t.Normal? && OppositeNonIncreasing(pointToEdges[p]) ==> t.top.bottom == p && t.bottom.top == p)
      && (t.Intersection? ==> forall s :: s in t.segments ==> s.bottom == p || s.top == p)
  {
    var edges := pointToEdges[p];
    var segments := IncidentSegments(p, edges).value;
    if |edges| == 2 {
      var a, b := edges[0].oppositePoint, edges[1].oppositePoint;
      PointOrderIsTotal(a, p, b);
      PointOrderIsTotal(b, p, a);
      LeftRightEdgesOrdered(segments[0], segments[1]);
    }
  }

  /** Split vertex p = (0, 0) with edges to (1, -1) and (-1, -2): as written
      the classification names the edge to (1, -1) the left one although the
      other edge ends to its left; the corrected classification swaps them. */
  lemma SplitSidesAsWrittenExample()
    ensures var p, a, b := Point(0.0, 0.0), Point(1.0, -1.0), Point(-1.0, -2.0);
      var m := map[p := [PointEdgeInfo(0, a), PointEdgeInfo(1, b)]];
      && GetPointType(p, m) == Ok(Split(Segment(p, a), Segment(p, b)))
      && Orient(a, p, b) == CounterClockwise
      && GetPointTypeCorrected(p, m) == Ok(Split(Segment(p, b), Segment(p, a)))
  {
    var p, a, b := Point(0.0, 0.0), Point(1.0, -1.0), Point(-1.0, -2.0);
    var m := map[p := [PointEdgeInfo(0, a), PointEdgeInfo(1, b)]];
    var r := IncidentSegments(p, m[p]);
    assert r.Ok? && |r.value| == 2;
    assert r.value[0] == SegmentOf(p, a) == Segment(p, a);
    assert r.value[1] == SegmentOf(p, b) == Segment(p, b);
    assert r.value == [Segment(p, a), Segment(p, b)];
  }

  // ---------------------------------------------------------------------------
  // sort_by

  /** Rust's `sort_by` on the short slices met at one vertex: a stable
      insertion sort that moves each element left past every element the
      comparator puts after it. */
  function SortBy(s: seq<Segment>, cmp: (Segment, Segment) -> Ordering): (r: seq<Segment>)
    ensures multiset(r) == multiset(s)
    ensures |r| == |s|
    ensures forall x :: x in r ==> x in s
  {
    if s == [] then []
    else
      var init := s[..|s| - 1];
      assert s == init + [s[|s| - 1]];
      var r := InsertBy(SortBy(init, cmp), s[|s| - 1], cmp);
      assert forall x :: x in r ==> x in multiset(s);
      r
  }

  function InsertBy(sorted: seq<Segment>, x: Segment, cmp: (Segment, Segment) -> Ordering): (r: seq<Segment>)
    ensures multiset(r) == multiset(sorted) + multiset{x}
  {
    if sorted == [] then [x]
    else
      var last := sorted[|sorted| - 1];
      var init := sorted[..|sorted| - 1];
      assert sorted == init + [last];
      if cmp(x, last) == Less then InsertBy(init, x, cmp) + [last] else sorted + [x]
  }

  /** Under either comparator, two segments sorted the wrong way round are
      swapped, and two already in order are kept. */
  lemma SortByTwo(a: Segment, b: Segment, cmp: (Segment, Segment) -> Ordering)
    ensures SortBy([a, b], cmp) == if cmp(b, a) == Less then [b, a] else [a, b]
  {
    assert [a, b][..1] == [a];
    assert [a][..0] == [];
  }

  /** No element is ordered strictly before the one preceding it. */
  predicate AdjacentOrdered(s: seq<Segment>, cmp: (Segment, Segment) -> Ordering)
  {
    forall j :: 0 <= j < |s| - 1 ==> cmp(s[j + 1], s[j]) != Less
  }

  /** The inserted element ends up last, or the old last element stays last. */
  lemma {:induction false} InsertByLast(sorted: seq<Segment>, x: Segment, cmp: (Segment, Segment) -> Ordering)
    ensures var r := InsertBy(sorted, x, cmp);
      |r| == |sorted| + 1 && (r[|r| - 1] == x || (sorted != [] && r[|r| - 1] == sorted[|sorted| - 1]))
  {
    var r := InsertBy(sorted, x, cmp);
    assert |r| == |multiset(r)| == |sorted| + 1;
  }

  lemma {:induction false} InsertByOrdered(sorted: seq<Segment>, x: Segment, cmp: (Segment, Segment) -> Ordering)
    requires AdjacentOrdered(sorted, cmp)
    requires forall a :: a in sorted ==> cmp(a, x) == Reverse(cmp(x, a))
    ensures AdjacentOrdered(InsertBy(sorted, x, cmp), cmp)
    decreases |sorted|
  {
    if sorted != [] {
      var last := sorted[|sorted| - 1];
      var init := sorted[..|sorted| - 1];
      if cmp(x, last) == Less {
        assert AdjacentOrdered(init, cmp) by {
          forall j | 0 <= j < |init| - 1
            ensures cmp(init[j + 1], init[j]) != Less
          {
            assert init[j] == sorted[j] && init[j + 1] == sorted[j + 1];
          }
        }
        InsertByOrdered(init, x, cmp);
        InsertByLast(init, x, cmp);
        var front := InsertBy(init, x, cmp);
        var r := front + [last];
        assert InsertBy(sorted, x, cmp) == r;
        forall j | 0 <= j < |r| - 1
          ensures cmp(r[j + 1], r[j]) != Less
        {
          if j < |front| - 1 {
            assert r[j] == front[j] && r[j + 1] == front[j + 1];
          } else if front[|front| - 1] != x {
            assert r[j] == sorted[|sorted| - 2];
          }
        }
      }
    }
  }

  /** With an antisymmetric comparator the insertion sort leaves no adjacent
      pair out of order. */
  lemma {:induction false} SortByOrdered(s: seq<Segment>, cmp: (Segment, Segment) -> Ordering)
    requires forall a, b :: a in s && b in s ==> cmp(b, a) == Reverse(cmp(a, b))
    ensures AdjacentOrdered(SortBy(s, cmp), cmp)
    decreases |s|
  {
    if s != [] {
      var init := s[..|s| - 1];
      var x := s[|s| - 1];
      assert forall a :: a in init ==> a in s;
      SortByOrdered(init, cmp);
      InsertByOrdered(SortBy(init, cmp), x, cmp);
    }
  }

  /** A comparator that finds every pair equal leaves the order unchanged. */
  lemma {:induction false} SortByAllEqual(s: seq<Segment>, cmp: (Segment, Segment) -> Ordering)
    requires forall i, j :: 0 <= i < |s| && 0 <= j < |s| ==> cmp(s[i], s[j]) == Equal
    ensures SortBy(s, cmp) == s
    decreases |s|
  {
    if s != [] {
      var init := s[..|s| - 1];
      var x := s[|s| - 1];
      assert s == init + [x];
      SortByAllEqual(init, cmp);
      if init != [] {
        assert cmp(x, init[|init| - 1]) == Equal;
      }
    }
  }

  /** `process_intersection_point` as written sorts the segments leaving p
      downwards (top p) with the comparator for a common bottom, and those
      arriving from below (bottom p) with the one for a common top. Each
      comparison then orients p, another point and p again, which is
      collinear, so both sorts leave their input unchanged. */
  lemma IntersectionSortAsWrittenIsIdentity(tops: seq<Segment>, bottoms: seq<Segment>, p: Point)
    requires forall t :: t in tops ==> t.top == p
    requires forall b :: b in bottoms ==> b.bottom == p
    ensures SortBy(tops, LeftRightShareBottom) == tops
    ensures SortBy(bottoms, LeftRightShareTop) == bottoms
  {
    SortByAllEqual(tops, LeftRightShareBottom);
    SortByAllEqual(bottoms, LeftRightShareTop);
  }

  /** Sorted with the comparator that matches their common endpoint, the
      segments at p come out ordered side by side. */
  lemma IntersectionSortOrdered(tops: seq<Segment>, bottoms: seq<Segment>, p: Point)
    requires forall t :: t in tops ==> t.top == p
    requires forall b :: b in bottoms ==> b.bottom == p
    ensures AdjacentOrdered(SortBy(tops, LeftRightShareTop), LeftRightShareTop)
    ensures AdjacentOrdered(SortBy(bottoms, LeftRightShareBottom), LeftRightShareBottom)
  {
    forall a, b | a in tops && b in tops
      ensures LeftRightShareTop(b, a) == Reverse(LeftRightShareTop(a, b))
    {
      LeftRightComparatorsAntisymmetric(a, b);
    }
    SortByOrdered(tops, LeftRightShareTop);
    forall a, b | a in bottoms && b in bottoms
      ensures LeftRightShareBottom(b, a) == Reverse(LeftRightShareBottom(a, b))
    {
      LeftRightComparatorsAntisymmetric(a, b);
    }
    SortByOrdered(bottoms, LeftRightShareBottom);
  }

  /** Two segments leaving (0, 0) downwards, the one to (-1, -1) listed
      first: the sort as written keeps them, while the matching comparator
      swaps them. */
  lemma IntersectionSortExample()
    ensures var p, toRight, toLeft := Point(0.0, 0.0), Point(1.0, -1.0), Point(-1.0, -1.0);
      var tops := [Segment(p, toLeft), Segment(p, toRight)];
      && SortBy(tops, LeftRightShareBottom) == tops
      && !AdjacentOrdered(tops, LeftRightShareTop)
      && SortBy(tops, LeftRightShareTop) == [Segment(p, toRight), Segment(p, toLeft)]
  {
    var p, toRight, toLeft := Point(0.0, 0.0), Point(1.0, -1.0), Point(-1.0, -1.0);
    var tops := [Segment(p, toLeft), Segment(p, toRight)];
    SortByTwo(Segment(p, toLeft), Segment(p, toRight), LeftRightShareBottom);
    SortByTwo(Segment(p, toLeft), Segment(p, toRight), LeftRightShareTop);
  }

  // ---------------------------------------------------------------------------
  // Interval

  /** A region of the sweep line between two active segments, with the
      monotone polygons being built inside it. */
  datatype Interval = Interval(lastSeen: Point, leftSegment: Segment, rightSegment: Segment, polygonsList: seq<MonotonePolygon>)

  /** `Interval::new`: no polygons yet. */
  function NewInterval(p: Point, left: Segment, right: Segment): Interval
  {
    Interval(p, left, right, [])
  }

  /** `Interval::replace_segment`: replaces the left side when it equals
      `oldSegment`, otherwise the right side when it does, and panics otherwise. */
  function ReplaceSegment(interval: Interval, oldSegment: Segment, newSegment: Segment): (r: Result<Interval>)
    ensures r.Err? <==> interval.leftSegment != oldSegment && interval.rightSegment != oldSegment
    ensures r.Ok? ==> r.value.lastSeen == interval.lastSeen && r.value.polygonsList == interval.polygonsList
    ensures interval.leftSegment == oldSegment ==> r == Ok(interval.(leftSegment := newSegment))
    ensures interval.leftSegment != oldSegment && interval.rightSegment == oldSegment ==> r == Ok(interval.(rightSegment := newSegment))
  {
    if interval.leftSegment == oldSegment then Ok(interval.(leftSegment := newSegment))
    else if interval.rightSegment == oldSegment then Ok(interval.(rightSegment := newSegment))
    else Err("Segment not found in interval")
  }

  /** `Interval::opposite_segment`: the other side, or a panic when the
      segment is neither side. */
  function OppositeSegment(interval: Interval, segment: Segment): (r: Result<Segment>)
    ensures r.Err? <==> segment != interval.leftSegment && segment != interval.rightSegment
    ensures r.Ok? ==> r.value in {interval.leftSegment, interval.rightSegment}
    ensures segment == interval.leftSegment ==> r == Ok(interval.rightSegment)
    ensures segment != interval.leftSegment && segment == interval.rightSegment ==> r == Ok(interval.leftSegment)
  {
    if segment == interval.leftSegment then Ok(interval.rightSegment)
    else if segment == interval.rightSegment then Ok(interval.leftSegment)
    else Err("Segment not found in interval")
  }

  /** Replacing a side changes only that side (the left one when both match),
      and the replacement then sees the same opposite side as the segment it
      replaced; the opposite of the opposite is the segment itself. */
  lemma ReplaceAndOppositeAgree(interval: Interval, oldSegment: Segment, newSegment: Segment)
    requires ReplaceSegment(interval, oldSegment, newSegment).Ok?
    requires newSegment != interval.leftSegment && newSegment != interval.rightSegment
    ensures var iv := ReplaceSegment(interval, oldSegment, newSegment).value;
      && (iv.leftSegment == interval.leftSegment || iv.rightSegment == interval.rightSegment)
      && (interval.leftSegment == oldSegment ==> iv.leftSegment == newSegment && iv.rightSegment == interval.rightSegment)
      && (interval.leftSegment != oldSegment ==> iv.rightSegment == newSegment && iv.leftSegment == interval.leftSegment)
      && OppositeSegment(iv, newSegment) == OppositeSegment(interval, oldSegment)
      && OppositeSegment(iv, newSegment).Ok?
    ensures interval.leftSegment != interval.rightSegment ==>
      OppositeSegment(interval, OppositeSegment(interval, oldSegment).value) == Ok(oldSegment)
  {
  }
}
