/** Segment predicates of the triangulation crate: the sweep event order, the
    bounding-box test for collinear points, the integer-coded orientation and
    the four-orientation segment intersection test. */
module Intersection {
  import opened Points

  /** A sweep event: a segment endpoint, the segment's index and whether the
      endpoint is the segment's top. */
  datatype Event = Event(p: Point, index: nat, isTop: bool)

  function CompareNat(a: nat, b: nat): Ordering
  {
    if a < b then Less else if a == b then Equal else Greater
  }

  /** `bool::cmp`: false before true. */
  function CompareBool(a: bool, b: bool): Ordering
  {
    if a == b then Equal else if !a then Less else Greater
  }

  /** `Event::cmp`: points first; at equal points top events come first
      (the reversed boolean comparison), then indices ascending. */
  function CompareEvents(a: Event, b: Event): Ordering
  {
    if a.p == b.p then
      if a.isTop == b.isTop then CompareNat(a.index, b.index) else CompareBool(b.isTop, a.isTop)
    else Compare(a.p, b.p)
  }

  /** The strict order that `CompareEvents` induces, spelled out. */
  predicate EventBefore(a: Event, b: Event)
  {
    || Lt(a.p, b.p)
    || (a.p == b.p && a.isTop && !b.isTop)
    || (a.p == b.p && a.isTop == b.isTop && a.index < b.index)
  }

  /** The event order is the lexicographic order on (point, top first, index):
      it agrees with equality, is antisymmetric and transitive. */
  lemma EventOrderIsTotal(a: Event, b: Event, c: Event)
    ensures CompareEvents(a, b) == Less <==> EventBefore(a, b)
    ensures CompareEvents(a, b) == Equal <==> a == b
    ensures CompareEvents(b, a) == Reverse(CompareEvents(a, b))
    ensures EventBefore(a, b) && EventBefore(b, c) ==> EventBefore(a, c)
    ensures a == b || EventBefore(a, b) || EventBefore(b, a)
  {
    PointOrderIsTotal(a.p, b.p, c.p);
  }

  function Max(a: real, b: real): real
  {
    if a >= b then a else b
  }

  function Min(a: real, b: real): real
  {
    if a <= b then a else b
  }

  /** `on_segment_if_collinear`: q lies in the closed bounding box of p and r. */
  predicate OnSegmentIfCollinear(p: Point, q: Point, r: Point)
  {
    q.x <= Max(p.x, r.x) && q.x >= Min(p.x, r.x) && q.y <= Max(p.y, r.y) && q.y >= Min(p.y, r.y)
  }

  /** The box test is the betweenness of each coordinate, does not depend on
      the order of the two corners, and holds at both corners. */
  lemma OnSegmentIfCollinearIsBetweenness(p: Point, q: Point, r: Point)
    ensures OnSegmentIfCollinear(p, q, r) <==>
      && ((p.x <= q.x <= r.x) || (r.x <= q.x <= p.x))
      && ((p.y <= q.y <= r.y) || (r.y <= q.y <= p.y))
    ensures OnSegmentIfCollinear(p, q, r) == OnSegmentIfCollinear(r, q, p)
    ensures OnSegmentIfCollinear(p, p, r) && OnSegmentIfCollinear(p, r, r)
  {
  }

  /** The documentation examples and the test cases of the box test. */
  lemma OnSegmentIfCollinearExamples()
    ensures OnSegmentIfCollinear(Point(0.0, 0.0), Point(2.0, 2.0), Point(4.0, 4.0))
    ensures !OnSegmentIfCollinear(Point(0.0, 0.0), Point(5.0, 5.0), Point(4.0, 4.0))
    ensures OnSegmentIfCollinear(Point(0.0, 0.0), Point(-1.0, -1.0), Point(-2.0, -2.0))
    ensures !OnSegmentIfCollinear(Point(0.0, 0.0), Point(0.0, 2.0), Point(0.0, 1.0))
  {
  }

  /** `intersection::orientation`: 0 collinear, 1 clockwise, 2 counter-clockwise. */
  function OrientationCode(p: Point, q: Point, r: Point): int
  {
    var val1 := (q.y - p.y) * (r.x - q.x);
    var val2 := (r.y - q.y) * (q.x - p.x);
    if val1 == val2 then 0 else if val1 > val2 then 1 else 2
  }

  function Code(o: Orientation): int
  {
    match o
    case Collinear => 0
    case Clockwise => 1
    case CounterClockwise => 2
  }

  /** The integer orientation takes only the values 0, 1 and 2, and is the code
      of the `point::orientation` result; reversing the triple swaps 1 and 2. */
  lemma OrientationCodeAgrees(p: Point, q: Point, r: Point)
    ensures OrientationCode(p, q, r) in {0, 1, 2}
    ensures OrientationCode(p, q, r) == Code(Orient(p, q, r))
    ensures OrientationCode(p, q, r) == 0 <==> OrientationCode(r, q, p) == 0
    ensures OrientationCode(p, q, r) == 1 <==> OrientationCode(r, q, p) == 2
  {
    OrientReversed(p, q, r);
  }

  /** `do_intersect`: the general crossing test on the four orientations,
      then the four collinear special cases. */
  predicate DoIntersect(s1: Segment, s2: Segment)
  {
    var p1, q1, p2, q2 := s1.bottom, s1.top, s2.bottom, s2.top;
    var o1 := OrientationCode(p1, q1, p2);
    var o2 := OrientationCode(p1, q1, q2);
    var o3 := OrientationCode(p2, q2, p1);
    var o4 := OrientationCode(p2, q2, q1);
    || (o1 != o2 && o3 != o4)
    || (o1 == 0 && OnSegmentIfCollinear(p1, p2, q1))
    || (o2 == 0 && OnSegmentIfCollinear(p1, q2, q1))
    || (o3 == 0 && OnSegmentIfCollinear(p2, p1, q2))
    || (o4 == 0 && OnSegmentIfCollinear(p2, q1, q2))
  }

  /** The test does not depend on the order of its arguments: swapping them
      exchanges o1/o2 with o3/o4. */
  lemma DoIntersectSymmetric(s1: Segment, s2: Segment)
    ensures DoIntersect(s1, s2) == DoIntersect(s2, s1)
  {
  }

  /** Endpoints strictly on opposite sides of each other's line intersect. */
  lemma StrictCrossingIntersects(s1: Segment, s2: Segment)
    requires Orient(s1.bottom, s1.top, s2.bottom) == Mirror(Orient(s1.bottom, s1.top, s2.top)) != Collinear
    requires Orient(s2.bottom, s2.top, s1.bottom) == Mirror(Orient(s2.bottom, s2.top, s1.top)) != Collinear
    ensures DoIntersect(s1, s2)
  {
    OrientationCodeAgrees(s1.bottom, s1.top, s2.bottom);
    OrientationCodeAgrees(s1.bottom, s1.top, s2.top);
    OrientationCodeAgrees(s2.bottom, s2.top, s1.bottom);
    OrientationCodeAgrees(s2.bottom, s2.top, s1.top);
  }

  /** `share_endpoint`. */
  predicate ShareEndpoint(s1: Segment, s2: Segment)
  {
    s1.bottom == s2.bottom || s1.bottom == s2.top || s1.top == s2.bottom || s1.top == s2.top
  }

  /** `share_endpoint` is symmetric and holds iff the endpoint sets meet. */
  lemma ShareEndpointMeansCommonPoint(s1: Segment, s2: Segment)
    ensures ShareEndpoint(s1, s2) == ShareEndpoint(s2, s1)
    ensures ShareEndpoint(s1, s2) <==> {s1.bottom, s1.top} * {s2.bottom, s2.top} != {}
  {
    if ShareEndpoint(s1, s2) {
      var c :| c in {s1.bottom, s1.top} && c in {s2.bottom, s2.top};
      assert c in {s1.bottom, s1.top} * {s2.bottom, s2.top};
    }
  }

  /** A point is collinear with any segment that has it as an endpoint. */
  lemma EndpointIsCollinear(p: Point, q: Point)
    ensures OrientationCode(p, q, p) == 0 && OrientationCode(p, q, q) == 0
  {
  }

  /** Segments with a common endpoint intersect: the common point is collinear
      with the other segment and inside its bounding box. */
  lemma SharedEndpointIntersects(s1: Segment, s2: Segment)
    requires ShareEndpoint(s1, s2)
    ensures DoIntersect(s1, s2)
  {
    EndpointIsCollinear(s1.bottom, s1.top);
    EndpointIsCollinear(s2.bottom, s2.top);
    OnSegmentIfCollinearIsBetweenness(s1.bottom, s1.top, s1.top);
    OnSegmentIfCollinearIsBetweenness(s2.bottom, s2.top, s2.top);
  }

  /** Collinear segments, the first entirely before the second in the sweep's
      point order, do not intersect: all four orientations are collinear and
      no endpoint lies in the other segment's bounding box. */
  lemma SeparatedCollinearDoNotIntersect(s1: Segment, s2: Segment)
    requires ValidSegment(s1) && ValidSegment(s2)
    requires Orient(s1.bottom, s1.top, s2.bottom) == Collinear && Orient(s1.bottom, s1.top, s2.top) == Collinear
    requires Lt(s1.top, s2.bottom)
    ensures !DoIntersect(s1, s2)
  {
    OrientationCodeAgrees(s1.bottom, s1.top, s2.bottom);
    OrientationCodeAgrees(s1.bottom, s1.top, s2.top);
    OrientationCodeAgrees(s2.bottom, s2.top, s1.bottom);
    OrientationCodeAgrees(s2.bottom, s2.top, s1.top);
    CollinearBothWays(s1, s2);
    if s1.top.y == s2.bottom.y {
      CollinearAtOneHeight(s1, s2);
    }
  }

  /** When the top of s1 and the bottom of s2 are different points at the same
      height on one line, that line is horizontal. */
  lemma CollinearAtOneHeight(s1: Segment, s2: Segment)
    requires ValidSegment(s1) && ValidSegment(s2)
    requires Orient(s1.bottom, s1.top, s2.bottom) == Collinear && Orient(s1.bottom, s1.top, s2.top) == Collinear
    requires s1.top.y == s2.bottom.y && s1.top != s2.bottom
    ensures s1.bottom.y == s1.top.y && s2.top.y == s2.bottom.y
  {
    var a, b, c, d := s1.bottom, s1.top, s2.bottom, s2.top;
    OrientBySignedArea(a, b, c);
    OrientBySignedArea(a, b, d);
    var ux, uy := b.x - a.x, b.y - a.y;
    assert ux * (c.y - a.y) - uy * (c.x - a.x) == 0.0;
    assert c.y - a.y == uy;
    assert uy * (b.x - c.x) == 0.0;
    assert b.x - c.x != 0.0;
    assert uy == 0.0;
    assert ux != 0.0;
    assert ux * (d.y - a.y) == 0.0;
  }

  /** Segments on parallel, distinct lines do not intersect: the endpoints of
      s2 are strictly on one side of the line of s1. */
  lemma ParallelDisjointDoNotIntersect(s1: Segment, s2: Segment)
    requires ValidSegment(s1) && ValidSegment(s2)
    requires Cross(SubPoints(s1.top, s1.bottom), SubPoints(s2.top, s2.bottom)) == 0.0
    requires Orient(s1.bottom, s1.top, s2.bottom) != Collinear
    ensures !DoIntersect(s1, s2)
  {
    var a, b, c, d := s1.bottom, s1.top, s2.bottom, s2.top;
    OrientBySignedArea(a, b, c);
    OrientBySignedArea(a, b, d);
    OrientBySignedArea(c, d, a);
    OrientBySignedArea(c, d, b);
    OrientationCodeAgrees(a, b, c);
    OrientationCodeAgrees(a, b, d);
    OrientationCodeAgrees(c, d, a);
    OrientationCodeAgrees(c, d, b);
    ParallelSameSide(a, b, c, d);
  }

  /** With b - a parallel to d - c, both c and d make the same signed area
      with a and b, and both a and b make the same signed area with c and d. */
  lemma ParallelSameSide(a: Point, b: Point, c: Point, d: Point)
    requires Cross(SubPoints(b, a), SubPoints(d, c)) == 0.0
    ensures Cross(SubPoints(b, a), SubPoints(d, a)) == Cross(SubPoints(b, a), SubPoints(c, a))
    ensures Cross(SubPoints(d, c), SubPoints(b, c)) == Cross(SubPoints(d, c), SubPoints(a, c))
  {
  }

  /** If both endpoints of s2 are on the line of s1 (s1 non-degenerate), both
      endpoints of s1 are on the line of s2. */
  lemma CollinearBothWays(s1: Segment, s2: Segment)
    requires s1.bottom != s1.top && s2.bottom != s2.top
    requires Orient(s1.bottom, s1.top, s2.bottom) == Collinear && Orient(s1.bottom, s1.top, s2.top) == Collinear
    ensures Orient(s2.bottom, s2.top, s1.bottom) == Collinear && Orient(s2.bottom, s2.top, s1.top) == Collinear
  {
    var a, b, c, d := s1.bottom, s1.top, s2.bottom, s2.top;
    OrientBySignedArea(a, b, c);
    OrientBySignedArea(a, b, d);
    OrientBySignedArea(c, d, a);
    OrientBySignedArea(c, d, b);
    var ux, uy := b.x - a.x, b.y - a.y;
    var cx, cy := c.x - a.x, c.y - a.y;
    var dx, dy := d.x - a.x, d.y - a.y;
    assert ux * cy - uy * cx == 0.0;
    assert ux * dy - uy * dx == 0.0;
    // The line of s1 through a with direction (ux, uy) holds c and d, so the
    // direction of s2 is parallel to (ux, uy) and s2's line holds a and b.
    assert (dx - cx) * uy == (dy - cy) * ux;
    assert Cross(SubPoints(d, c), SubPoints(a, c)) == 0.0 by {
      assert Cross(SubPoints(d, c), SubPoints(a, c)) == (dx - cx) * (-cy) - (dy - cy) * (-cx);
      CrossOfParallel(ux, uy, cx, cy, dx, dy);
    }
    assert Cross(SubPoints(d, c), SubPoints(b, c)) == 0.0 by {
      assert Cross(SubPoints(d, c), SubPoints(b, c)) == (dx - cx) * (uy - cy) - (dy - cy) * (ux - cx);
      CrossOfParallelShifted(ux, uy, cx, cy, dx, dy);
    }
  }

  lemma CrossOfParallel(ux: real, uy: real, cx: real, cy: real, dx: real, dy: real)
    requires ux != 0.0 || uy != 0.0
    requires ux * cy - uy * cx == 0.0 && ux * dy - uy * dx == 0.0
    ensures (dx - cx) * (-cy) - (dy - cy) * (-cx) == 0.0
  {
  }

  lemma CrossOfParallelShifted(ux: real, uy: real, cx: real, cy: real, dx: real, dy: real)
    requires ux != 0.0 || uy != 0.0
    requires ux * cy - uy * cx == 0.0 && ux * dy - uy * dx == 0.0
    ensures (dx - cx) * (uy - cy) - (dy - cy) * (ux - cx) == 0.0
  {
  }

  /** The crossing, T-touch and shared-endpoint cases of the crate's tests. */
  lemma DoIntersectExamples()
    ensures DoIntersect(SegmentOf(Point(0.0, -1.0), Point(0.0, 1.0)), SegmentOf(Point(-1.0, 0.0), Point(1.0, 0.0)))
    ensures DoIntersect(SegmentOf(Point(0.0, 0.0), Point(1.0, 1.0)), SegmentOf(Point(1.0, 0.0), Point(0.0, 1.0)))
    ensures DoIntersect(SegmentOf(Point(0.0, 0.0), Point(0.0, 1.0)), SegmentOf(Point(0.0, 1.0), Point(1.0, 1.0)))
    ensures DoIntersect(SegmentOf(Point(0.0, 0.0), Point(0.0, 1.0)), SegmentOf(Point(0.0, 0.0), Point(1.0, 1.0)))
    ensures DoIntersect(SegmentOf(Point(0.0, 0.0), Point(0.0, 1.0)), SegmentOf(Point(0.0, 0.5), Point(1.0, 1.0)))
  {
  }

  /** The separated and parallel cases of the crate's tests. */
  lemma DoNotIntersectExamples()
    ensures !DoIntersect(SegmentOf(Point(0.0, 0.0), Point(0.0, 1.0)), SegmentOf(Point(1.0, 2.0), Point(-1.0, 2.0)))
    ensures !DoIntersect(SegmentOf(Point(0.0, 0.0), Point(1.0, 0.0)), SegmentOf(Point(2.0, 1.0), Point(2.0, -1.0)))
    ensures !DoIntersect(SegmentOf(Point(0.0, 0.0), Point(1.0, 1.0)), SegmentOf(Point(1.0, 2.0), Point(0.0, 1.0)))
    ensures !DoIntersect(SegmentOf(Point(0.0, -1.0), Point(0.0, 1.0)), SegmentOf(Point(1.0, -2.0), Point(1.0, 1.0)))
    ensures !DoIntersect(SegmentOf(Point(0.0, 0.0), Point(2.0, 2.0)), SegmentOf(Point(3.0, 3.0), Point(4.0, 4.0)))
  {
  }
}
