/** Geometric primitives of the triangulation crate: points, vectors and their
    arithmetic, the (y, x) point order, normalised segments, the exact
    orientation test, and the edge preparation that feeds the sweep
    (`calc_dedup_edges`, `split_polygon_on_repeated_edges`). Coordinates are
    exact reals standing in for `f32`. */
module Points {
  import opened Wrappers

  datatype Point = Point(x: real, y: real)

  datatype Vector = Vector(x: real, y: real)

  datatype Ordering = Less | Equal | Greater

  function Reverse(o: Ordering): Ordering
  {
    match o
    case Less => Greater
    case Equal => Equal
    case Greater => Less
  }

  function CompareCoord(a: real, b: real): Ordering
  {
    if a < b then Less else if a == b then Equal else Greater
  }

  // ---------------------------------------------------------------------------
  // Point order

  /** `p < q` on points: y first, x breaks ties. */
  predicate Lt(a: Point, b: Point)
  {
    a.y < b.y || (a.y == b.y && a.x < b.x)
  }

  /** `Point::partial_cmp`, which `cmp` unwraps (there is no NaN among reals). */
  function Compare(a: Point, b: Point): Ordering
  {
    if a.y == b.y then CompareCoord(a.x, b.x) else CompareCoord(a.y, b.y)
  }

  /** The point order is lexicographic on (y, x), agrees with equality and is
      a strict total order. */
  lemma PointOrderIsTotal(a: Point, b: Point, c: Point)
    ensures Compare(a, b) == Less <==> Lt(a, b)
    ensures Compare(a, b) == Equal <==> a == b
    ensures Compare(a, b) == Greater <==> Lt(b, a)
    ensures Compare(b, a) == Reverse(Compare(a, b))
    ensures !Lt(a, a)
    ensures Lt(a, b) && Lt(b, c) ==> Lt(a, c)
    ensures a == b || Lt(a, b) || Lt(b, a)
  {
  }

  // ---------------------------------------------------------------------------
  // Arithmetic

  /** `Point + Vector` and `Point::add_vector`. */
  function AddVector(p: Point, v: Vector): Point
  {
    Point(p.x + v.x, p.y + v.y)
  }

  /** `Point - Point` and `Point::sub`. */
  function SubPoints(p: Point, q: Point): Vector
  {
    Vector(p.x - q.x, p.y - q.y)
  }

  /** `Point::add`: the componentwise sum of two points, as a vector. */
  function AddPoints(p: Point, q: Point): Vector
  {
    Vector(p.x + q.x, p.y + q.y)
  }

  function VectorAdd(u: Vector, v: Vector): Vector
  {
    Vector(u.x + v.x, u.y + v.y)
  }

  function VectorSub(u: Vector, v: Vector): Vector
  {
    Vector(u.x - v.x, u.y - v.y)
  }

  /** `Vector::scale` and `Vector * Coord`. */
  function Scale(v: Vector, factor: real): Vector
  {
    Vector(v.x * factor, v.y * factor)
  }

  /** `Vector / Coord`. */
  function Divide(v: Vector, divisor: real): Vector
    requires divisor != 0.0
  {
    Vector(v.x / divisor, v.y / divisor)
  }

  function Negate(v: Vector): Vector
  {
    Vector(-v.x, -v.y)
  }

  /** Adding a difference back recovers the point, and the other way round. */
  lemma AddVectorSubPointsRoundTrip(p: Point, q: Point, v: Vector)
    ensures AddVector(q, SubPoints(p, q)) == p
    ensures SubPoints(AddVector(p, v), p) == v
    ensures AddPoints(p, q) == AddPoints(q, p)
  {
  }

  /** Vector subtraction is addition of the negation; negation and division
      undo themselves and scaling. */
  lemma VectorArithmeticLaws(u: Vector, v: Vector, f: real)
    ensures VectorSub(u, v) == VectorAdd(u, Negate(v))
    ensures Negate(Negate(v)) == v
    ensures VectorAdd(VectorSub(u, v), v) == u
    ensures f != 0.0 ==> Divide(Scale(v, f), f) == v
  {
    if f != 0.0 {
      assert v.x * f / f == v.x;
      assert v.y * f / f == v.y;
    }
  }

  /** The four `Point + Vector` cases of the crate's tests. */
  lemma AddVectorExamples()
    ensures AddVector(Point(1.0, 0.0), Vector(1.0, 1.0)) == Point(2.0, 1.0)
    ensures AddVector(Point(0.0, 0.0), Vector(1.0, 1.0)) == Point(1.0, 1.0)
    ensures AddVector(Point(1.0, 1.0), Vector(-1.0, -1.0)) == Point(0.0, 0.0)
    ensures AddVector(Point(10.0, 20.0), Vector(30.0, 40.0)) == Point(40.0, 60.0)
  {
  }

  // ---------------------------------------------------------------------------
  // Segments

  datatype Segment = Segment(top: Point, bottom: Point)

  /** A segment as `Segment::new` builds it: bottom strictly below top. */
  predicate ValidSegment(s: Segment)
  {
    Lt(s.bottom, s.top)
  }

  /** The normalised segment through two points (the non-panicking part of
      `Segment::new`). */
  function SegmentOf(p1: Point, p2: Point): Segment
  {
    if Lt(p1, p2) then Segment(p2, p1) else Segment(p1, p2)
  }

  /** `Segment::new`: panics on two identical points, otherwise stores the
      smaller point as `bottom` and the larger as `top`. */
  function NewSegment(p1: Point, p2: Point): (r: Result<Segment>)
    ensures r.Err? <==> p1 == p2
    ensures r.Ok? ==> ValidSegment(r.value)
    ensures r.Ok? ==> {r.value.bottom, r.value.top} == {p1, p2}
  {
    if p1 == p2 then Err("Segment cannot have two identical points") else Ok(SegmentOf(p1, p2))
  }

  /** `Segment::new(a, b) == Segment::new(b, a)`, and a normalised segment is
      rebuilt unchanged from its endpoints in either order. */
  lemma NewSegmentSymmetric(a: Point, b: Point, s: Segment)
    ensures NewSegment(a, b) == NewSegment(b, a)
    ensures ValidSegment(s) ==> NewSegment(s.bottom, s.top) == Ok(s) && NewSegment(s.top, s.bottom) == Ok(s)
  {
  }

  /** `Segment::partial_cmp`: bottoms first, tops break ties. */
  function CompareSegments(s1: Segment, s2: Segment): Ordering
  {
    if s1.bottom == s2.bottom then Compare(s1.top, s2.top) else Compare(s1.bottom, s2.bottom)
  }

  /** The segment order agrees with equality, is antisymmetric and transitive. */
  lemma SegmentOrderIsTotal(s1: Segment, s2: Segment, s3: Segment)
    ensures CompareSegments(s1, s2) == Equal <==> s1 == s2
    ensures CompareSegments(s2, s1) == Reverse(CompareSegments(s1, s2))
    ensures CompareSegments(s1, s2) == Less && CompareSegments(s2, s3) == Less ==> CompareSegments(s1, s3) == Less
  {
  }

  predicate IsHorizontal(s: Segment)
  {
    s.bottom.y == s.top.y
  }

  predicate IsVertical(s: Segment)
  {
    s.bottom.x == s.top.x
  }

  /** `Segment::point_on_line_x`: the x of the segment's line at height y
      (the bottom x for a horizontal segment). */
  function PointOnLineX(s: Segment, y: real): real
  {
    if s.bottom.y == s.top.y then s.bottom.x
    else s.bottom.x + (y - s.bottom.y) * ((s.top.x - s.bottom.x) / (s.top.y - s.bottom.y))
  }

  lemma MulDivCancel(a: real, b: real)
    requires b != 0.0
    ensures b * (a / b) == a
  {
  }

  /** The line of `point_on_line_x` passes through the bottom endpoint, and
      through the top one unless the segment is horizontal. */
  lemma PointOnLineXThroughEndpoints(s: Segment)
    ensures PointOnLineX(s, s.bottom.y) == s.bottom.x
    ensures !IsHorizontal(s) ==> PointOnLineX(s, s.top.y) == s.top.x
  {
    if s.bottom.y != s.top.y {
      var q := (s.top.x - s.bottom.x) / (s.top.y - s.bottom.y);
      MulDivCancel(s.top.x - s.bottom.x, s.top.y - s.bottom.y);
      assert PointOnLineX(s, s.top.y) == s.bottom.x + (s.top.y - s.bottom.y) * q;
    }
  }

  /** `Segment::point_on_line` as written: the general case compares the line's
      x at p.y against `bottom.x <= x <= top.x`, which is an empty range when
      the segment leans left (top.x < bottom.x). */
  predicate PointOnLine(s: Segment, p: Point)
  {
    if IsHorizontal(s) then s.bottom.x <= p.x && p.x <= s.top.x
    else if IsVertical(s) then s.bottom.y <= p.y && p.y <= s.top.y
    else
      var xCoord := PointOnLineX(s, p.y);
      s.bottom.x <= xCoord && xCoord <= s.top.x
  }

  /** The segment from (1, 0) up to (0, 1): `point_on_line` rejects its own
      bottom endpoint. */
  lemma PointOnLineRejectsLeftLeaningEndpoint()
    ensures var s := Segment(Point(0.0, 1.0), Point(1.0, 0.0));
            ValidSegment(s) && !PointOnLine(s, s.bottom) && !PointOnLine(s, s.top)
  {
    var s := Segment(Point(0.0, 1.0), Point(1.0, 0.0));
    PointOnLineXThroughEndpoints(s);
  }

  /** `point_on_line` with the x range taken between the smaller and the larger
      endpoint x, as the horizontal and vertical cases already do. */
  predicate PointOnLineCorrected(s: Segment, p: Point)
  {
    if IsHorizontal(s) then s.bottom.x <= p.x && p.x <= s.top.x
    else if IsVertical(s) then s.bottom.y <= p.y && p.y <= s.top.y
    else
      var xCoord := PointOnLineX(s, p.y);
      var lo := if s.bottom.x <= s.top.x then s.bottom.x else s.top.x;
      var hi := if s.bottom.x <= s.top.x then s.top.x else s.bottom.x;
      lo <= xCoord && xCoord <= hi
  }

  /** Every normalised segment contains both its endpoints. */
  lemma PointOnLineCorrectedHoldsAtEndpoints(s: Segment)
    requires ValidSegment(s)
    ensures PointOnLineCorrected(s, s.bottom) && PointOnLineCorrected(s, s.top)
  {
    PointOnLineXThroughEndpoints(s);
  }

  // ---------------------------------------------------------------------------
  // Orientation

  datatype Orientation = Collinear | Clockwise | CounterClockwise

  /** `orientation`: compares the two cross-product terms exactly. */
  function Orient(p: Point, q: Point, r: Point): Orientation
  {
    var val1 := (q.y - p.y) * (r.x - q.x);
    var val2 := (r.y - q.y) * (q.x - p.x);
    if val1 == val2 then Collinear else if val1 > val2 then Clockwise else CounterClockwise
  }

  /** The z-component of the cross product of two vectors. */
  function Cross(u: Vector, v: Vector): real
  {
    u.x * v.y - u.y * v.x
  }

  function Mirror(o: Orientation): Orientation
  {
    match o
    case Collinear => Collinear
    case Clockwise => CounterClockwise
    case CounterClockwise => Clockwise
  }

  lemma OrientDifference(p: Point, q: Point, r: Point)
    ensures (q.y - p.y) * (r.x - q.x) - (r.y - q.y) * (q.x - p.x) == -Cross(SubPoints(q, p), SubPoints(r, p))
  {
    var ax, ay := q.x - p.x, q.y - p.y;
    var bx, bz := r.x - q.x, r.y - q.y;
    assert r.x - p.x == ax + bx && r.y - p.y == ay + bz;
    calc {
      Cross(SubPoints(q, p), SubPoints(r, p));
      ax * (ay + bz) - ay * (ax + bx);
      ax * ay + ax * bz - ay * ax - ay * bx;
      ax * bz - ay * bx;
    }
  }

  /** `orientation` is the sign of the signed area of (p, q, r): collinear at
      zero, counter-clockwise when positive, clockwise when negative. */
  lemma OrientBySignedArea(p: Point, q: Point, r: Point)
    ensures Orient(p, q, r) == Collinear <==> Cross(SubPoints(q, p), SubPoints(r, p)) == 0.0
    ensures Orient(p, q, r) == CounterClockwise <==> Cross(SubPoints(q, p), SubPoints(r, p)) > 0.0
    ensures Orient(p, q, r) == Clockwise <==> Cross(SubPoints(q, p), SubPoints(r, p)) < 0.0
  {
    OrientDifference(p, q, r);
  }

  /** Reading the triple backwards swaps clockwise and counter-clockwise:
      the two products exchange roles. */
  lemma OrientReversed(p: Point, q: Point, r: Point)
    ensures Orient(r, q, p) == Mirror(Orient(p, q, r))
  {
    assert (q.y - r.y) * (p.x - q.x) == (r.y - q.y) * (q.x - p.x);
    assert (p.y - q.y) * (q.x - r.x) == (q.y - p.y) * (r.x - q.x);
  }

  /** Rotating the triple keeps the orientation. */
  lemma OrientRotated(p: Point, q: Point, r: Point)
    ensures Orient(q, r, p) == Orient(p, q, r)
  {
    OrientBySignedArea(p, q, r);
    OrientBySignedArea(q, r, p);
    var c1 := Cross(SubPoints(q, p), SubPoints(r, p));
    var c2 := Cross(SubPoints(r, q), SubPoints(p, q));
    assert c1 == c2 by {
      var ax, ay := q.x - p.x, q.y - p.y;
      var bx, bz := r.x - p.x, r.y - p.y;
      calc {
        c2;
        (bx - ax) * (-ay) - (bz - ay) * (-ax);
        ax * bz - ay * bx;
        c1;
      }
    }
  }

  /** The three examples of the documentation of `orientation`. */
  lemma OrientDocExamples()
    ensures Orient(Point(0.0, 0.0), Point(1.0, 1.0), Point(2.0, 2.0)) == Collinear
    ensures Orient(Point(0.0, 0.0), Point(1.0, 1.0), Point(2.0, 0.0)) == Clockwise
    ensures Orient(Point(0.0, 0.0), Point(1.0, 1.0), Point(0.0, 2.0)) == CounterClockwise
  {
  }

  // ---------------------------------------------------------------------------
  // Edge deduplication modulo 2

  /** The windows of two consecutive points of a ring. */
  function WindowPairs(ring: seq<Point>): (r: seq<(Point, Point)>)
    ensures |r| == if |ring| == 0 then 0 else |ring| - 1
  {
    if |ring| <= 1 then [] else seq(|ring| - 1, i requires 0 <= i < |ring| - 1 => (ring[i], ring[i + 1]))
  }

  /** The closing pair last -> first, present only when the two differ. */
  function ClosingPair(ring: seq<Point>): seq<(Point, Point)>
  {
    if |ring| > 0 && ring[|ring| - 1] != ring[0] then [(ring[|ring| - 1], ring[0])] else []
  }

  /** The point pairs of one ring that `calc_dedup_edges` turns into segments. */
  function RingPairs(ring: seq<Point>): seq<(Point, Point)>
  {
    WindowPairs(ring) + ClosingPair(ring)
  }

  /** The point pairs of all rings, in visiting order. */
  function AllPairs(polygons: seq<seq<Point>>): seq<(Point, Point)>
  {
    if polygons == [] then [] else AllPairs(polygons[..|polygons| - 1]) + RingPairs(polygons[|polygons| - 1])
  }

  function SegmentsOf(pairs: seq<(Point, Point)>): (r: seq<Segment>)
    ensures |r| == |pairs|
  {
    seq(|pairs|, i requires 0 <= i < |pairs| => SegmentOf(pairs[i].0, pairs[i].1))
  }

  /** Some ring holds two equal consecutive points, on which `Segment::new` panics. */
  predicate HasRepeatedWindow(polygons: seq<seq<Point>>)
  {
    exists k, i :: 0 <= k < |polygons| && 0 <= i < |polygons[k]| - 1 && polygons[k][i] == polygons[k][i + 1]
  }

  /** The ring holds two equal consecutive points. */
  predicate RingHasRepeatedWindow(ring: seq<Point>)
  {
    exists i :: 0 <= i < |ring| - 1 && ring[i] == ring[i + 1]
  }

  /** One step of the `HashSet` toggle: remove if present, insert otherwise. */
  function Toggle(s: set<Segment>, e: Segment): set<Segment>
  {
    if e in s then s - {e} else s + {e}
  }

  function ToggleAll(s: set<Segment>, segments: seq<Segment>): set<Segment>
  {
    if segments == [] then s else Toggle(ToggleAll(s, segments[..|segments| - 1]), segments[|segments| - 1])
  }

  /** The set `calc_dedup_edges` ends with. */
  function DedupEdgeSet(polygons: seq<seq<Point>>): set<Segment>
  {
    ToggleAll({}, SegmentsOf(AllPairs(polygons)))
  }

  predicate Distinct<T(==)>(s: seq<T>)
  {
    forall i, j :: 0 <= i < j < |s| ==> s[i] != s[j]
  }

  /** Toggling keeps exactly the segments whose number of toggles has
      different parity from their initial membership. */
  lemma {:induction false} ToggleAllParity(s: set<Segment>, segments: seq<Segment>, e: Segment)
    ensures e in ToggleAll(s, segments) <==> ((e in s) != (multiset(segments)[e] % 2 == 1))
    decreases |segments|
  {
    if segments != [] {
      var init := segments[..|segments| - 1];
      var last := segments[|segments| - 1];
      ToggleAllParity(s, init, e);
      assert segments == init + [last];
      assert multiset(segments) == multiset(init) + multiset{last};
    }
  }

  /** A segment survives `calc_dedup_edges` iff it occurs an odd number of
      times among the windows and closing pairs of all rings. */
  lemma DedupEdgeSetKeepsOddEdges(polygons: seq<seq<Point>>, e: Segment)
    ensures e in DedupEdgeSet(polygons) <==> multiset(SegmentsOf(AllPairs(polygons)))[e] % 2 == 1
  {
    ToggleAllParity({}, SegmentsOf(AllPairs(polygons)), e);
  }

  lemma ToggleAllPrefix(s: set<Segment>, segments: seq<Segment>, i: nat)
    requires i < |segments|
    ensures ToggleAll(s, segments[..i + 1]) == Toggle(ToggleAll(s, segments[..i]), segments[i])
  {
    assert segments[..i + 1][..i] == segments[..i];
  }

  /** Toggling a concatenation toggles one part after the other. */
  lemma {:induction false} ToggleAllConcat(s: set<Segment>, a: seq<Segment>, b: seq<Segment>)
    ensures ToggleAll(s, a + b) == ToggleAll(ToggleAll(s, a), b)
    decreases |b|
  {
    if b == [] {
      assert a + b == a;
    } else {
      var b' := b[..|b| - 1];
      assert (a + b)[..|a + b| - 1] == a + b';
      ToggleAllConcat(s, a, b');
    }
  }

  lemma SegmentsOfConcat(a: seq<(Point, Point)>, b: seq<(Point, Point)>)
    ensures SegmentsOf(a + b) == SegmentsOf(a) + SegmentsOf(b)
  {
  }

  lemma DedupEdgeSetStep(polygons: seq<seq<Point>>, k: nat)
    requires k < |polygons|
    ensures DedupEdgeSet(polygons[..k + 1]) == ToggleAll(DedupEdgeSet(polygons[..k]), SegmentsOf(RingPairs(polygons[k])))
  {
    assert polygons[..k + 1][..k] == polygons[..k];
    SegmentsOfConcat(AllPairs(polygons[..k]), RingPairs(polygons[k]));
    ToggleAllConcat({}, SegmentsOf(AllPairs(polygons[..k])), SegmentsOf(RingPairs(polygons[k])));
  }

  lemma HasRepeatedWindowStep(polygons: seq<seq<Point>>, k: nat)
    requires k < |polygons|
    ensures HasRepeatedWindow(polygons[..k + 1]) <==> HasRepeatedWindow(polygons[..k]) || RingHasRepeatedWindow(polygons[k])
  {
    var upto := polygons[..k + 1];
    if RingHasRepeatedWindow(polygons[k]) {
      var i :| 0 <= i < |polygons[k]| - 1 && polygons[k][i] == polygons[k][i + 1];
      assert upto[k][i] == upto[k][i + 1];
    }
    if HasRepeatedWindow(polygons[..k]) {
      var kk, i :| 0 <= kk < k && 0 <= i < |polygons[..k][kk]| - 1 && polygons[..k][kk][i] == polygons[..k][kk][i + 1];
      assert upto[kk][i] == upto[kk][i + 1];
    }
    if HasRepeatedWindow(upto) {
      var kk, i :| 0 <= kk < |upto| && 0 <= i < |upto[kk]| - 1 && upto[kk][i] == upto[kk][i + 1];
      if kk < k {
        assert polygons[..k][kk] == upto[kk];
      }
    }
  }

  /** The two loops of `calc_dedup_edges` over one ring: its windows, then its
      closing pair when last and first differ. */
  method ToggleRing(edgesSet: set<Segment>, polygon: seq<Point>) returns (r: Result<set<Segment>>)
    ensures r.Err? <==> RingHasRepeatedWindow(polygon)
    ensures r.Ok? ==> r.value == ToggleAll(edgesSet, SegmentsOf(RingPairs(polygon)))
  {
    var acc := edgesSet;
    var windows := SegmentsOf(WindowPairs(polygon));
    var n := |windows|;
    for i := 0 to n
      invariant forall j :: 0 <= j < i ==> polygon[j] != polygon[j + 1]
      invariant acc == ToggleAll(edgesSet, windows[..i])
    {
      var edge := NewSegment(polygon[i], polygon[i + 1]);
      if edge.Err? {
        return Err(edge.error);
      }
      ToggleAllPrefix(edgesSet, windows, i);
      acc := Toggle(acc, edge.value);
    }
    assert windows[..n] == windows;
    SegmentsOfConcat(WindowPairs(polygon), ClosingPair(polygon));
    ToggleAllConcat(edgesSet, windows, SegmentsOf(ClosingPair(polygon)));
    if |polygon| > 0 && polygon[|polygon| - 1] != polygon[0] {
      var edge := NewSegment(polygon[|polygon| - 1], polygon[0]);
      assert SegmentsOf(ClosingPair(polygon)) == [edge.value];
      assert [edge.value][..0] == [];
      acc := Toggle(acc, edge.value);
    } else {
      assert SegmentsOf(ClosingPair(polygon)) == [];
    }
    return Ok(acc);
  }

  /** Lists a set in an unspecified order, as iterating a `HashSet` does. */
  method ListSet(s: set<Segment>) returns (out: seq<Segment>)
    ensures Distinct(out)
    ensures forall e :: e in out <==> e in s
  {
    var rest := s;
    out := [];
    while rest != {}
      invariant rest <= s
      invariant forall e :: e in out <==> e in s && e !in rest
      invariant Distinct(out)
      decreases |rest|
    {
      var e :| e in rest;
      out := out + [e];
      rest := rest - {e};
    }
  }

  /** `calc_dedup_edges`: toggles every window segment and every closing
      segment of every ring in a set, then lists the set in an unspecified
      order (the `HashSet` iteration order). */
  method CalcDedupEdges(polygonList: seq<seq<Point>>) returns (r: Result<seq<Segment>>)
    ensures r.Err? <==> HasRepeatedWindow(polygonList)
    ensures r.Ok? ==> Distinct(r.value)
    ensures r.Ok? ==> forall e :: e in r.value <==> e in DedupEdgeSet(polygonList)
  {
    var edgesSet: set<Segment> := {};
    for k := 0 to |polygonList|
      invariant !HasRepeatedWindow(polygonList[..k])
      invariant edgesSet == DedupEdgeSet(polygonList[..k])
    {
      HasRepeatedWindowStep(polygonList, k);
      DedupEdgeSetStep(polygonList, k);
      var step := ToggleRing(edgesSet, polygonList[k]);
      if step.Err? {
        assert polygonList[..|polygonList|] == polygonList;
        HasRepeatedWindowPrefix(polygonList, k + 1);
        return Err(step.error);
      }
      edgesSet := step.value;
    }
    assert polygonList[..|polygonList|] == polygonList;
    var out := ListSet(edgesSet);
    return Ok(out);
  }

  lemma HasRepeatedWindowPrefix(polygons: seq<seq<Point>>, k: nat)
    requires k <= |polygons|
    ensures HasRepeatedWindow(polygons[..k]) ==> HasRepeatedWindow(polygons)
  {
    if HasRepeatedWindow(polygons[..k]) {
      var kk, i :| 0 <= kk < k && 0 <= i < |polygons[..k][kk]| - 1 && polygons[..k][kk][i] == polygons[..k][kk][i + 1];
      assert polygons[kk] == polygons[..k][kk];
    }
  }

  lemma DocExamplePairs(a: Point, b: Point, c: Point, d: Point, e: Point)
    requires a != c && b != e
    ensures AllPairs([[a, b, c, a], [b, d, e, b]]) == [(a, b), (b, c), (c, a), (b, d), (d, e), (e, b)]
  {
    var p1 := [a, b, c, a];
    var p2 := [b, d, e, b];
    assert RingPairs(p1) == [(a, b), (b, c), (c, a)];
    assert RingPairs(p2) == [(b, d), (d, e), (e, b)];
    assert [p1, p2][..1] == [p1];
    assert [p1][..0] == [];
    assert AllPairs([p1]) == RingPairs(p1);
    assert AllPairs([p1, p2]) == AllPairs([p1]) + RingPairs(p2);
  }

  /** The documentation example: two closed triangles given with repeated
      first points share no edge, so all six edges are kept. */
  lemma DedupEdgeSetDocExample()
    ensures |DedupEdgeSet([[Point(0.0, 0.0), Point(1.0, 0.0), Point(1.0, 1.0), Point(0.0, 0.0)],
                           [Point(1.0, 0.0), Point(2.0, 0.0), Point(2.0, 1.0), Point(1.0, 0.0)]])| == 6
  {
    var a, b, c := Point(0.0, 0.0), Point(1.0, 0.0), Point(1.0, 1.0);
    var d, e := Point(2.0, 0.0), Point(2.0, 1.0);
    DocExamplePairs(a, b, c, d, e);
    var pairs := [(a, b), (b, c), (c, a), (b, d), (d, e), (e, b)];
    var s1, s2, s3 := Segment(b, a), Segment(c, b), Segment(c, a);
    var s4, s5, s6 := Segment(d, b), Segment(e, d), Segment(e, b);
    assert SegmentsOf(pairs) == [s1, s2, s3, s4, s5, s6];
    var segments := [s1, s2, s3, s4, s5, s6];
    assert Distinct(segments);
    ToggleAllFresh({}, segments);
    DistinctCard(segments);
  }

  /** Toggling pairwise different segments that are not yet in the set adds
      all of them. */
  lemma {:induction false} ToggleAllFresh(s: set<Segment>, segments: seq<Segment>)
    requires Distinct(segments)
    requires forall i :: 0 <= i < |segments| ==> segments[i] !in s
    ensures ToggleAll(s, segments) == s + set e | e in segments
    decreases |segments|
  {
    if segments != [] {
      var init := segments[..|segments| - 1];
      var last := segments[|segments| - 1];
      ToggleAllFresh(s, init);
      assert segments == init + [last];
      assert last !in init by {
        forall j | 0 <= j < |init|
          ensures init[j] != last
        {
          assert init[j] == segments[j];
        }
      }
    }
  }

  /** A sequence of pairwise different segments has as many elements as its set. */
  lemma {:induction false} DistinctCard(segments: seq<Segment>)
    requires Distinct(segments)
    ensures |set e | e in segments| == |segments|
    decreases |segments|
  {
    if segments != [] {
      var init := segments[..|segments| - 1];
      var last := segments[|segments| - 1];
      DistinctCard(init);
      assert segments == init + [last];
      assert (set e | e in segments) == (set e | e in init) + {last};
      assert last !in (set e | e in init) by {
        forall j | 0 <= j < |init|
          ensures init[j] != last
        {
          assert init[j] == segments[j];
        }
      }
    }
  }

  /** The point pairs of the documentation example of the split: a square
      whose corner (0, 0) is joined to an inner square at (1, 1). */
  lemma SplitDocExamplePairs(p0: Point, p1: Point, p2: Point, p3: Point, p5: Point, p6: Point, p7: Point, p8: Point)
    requires p5 != p0
    ensures AllPairs([[p0, p1, p2, p3, p0, p5, p6, p7, p8, p5]])
            == [(p0, p1), (p1, p2), (p2, p3), (p3, p0), (p0, p5), (p5, p6), (p6, p7), (p7, p8), (p8, p5), (p5, p0)]
  {
    var ring := [p0, p1, p2, p3, p0, p5, p6, p7, p8, p5];
    assert WindowPairs(ring) == [(p0, p1), (p1, p2), (p2, p3), (p3, p0), (p0, p5), (p5, p6), (p6, p7), (p7, p8), (p8, p5)];
    assert ClosingPair(ring) == [(p5, p0)];
    assert [ring][..0] == [];
    assert AllPairs([ring]) == RingPairs(ring);
  }

  /** A segment toggled twice around pairwise different others is dropped,
      the others are kept. */
  lemma ToggleConnectorTwice(outer: seq<Segment>, connector: Segment, inner: seq<Segment>)
    requires Distinct(outer + [connector] + inner)
    ensures ToggleAll({}, outer + [connector] + inner + [connector]) == set e | e in outer + inner
  {
    var nine := outer + [connector] + inner;
    ToggleAllFresh({}, nine);
    ToggleAllConcat({}, nine, [connector]);
    assert [connector][..0] == [];
    assert nine[|outer|] == connector;
    forall j | 0 <= j < |outer + inner|
      ensures (outer + inner)[j] != connector
    {
      if j < |outer| {
        assert (outer + inner)[j] == nine[j];
      } else {
        assert (outer + inner)[j] == nine[j + 1];
      }
    }
    assert (set e | e in nine) - {connector} == set e | e in outer + inner;
  }

  /** The documentation example of the split: the connecting edge between the
      two squares is walked twice and dropped, leaving their eight sides. */
  lemma SplitDocExampleEdges()
    ensures |DedupEdgeSet([[Point(0.0, 0.0), Point(3.0, 0.0), Point(3.0, 3.0), Point(0.0, 3.0), Point(0.0, 0.0),
                            Point(1.0, 1.0), Point(2.0, 1.0), Point(2.0, 2.0), Point(1.0, 2.0), Point(1.0, 1.0)]])| == 8
  {
    var p0, p1, p2, p3 := Point(0.0, 0.0), Point(3.0, 0.0), Point(3.0, 3.0), Point(0.0, 3.0);
    var p5, p6, p7, p8 := Point(1.0, 1.0), Point(2.0, 1.0), Point(2.0, 2.0), Point(1.0, 2.0);
    SplitDocExamplePairs(p0, p1, p2, p3, p5, p6, p7, p8);
    var outer := [Segment(p1, p0), Segment(p2, p1), Segment(p2, p3), Segment(p3, p0)];
    var inner := [Segment(p6, p5), Segment(p7, p6), Segment(p7, p8), Segment(p8, p5)];
    var connector := Segment(p5, p0);
    SplitDocExampleSegments();
    SplitDocExampleDistinct();
    ToggleConnectorTwice(outer, connector, inner);
    DistinctCard(outer + inner);
  }

  lemma SplitDocExampleSegments()
    ensures var p0, p1, p2, p3 := Point(0.0, 0.0), Point(3.0, 0.0), Point(3.0, 3.0), Point(0.0, 3.0);
            var p5, p6, p7, p8 := Point(1.0, 1.0), Point(2.0, 1.0), Point(2.0, 2.0), Point(1.0, 2.0);
            SegmentsOf([(p0, p1), (p1, p2), (p2, p3), (p3, p0), (p0, p5), (p5, p6), (p6, p7), (p7, p8), (p8, p5), (p5, p0)])
            == [Segment(p1, p0), Segment(p2, p1), Segment(p2, p3), Segment(p3, p0)] + [Segment(p5, p0)]
               + [Segment(p6, p5), Segment(p7, p6), Segment(p7, p8), Segment(p8, p5)] + [Segment(p5, p0)]
  {
  }

  lemma SplitDocExampleDistinct()
    ensures var p0, p1, p2, p3 := Point(0.0, 0.0), Point(3.0, 0.0), Point(3.0, 3.0), Point(0.0, 3.0);
            var p5, p6, p7, p8 := Point(1.0, 1.0), Point(2.0, 1.0), Point(2.0, 2.0), Point(1.0, 2.0);
            var outer := [Segment(p1, p0), Segment(p2, p1), Segment(p2, p3), Segment(p3, p0)];
            var inner := [Segment(p6, p5), Segment(p7, p6), Segment(p7, p8), Segment(p8, p5)];
            Distinct(outer + [Segment(p5, p0)] + inner) && Distinct(outer + inner)
  {
  }

  // ---------------------------------------------------------------------------
  // Splitting a ring on repeated edges

  /** A node of the edge graph of `split_polygon_on_repeated_edges`. */
  datatype GraphNode = GraphNode(edges: seq<Point>, visited: bool, subIndex: nat)

  /** `edges_map.entry(a).or_default().edges.push(b)`. */
  function PushEdge(m: map<Point, GraphNode>, a: Point, b: Point): map<Point, GraphNode>
  {
    var node := if a in m then m[a] else GraphNode([], false, 0);
    m[a := node.(edges := node.edges + [b])]
  }

  /** (a, b) is a window or the closing pair of the ring, in this direction,
      and its segment is one of the kept (odd-count) edges. */
  predicate KeptStep(ring: seq<Point>, kept: set<Segment>, a: Point, b: Point)
  {
    && ((exists i :: 0 <= i < |ring| - 1 && ring[i] == a && ring[i + 1] == b)
        || (|ring| > 0 && a == ring[|ring| - 1] && b == ring[0]))
    && SegmentOf(a, b) in kept
  }

  /** The edge graph before the walk: every listed edge is a kept step, and
      no node has been visited. */
  ghost predicate GraphOf(ring: seq<Point>, kept: set<Segment>, m: map<Point, GraphNode>)
  {
    forall a :: a in m ==>
      && !m[a].visited && m[a].subIndex == 0
      && forall j :: 0 <= j < |m[a].edges| ==> KeptStep(ring, kept, a, m[a].edges[j])
  }

  /** Every ring has a point, never starts and ends with the same point when
      longer than one, and walks along listed graph edges. */
  ghost predicate RingsAlongGraph(rings: seq<seq<Point>>, m: map<Point, GraphNode>)
  {
    forall k :: 0 <= k < |rings| ==>
      && |rings[k]| >= 1
      && (|rings[k]| > 1 ==> rings[k][0] != rings[k][|rings[k]| - 1])
      && forall j :: 0 <= j < |rings[k]| - 1 ==> rings[k][j] in m && rings[k][j + 1] in m[rings[k][j]].edges
  }

  /** The successors of `a` along the first `i` windows of the ring whose
      segment is kept, in ring order. */
  function KeptSuccessors(ring: seq<Point>, kept: set<Segment>, a: Point, i: nat): seq<Point>
    requires i == 0 || i < |ring|
  {
    if i == 0 then []
    else KeptSuccessors(ring, kept, a, i - 1)
         + (if ring[i - 1] == a && SegmentOf(ring[i - 1], ring[i]) in kept then [ring[i]] else [])
  }

  /** Every kept successor is a kept step of the ring. */
  lemma {:induction false} KeptSuccessorsAreSteps(ring: seq<Point>, kept: set<Segment>, a: Point, i: nat)
    requires i == 0 || i < |ring|
    ensures forall j :: 0 <= j < |KeptSuccessors(ring, kept, a, i)| ==> KeptStep(ring, kept, a, KeptSuccessors(ring, kept, a, i)[j])
  {
    if i > 0 {
      KeptSuccessorsAreSteps(ring, kept, a, i - 1);
      var prev := KeptSuccessors(ring, kept, a, i - 1);
      if ring[i - 1] == a && SegmentOf(ring[i - 1], ring[i]) in kept {
        assert KeptSuccessors(ring, kept, a, i) == prev + [ring[i]];
        assert KeptStep(ring, kept, a, ring[i]) by {
          assert ring[i - 1] == a && ring[i] == ring[i];
        }
      } else {
        assert KeptSuccessors(ring, kept, a, i) == prev;
      }
    }
  }

  /** The end of every kept window is listed among the successors of its start. */
  lemma {:induction false} KeptSuccessorsHaveWindows(ring: seq<Point>, kept: set<Segment>, i: nat)
    requires i == 0 || i < |ring|
    ensures forall j :: 0 <= j < i && SegmentOf(ring[j], ring[j + 1]) in kept ==> ring[j + 1] in KeptSuccessors(ring, kept, ring[j], i)
  {
    if i > 0 {
      KeptSuccessorsHaveWindows(ring, kept, i - 1);
      forall j | 0 <= j < i && SegmentOf(ring[j], ring[j + 1]) in kept
        ensures ring[j + 1] in KeptSuccessors(ring, kept, ring[j], i)
      {
        var prev := KeptSuccessors(ring, kept, ring[j], i - 1);
        assert prev <= KeptSuccessors(ring, kept, ring[j], i);
        if j == i - 1 {
          assert KeptSuccessors(ring, kept, ring[j], i) == prev + [ring[i]];
        }
      }
    }
  }

  /** A node exists exactly for the points with a kept successor along the
      first `i` windows, and lists those successors in ring order, unvisited
      and with the walk position at the start. */
  ghost predicate SuccessorGraph(ring: seq<Point>, kept: set<Segment>, m: map<Point, GraphNode>, i: nat)
    requires i == 0 || i < |ring|
  {
    && (forall a :: a in m <==> KeptSuccessors(ring, kept, a, i) != [])
    && forall a :: a in m ==> m[a] == GraphNode(KeptSuccessors(ring, kept, a, i), false, 0)
  }

  /** Pushing the window `i` when it is kept extends the graph by one window. */
  lemma SuccessorGraphStep(ring: seq<Point>, kept: set<Segment>, m: map<Point, GraphNode>, i: nat)
    requires i + 1 < |ring| && SuccessorGraph(ring, kept, m, i)
    ensures SuccessorGraph(ring, kept, if SegmentOf(ring[i], ring[i + 1]) in kept then PushEdge(m, ring[i], ring[i + 1]) else m, i + 1)
  {
    var m' := if SegmentOf(ring[i], ring[i + 1]) in kept then PushEdge(m, ring[i], ring[i + 1]) else m;
    forall a
      ensures (a in m' <==> KeptSuccessors(ring, kept, a, i + 1) != [])
      ensures a in m' ==> m'[a] == GraphNode(KeptSuccessors(ring, kept, a, i + 1), false, 0)
    {
      var step := if ring[i] == a && SegmentOf(ring[i], ring[i + 1]) in kept then [ring[i + 1]] else [];
      assert KeptSuccessors(ring, kept, a, i + 1) == KeptSuccessors(ring, kept, a, i) + step;
    }
  }

  /** The build loop over the windows (point.rs, the first loop of the graph):
      a node exists exactly for the points with a kept successor, and lists
      those successors in ring order, unvisited and with the walk position at
      the start. */
  method BuildWindowGraph(ring: seq<Point>, kept: set<Segment>) returns (m: map<Point, GraphNode>)
    requires forall i :: 0 <= i < |ring| - 1 ==> ring[i] != ring[i + 1]
    ensures forall a :: a in m <==> KeptSuccessors(ring, kept, a, if |ring| == 0 then 0 else |ring| - 1) != []
    ensures forall a :: a in m ==> m[a] == GraphNode(KeptSuccessors(ring, kept, a, if |ring| == 0 then 0 else |ring| - 1), false, 0)
  {
    m := map[];
    var n := if |ring| == 0 then 0 else |ring| - 1;
    for i := 0 to n
      invariant SuccessorGraph(ring, kept, m, i)
    {
      SuccessorGraphStep(ring, kept, m, i);
      var segment := NewSegment(ring[i], ring[i + 1]);
      if segment.value in kept {
        m := PushEdge(m, ring[i], ring[i + 1]);
      }
    }
  }

  /** The graph `BuildWindowGraph` returns lists only kept steps, has a node
      for the start of every kept window, and is unvisited. */
  lemma WindowGraphOf(ring: seq<Point>, kept: set<Segment>, m: map<Point, GraphNode>)
    requires forall a :: a in m <==> KeptSuccessors(ring, kept, a, if |ring| == 0 then 0 else |ring| - 1) != []
    requires forall a :: a in m ==> m[a] == GraphNode(KeptSuccessors(ring, kept, a, if |ring| == 0 then 0 else |ring| - 1), false, 0)
    ensures GraphOf(ring, kept, m)
    ensures forall i :: 0 <= i < |ring| - 1 && SegmentOf(ring[i], ring[i + 1]) in kept ==> ring[i] in m && ring[i + 1] in m[ring[i]].edges
  {
    var n := if |ring| == 0 then 0 else |ring| - 1;
    forall a | a in m
      ensures forall j :: 0 <= j < |m[a].edges| ==> KeptStep(ring, kept, a, m[a].edges[j])
    {
      KeptSuccessorsAreSteps(ring, kept, a, n);
    }
    KeptSuccessorsHaveWindows(ring, kept, n);
  }

  /** The (node, edge position) pairs the walk has not followed yet. */
  ghost function Pending(m: map<Point, GraphNode>): set<(Point, int)>
  {
    set a, j | a in m.Keys && 0 <= j < |m[a].edges| && m[a].subIndex <= j :: (a, j)
  }

  lemma PendingShrinks(m: map<Point, GraphNode>, a: Point, m': map<Point, GraphNode>)
    requires a in m && m[a].subIndex < |m[a].edges|
    requires m'.Keys == m.Keys
    requires forall b :: b in m && b != a ==> m'[b].edges == m[b].edges && m'[b].subIndex == m[b].subIndex
    requires m'[a].edges == m[a].edges && m'[a].subIndex == m[a].subIndex + 1
    ensures |Pending(m')| < |Pending(m)|
  {
    var x := (a, m[a].subIndex as int);
    assert Pending(m') == Pending(m) - {x};
    assert x in Pending(m);
  }

  /** Every node keeps its edge list and the walk position stays within it. */
  ghost predicate SameEdges(m0: map<Point, GraphNode>, m: map<Point, GraphNode>)
  {
    && m.Keys == m0.Keys
    && forall a :: a in m ==> m[a].edges == m0[a].edges && m[a].subIndex <= |m[a].edges|
  }

  /** Consecutive points of the ring follow listed edges of the graph. */
  ghost predicate AlongGraph(ring: seq<Point>, m: map<Point, GraphNode>)
  {
    forall j :: 0 <= j < |ring| - 1 ==> ring[j] in m && ring[j + 1] in m[ring[j]].edges
  }

  /** The point occurs in one of the rings. */
  ghost predicate InSomeRing(rings: seq<seq<Point>>, a: Point)
  {
    exists k :: 0 <= k < |rings| && a in rings[k]
  }

  /** Lists the keys of the graph in an unspecified (hash map) order, each
      exactly once. */
  method KeysInSomeOrder(m: map<Point, GraphNode>) returns (keys: seq<Point>)
    ensures forall a :: a in keys <==> a in m
    ensures Distinct(keys) && |keys| == |m|
  {
    var rest := m.Keys;
    keys := [];
    while rest != {}
      invariant rest <= m.Keys
      invariant forall a :: a in keys <==> a in m && a !in rest
      invariant Distinct(keys) && |keys| + |rest| == |m|
      decreases |rest|
    {
      var a :| a in rest;
      keys := keys + [a];
      rest := rest - {a};
    }
  }

  /** A node is visited exactly when it was visited before the walk or the
      walk has reached it. */
  ghost predicate VisitedExactly(m0: map<Point, GraphNode>, m: map<Point, GraphNode>, reached: seq<Point>)
  {
    forall a :: a in m ==> (m[a].visited <==> (a in m0 && m0[a].visited) || a in reached)
  }

  /** One step of the walk: follow the next unused edge of `current`. */
  function WalkStep(m: map<Point, GraphNode>, current: Point): map<Point, GraphNode>
    requires current in m && m[current].subIndex < |m[current].edges|
  {
    var node := m[current];
    var next := node.edges[node.subIndex];
    var m1 := m[current := node.(subIndex := node.subIndex + 1)];
    if next in m1 then m1[next := m1[next].(visited := true)] else m1
  }

  lemma WalkStepKeeps(m0: map<Point, GraphNode>, m: map<Point, GraphNode>, current: Point, reached: seq<Point>)
    requires SameEdges(m0, m) && VisitedExactly(m0, m, reached)
    requires current in m && m[current].subIndex < |m[current].edges|
    ensures SameEdges(m0, WalkStep(m, current))
    ensures VisitedExactly(m0, WalkStep(m, current), reached + [m[current].edges[m[current].subIndex]])
    ensures |Pending(WalkStep(m, current))| < |Pending(m)|
  {
    PendingShrinks(m, current, WalkStep(m, current));
  }

  lemma AlongGraphAppend(ring: seq<Point>, next: Point, m0: map<Point, GraphNode>)
    requires |ring| >= 1 && AlongGraph(ring, m0)
    requires ring[|ring| - 1] in m0 && next in m0[ring[|ring| - 1]].edges
    ensures AlongGraph(ring + [next], m0)
    ensures (ring + [next])[1..] == ring[1..] + [next]
  {
    var ring' := ring + [next];
    forall j | 0 <= j < |ring'| - 1
      ensures ring'[j] in m0 && ring'[j + 1] in m0[ring'[j]].edges
    {
      if j < |ring| - 1 {
        assert ring'[j] == ring[j] && ring'[j + 1] == ring[j + 1];
      }
    }
  }

  /** The inner walk of `split_polygon_on_repeated_edges`: from `start`, take the
      next unused edge of the current node until the node is missing or spent,
      marking every node reached as visited. */
  method WalkFrom(m0: map<Point, GraphNode>, start: Point) returns (m: map<Point, GraphNode>, ring: seq<Point>)
    requires forall a :: a in m0 ==> m0[a].subIndex <= |m0[a].edges|
    ensures SameEdges(m0, m)
    ensures |ring| >= 1 && ring[0] == start
    ensures AlongGraph(ring, m0)
    ensures ring[|ring| - 1] !in m || m[ring[|ring| - 1]].subIndex == |m[ring[|ring| - 1]].edges|
    ensures VisitedExactly(m0, m, ring[1..])
  {
    m := m0;
    ring := [start];
    var current := start;
    while current in m && m[current].subIndex < |m[current].edges|
      invariant SameEdges(m0, m)
      invariant |ring| >= 1 && ring[0] == start && ring[|ring| - 1] == current
      invariant AlongGraph(ring, m0)
      invariant VisitedExactly(m0, m, ring[1..])
      decreases |Pending(m)|
    {
      var next := m[current].edges[m[current].subIndex];
      WalkStepKeeps(m0, m, current, ring[1..]);
      AlongGraphAppend(ring, next, m0);
      m := WalkStep(m, current);
      ring := ring + [next];
      current := next;
    }
  }

  /** Drops trailing copies of the start point, keeping at least one point. */
  method TrimClosedRing(ring0: seq<Point>) returns (ring: seq<Point>)
    requires |ring0| >= 1
    ensures 1 <= |ring| <= |ring0| && ring == ring0[..|ring|]
    ensures |ring| > 1 ==> ring[0] != ring[|ring| - 1]
    ensures forall j :: |ring| <= j < |ring0| ==> ring0[j] == ring0[0]
  {
    ring := ring0;
    while |ring| > 1 && ring[0] == ring[|ring| - 1]
      invariant 1 <= |ring| <= |ring0| && ring == ring0[..|ring|]
      invariant forall j :: |ring| <= j < |ring0| ==> ring0[j] == ring0[0]
    {
      ring := ring[..|ring| - 1];
    }
  }

  /** Trimming keeps the walk along the graph and keeps every point. */
  lemma TrimmedRing(ring0: seq<Point>, ring: seq<Point>, m0: map<Point, GraphNode>)
    requires 1 <= |ring| <= |ring0| && ring == ring0[..|ring|]
    requires forall j :: |ring| <= j < |ring0| ==> ring0[j] == ring0[0]
    requires AlongGraph(ring0, m0)
    ensures AlongGraph(ring, m0)
    ensures forall a :: a in ring0 ==> a in ring
  {
    forall j | 0 <= j < |ring| - 1
      ensures ring[j] in m0 && ring[j + 1] in m0[ring[j]].edges
    {
      assert ring[j] == ring0[j] && ring[j + 1] == ring0[j + 1];
    }
    forall a | a in ring0
      ensures a in ring
    {
      var j :| 0 <= j < |ring0| && ring0[j] == a;
      if j < |ring| {
        assert ring[j] == a;
      } else {
        assert ring[0] == a;
      }
    }
  }

  /** One walk of `split_polygon_on_repeated_edges` from an unvisited start:
      mark it, walk, trim. The nodes visited afterwards are those visited
      before and those on the ring. */
  method TraceFrom(m0: map<Point, GraphNode>, m: map<Point, GraphNode>, start: Point) returns (walked: map<Point, GraphNode>, ring: seq<Point>)
    requires SameEdges(m0, m) && start in m
    ensures SameEdges(m0, walked)
    ensures |ring| >= 1 && ring[0] == start && (|ring| > 1 ==> ring[0] != ring[|ring| - 1])
    ensures AlongGraph(ring, m0)
    ensures forall a :: a in walked ==> (walked[a].visited <==> m[a].visited || a in ring)
  {
    var marked := m[start := m[start].(visited := true)];
    var ring0;
    walked, ring0 := WalkFrom(marked, start);
    ring := TrimClosedRing(ring0);
    TrimmedRing(ring0, ring, m0);
    forall a | a in walked
      ensures walked[a].visited <==> m[a].visited || a in ring
    {
      if a in ring {
        var j :| 0 <= j < |ring| && ring[j] == a;
        if j > 0 {
          assert ring0[1..][j - 1] == a;
        }
      }
    }
  }

  /** Every visited node lies on one of the rings. */
  ghost predicate VisitedOnRings(m: map<Point, GraphNode>, rings: seq<seq<Point>>)
  {
    forall a :: a in m && m[a].visited ==> InSomeRing(rings, a)
  }

  /** Every node of the graph is still to be popped or already visited. */
  ghost predicate KeysPending(m0: map<Point, GraphNode>, m: map<Point, GraphNode>, toProcess: seq<Point>)
    requires m0.Keys <= m.Keys
  {
    forall a :: a in m0 ==> a in toProcess || m[a].visited
  }

  lemma RingsAlongGraphAppend(rings: seq<seq<Point>>, ring: seq<Point>, m0: map<Point, GraphNode>)
    requires RingsAlongGraph(rings, m0)
    requires |ring| >= 1 && (|ring| > 1 ==> ring[0] != ring[|ring| - 1]) && AlongGraph(ring, m0)
    ensures RingsAlongGraph(rings + [ring], m0)
  {
    var rings' := rings + [ring];
    forall k | 0 <= k < |rings'|
      ensures |rings'[k]| >= 1 && (|rings'[k]| > 1 ==> rings'[k][0] != rings'[k][|rings'[k]| - 1])
      ensures AlongGraph(rings'[k], m0)
    {
      if k < |rings| {
        assert rings'[k] == rings[k];
      } else {
        assert rings'[k] == ring;
      }
    }
  }

  /** Appending the ring of one walk keeps the invariants of the worklist loop. */
  lemma TraceStepKeeps(m0: map<Point, GraphNode>, m: map<Point, GraphNode>, walked: map<Point, GraphNode>,
                       rings: seq<seq<Point>>, ring: seq<Point>, start: Point, toProcess: seq<Point>)
    requires SameEdges(m0, m) && SameEdges(m0, walked)
    requires RingsAlongGraph(rings, m0) && VisitedOnRings(m, rings) && KeysPending(m0, m, toProcess + [start])
    requires |ring| >= 1 && ring[0] == start && (|ring| > 1 ==> ring[0] != ring[|ring| - 1]) && AlongGraph(ring, m0)
    requires forall a :: a in walked ==> (walked[a].visited <==> m[a].visited || a in ring)
    ensures RingsAlongGraph(rings + [ring], m0)
    ensures VisitedOnRings(walked, rings + [ring])
    ensures KeysPending(m0, walked, toProcess)
  {
    var rings' := rings + [ring];
    assert rings'[|rings|] == ring;
    RingsAlongGraphAppend(rings, ring, m0);
    forall a | a in walked && walked[a].visited
      ensures InSomeRing(rings', a)
    {
      if a !in ring {
        var k :| 0 <= k < |rings| && a in rings[k];
        assert rings'[k] == rings[k];
      }
    }
    forall a | a in m0
      ensures a in toProcess || walked[a].visited
    {
      assert a in toProcess + [start] ==> a in toProcess || a == start;
    }
  }

  lemma SplitLast(s: seq<Point>)
    requires |s| > 0
    ensures s == s[..|s| - 1] + [s[|s| - 1]]
  {
  }

  /** The walk of `split_polygon_on_repeated_edges`: pops start points from a
      worklist holding the graph's keys, walks from each unvisited start, then
      trims the ring. Every node of the graph ends up in some ring. */
  method TraceRings(m0: map<Point, GraphNode>) returns (rings: seq<seq<Point>>)
    requires forall a :: a in m0 ==> !m0[a].visited && m0[a].subIndex <= |m0[a].edges|
    ensures RingsAlongGraph(rings, m0)
    ensures forall a :: a in m0 ==> InSomeRing(rings, a)
  {
    var m := m0;
    var toProcess := KeysInSomeOrder(m0);
    rings := [];
    while toProcess != []
      invariant SameEdges(m0, m)
      invariant RingsAlongGraph(rings, m0)
      invariant KeysPending(m0, m, toProcess)
      invariant VisitedOnRings(m, rings)
      decreases |toProcess|
    {
      var start := toProcess[|toProcess| - 1];
      SplitLast(toProcess);
      toProcess := toProcess[..|toProcess| - 1];
      if start in m {
        if m[start].visited {
          assert KeysPending(m0, m, toProcess);
          continue;
        }
        var walked, ring := TraceFrom(m0, m, start);
        TraceStepKeeps(m0, m, walked, rings, ring, start, toProcess);
        m := walked;
        rings := rings + [ring];
      }
    }
    assert forall a :: a in m0 ==> m[a].visited;
  }

  /** `a` starts a kept edge of the ring: a window or the closing pair, from
      `a` to a different point, whose segment is kept. */
  ghost predicate StartsKeptEdge(ring: seq<Point>, kept: set<Segment>, a: Point)
  {
    exists b :: a != b && KeptStep(ring, kept, a, b)
  }

  /** What both versions of the split promise on success: the deduplicated
      edges, rings that are non-empty, open and walk along kept edges, and
      every start of a kept edge lying on some ring. */
  ghost predicate SplitResult(polygon: seq<Point>, rings: seq<seq<Point>>, edges: seq<Segment>)
  {
    && Distinct(edges)
    && (forall e :: e in edges <==> e in DedupEdgeSet([polygon]))
    && (forall k :: 0 <= k < |rings| ==>
      && |rings[k]| >= 1
      && (|rings[k]| > 1 ==> rings[k][0] != rings[k][|rings[k]| - 1])
      && forall j :: 0 <= j < |rings[k]| - 1 ==> KeptStep(polygon, DedupEdgeSet([polygon]), rings[k][j], rings[k][j + 1]))
    && forall a :: StartsKeptEdge(polygon, DedupEdgeSet([polygon]), a) ==> InSomeRing(rings, a)
  }

  lemma RingsOfGraph(polygon: seq<Point>, kept: set<Segment>, m: map<Point, GraphNode>, rings: seq<seq<Point>>)
    requires forall a :: a in m ==> forall j :: 0 <= j < |m[a].edges| ==> KeptStep(polygon, kept, a, m[a].edges[j])
    requires RingsAlongGraph(rings, m)
    ensures forall k, j :: 0 <= k < |rings| && 0 <= j < |rings[k]| - 1 ==> KeptStep(polygon, kept, rings[k][j], rings[k][j + 1])
  {
    forall k, j | 0 <= k < |rings| && 0 <= j < |rings[k]| - 1
      ensures KeptStep(polygon, kept, rings[k][j], rings[k][j + 1])
    {
      var a := rings[k][j];
      assert a in m && rings[k][j + 1] in m[a].edges;
      var jj :| 0 <= jj < |m[a].edges| && m[a].edges[jj] == rings[k][j + 1];
      assert KeptStep(polygon, kept, a, m[a].edges[jj]);
    }
  }

  /** The graph has a node for every start of a kept edge once the closing
      edge has been added (when it is kept and joins two different points). */
  lemma GraphCoversKeptStarts(polygon: seq<Point>, kept: set<Segment>, windows: map<Point, GraphNode>, m: map<Point, GraphNode>)
    requires forall i :: 0 <= i < |polygon| - 1 && SegmentOf(polygon[i], polygon[i + 1]) in kept ==> polygon[i] in windows
    requires windows.Keys <= m.Keys
    requires |polygon| > 0 && polygon[|polygon| - 1] != polygon[0] && SegmentOf(polygon[|polygon| - 1], polygon[0]) in kept
             ==> polygon[|polygon| - 1] in m
    ensures forall a :: StartsKeptEdge(polygon, kept, a) ==> a in m
  {
    forall a | StartsKeptEdge(polygon, kept, a)
      ensures a in m
    {
      var b :| a != b && KeptStep(polygon, kept, a, b);
      if exists i :: 0 <= i < |polygon| - 1 && polygon[i] == a && polygon[i + 1] == b {
        var i :| 0 <= i < |polygon| - 1 && polygon[i] == a && polygon[i + 1] == b;
        assert polygon[i] in windows;
      }
    }
  }

  lemma NoRepeatedWindowOfOne(polygon: seq<Point>)
    ensures HasRepeatedWindow([polygon]) <==> exists i :: 0 <= i < |polygon| - 1 && polygon[i] == polygon[i + 1]
  {
    if exists i :: 0 <= i < |polygon| - 1 && polygon[i] == polygon[i + 1] {
      var i :| 0 <= i < |polygon| - 1 && polygon[i] == polygon[i + 1];
      assert [polygon][0][i] == [polygon][0][i + 1];
    }
  }

  /** Adding a kept step keeps the graph unvisited and made of kept steps. */
  lemma PushKeptStep(ring: seq<Point>, kept: set<Segment>, m: map<Point, GraphNode>, a: Point, b: Point)
    requires GraphOf(ring, kept, m) && KeptStep(ring, kept, a, b)
    ensures GraphOf(ring, kept, PushEdge(m, a, b))
    ensures PushEdge(m, a, b).Keys == m.Keys + {a}
  {
  }

  /** The walk over a graph of kept steps that has a node for every start of
      a kept edge gives the result the split promises. */
  method TraceSplit(polygon: seq<Point>, edges: seq<Segment>, m: map<Point, GraphNode>) returns (rings: seq<seq<Point>>)
    requires Distinct(edges) && forall e :: e in edges <==> e in DedupEdgeSet([polygon])
    requires GraphOf(polygon, DedupEdgeSet([polygon]), m)
    requires forall a :: StartsKeptEdge(polygon, DedupEdgeSet([polygon]), a) ==> a in m
    ensures SplitResult(polygon, rings, edges)
  {
    rings := TraceRings(m);
    RingsOfGraph(polygon, DedupEdgeSet([polygon]), m, rings);
  }

  /** `split_polygon_on_repeated_edges` as written: the closing segment
      last -> first is built with `Segment::new` even when the ring repeats its
      first point at the end, which panics. */
  method SplitPolygonOnRepeatedEdges(polygon: seq<Point>) returns (r: Result<(seq<seq<Point>>, seq<Segment>)>)
    ensures r.Err? <==> HasRepeatedWindow([polygon]) || (|polygon| > 0 && polygon[|polygon| - 1] == polygon[0])
    ensures r.Ok? ==> SplitResult(polygon, r.value.0, r.value.1)
  {
    var dedup := CalcDedupEdges([polygon]);
    if dedup.Err? {
      return Err(dedup.error);
    }
    NoRepeatedWindowOfOne(polygon);
    var edgesDedup := dedup.value;
    var edgesSet := set e | e in edgesDedup;
    assert edgesSet == DedupEdgeSet([polygon]);
    var windows := BuildWindowGraph(polygon, edgesSet);
    WindowGraphOf(polygon, edgesSet, windows);
    var edgesMap := windows;
    if |polygon| > 0 {
      var back, front := polygon[|polygon| - 1], polygon[0];
      var segment := NewSegment(back, front);
      if segment.Err? {
        return Err(segment.error);
      }
      if segment.value in edgesSet {
        PushKeptStep(polygon, edgesSet, edgesMap, back, front);
        edgesMap := PushEdge(edgesMap, back, front);
      }
    }
    GraphCoversKeptStarts(polygon, edgesSet, windows, edgesMap);
    var rings := TraceSplit(polygon, edgesDedup, edgesMap);
    return Ok((rings, edgesDedup));
  }

  /** `split_polygon_on_repeated_edges` with the closing edge guarded by
      `back != front`, as `calc_dedup_edges` guards it. */
  method SplitPolygonOnRepeatedEdgesClosed(polygon: seq<Point>) returns (r: Result<(seq<seq<Point>>, seq<Segment>)>)
    ensures r.Err? <==> HasRepeatedWindow([polygon])
    ensures r.Ok? ==> SplitResult(polygon, r.value.0, r.value.1)
  {
    var dedup := CalcDedupEdges([polygon]);
    if dedup.Err? {
      return Err(dedup.error);
    }
    NoRepeatedWindowOfOne(polygon);
    var edgesDedup := dedup.value;
    var edgesSet := set e | e in edgesDedup;
    assert edgesSet == DedupEdgeSet([polygon]);
    var windows := BuildWindowGraph(polygon, edgesSet);
    WindowGraphOf(polygon, edgesSet, windows);
    var edgesMap := windows;
    if |polygon| > 0 && polygon[|polygon| - 1] != polygon[0] {
      var back, front := polygon[|polygon| - 1], polygon[0];
      var segment := NewSegment(back, front);
      if segment.value in edgesSet {
        PushKeptStep(polygon, edgesSet, edgesMap, back, front);
        edgesMap := PushEdge(edgesMap, back, front);
      }
    }
    GraphCoversKeptStarts(polygon, edgesSet, windows, edgesMap);
    var rings := TraceSplit(polygon, edgesDedup, edgesMap);
    return Ok((rings, edgesDedup));
  }

  /** A closed triangle given with its first point repeated: `calc_dedup_edges`
      accepts it, the split as written panics on it, the guarded split does not. */
  lemma SplitRejectsRepeatedFirstPoint()
    ensures var ring := [Point(0.0, 0.0), Point(1.0, 0.0), Point(1.0, 1.0), Point(0.0, 0.0)];
            !HasRepeatedWindow([ring]) && ring[|ring| - 1] == ring[0]
  {
    var ring := [Point(0.0, 0.0), Point(1.0, 0.0), Point(1.0, 1.0), Point(0.0, 0.0)];
    NoRepeatedWindowOfOne(ring);
  }
}
