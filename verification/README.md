# Polygon filling by sweep-line triangulation, modelled in Dafny

This project models the polygon-fill core of the `triangulation` crate. The
crate triangulates a set of polygons given as rings of points, in four steps:

1. It removes every edge that occurs an even number of times. It also splits
   a ring at repeated edges (`point.rs`).
2. It builds a table from each vertex to its incident edges. The table is
   sorted by the opposite endpoint.
3. It sweeps that table from the highest point down and classifies each
   vertex. The classes are split, merge, normal and intersection. Sweep
   intervals are kept open and closed as it goes, and y-monotone polygons
   are emitted when intervals close (`face_triangulation.rs`).
4. It cuts each monotone polygon into a fan of triangles with a stack
   (`monotone_polygon.rs`).

Geometry helpers come from `point.rs` and `intersection.rs`:

- the point and segment orders;
- the orientation predicate;
- the line evaluation `point_on_line_x`;
- segment-intersection tests.

Modules and files:

- `wrappers.dfy` — `Option`, `Result` and `Outcome`. A Rust panic, `unwrap`
  or `expect` failure, or `Err` becomes an `Err`/`Fail` value.
- `point.dfy` (module `Points`) — points and vectors over `real`, the point
  order (y first, then x), `Segment::new` normalisation, the segment order,
  orientation, `point_on_line_x`, `point_on_line`, `calc_dedup_edges` and
  `split_polygon_on_repeated_edges`.
  - `calc_dedup_edges` is specified by the parity of each edge's
    occurrences.
  - The graph walk of `split_polygon_on_repeated_edges` is imperative: hash
    map iteration becomes a nondeterministic pick.
- `intersection.rs` becomes `intersection.dfy` (module `Intersection`):
  - the event order;
  - `on_segment_if_collinear`;
  - the 0/1/2 orientation codes;
  - `do_intersect`;
  - `share_endpoint`.
- `monotone_polygon.dfy` (module `MonotonePolygons`) — the monotone polygon
  record, the merge of its two chains, the two stack steps and the whole
  triangulation, both as a function and as the source's imperative loop.
- `face_triangulation.dfy` (module `FaceTriangulation`):
  - the vertex-to-edges table and its sort;
  - the two left/right comparators and the left/right pair functions;
  - the point type;
  - `Interval` as a value with `replace_segment` and `opposite_segment`.
- `builder.dfy` (module `MonotoneBuilder`) — `MonotonePolygonBuilder` as a
  class. Its fields are the source's fields:
  - `segmentToLine` maps each live segment to an interval id.
  - The intervals, which the source shares through `Rc<RefCell<…>>`, live in
    an arena `intervals: seq<Interval>` addressed by id. `Rc::ptr_eq`
    becomes id equality.
  - `process_end_point`, `process_merge_point`, `process_normal_point`,
    `process_start_point` and `process_split_point` are methods that state
    the builder's whole new state, and what they emit, in terms of the old
    state. `process_intersection_point` and its parts state the frame, when
    they fail and the sweep invariant. The last loop also states the
    intervals it opens. "## Left out" says what they do not state.
  - Every `process_*` method keeps the polygons y-monotone: each chain runs
    strictly down from its top, and a finished polygon's bottom lies at or
    below both chains.
  - `sweeping_line_triangulation` is a method over the sorted points.

Where the code and its documentation disagree, the model follows the code.

Seven places where the code does not do what its comments and tests evidently
intend are listed under "## Findings". Each is modelled as written, with a
lemma that exhibits the input, and again corrected, with the intended
property proved. The model uses the corrected version.

`process_intersection_point` is modelled as written: it treats segments
whose top is the current point as already swept. In a top-down sweep they
have not been swept, so the intersection step fails when no live edge has the vertex as its top
and some edge leaves the vertex downward. `MonotoneBuilder.SweepingLineTriangulation` proves the
consequence on `Ok`: every vertex with other than two edges has all its
edges above it.

## Model

| member | source | states |
|---|---|---|
| Points.PointOrderIsTotal | crates/triangulation/src/point.rs:46-60 | The point order compares y first and breaks ties by x. Equal holds exactly for identical points, and the order is antisymmetric, irreflexive, transitive and total. |
| Points.AddVectorSubPointsRoundTrip | crates/triangulation/src/point.rs:22-41 | Adding the difference `p - q` to `q` gives back `p`. Subtracting `p` from `p + v` gives back `v`. Point addition is commutative. |
| Points.VectorArithmeticLaws | crates/triangulation/src/point.rs:114-165 | `u - v == u + (-v)` and negation is an involution. `(u - v) + v == u`. Scaling by f then dividing by a non-zero f is the identity. |
| Points.AddVectorExamples | crates/bermuda/tests/test_point.rs:11-28 | The point-plus-vector sums of the point tests hold. |
| Points.NewSegment | crates/triangulation/src/point.rs:175-191 | Err exactly when the two points coincide. Otherwise the endpoints are the two given points and bottom lies below top in the point order. |
| Points.NewSegmentSymmetric | crates/triangulation/src/point.rs:175-191 | The argument order does not matter, and rebuilding a normalised segment from its endpoints returns it unchanged. |
| Points.SegmentOrderIsTotal | crates/triangulation/src/point.rs:255-277 | Segment comparison is Equal exactly for equal segments, reverses when its arguments are swapped, and is transitive. |
| Points.PointOnLineXThroughEndpoints | crates/triangulation/src/point.rs:209-217 | The line evaluated at the bottom's height gives the bottom's x. For a non-horizontal segment, at the top's height it gives the top's x. |
| Points.PointOnLineRejectsLeftLeaningEndpoint | crates/triangulation/src/point.rs:228-239 | As written, `point_on_line` rejects both endpoints of the segment from (1,0) up to (0,1). |
| Points.PointOnLineCorrectedHoldsAtEndpoints | crates/triangulation/src/point.rs:228-239 | With the bounding box taken from min/max of the endpoints, every proper segment contains both its endpoints. |
| Points.OrientBySignedArea | crates/triangulation/src/point.rs:361-371 | The orientation is Collinear, CounterClockwise or Clockwise exactly when the cross product of (q - p) and (r - p) is zero, positive or negative. |
| Points.OrientReversed | crates/triangulation/src/point.rs:361-371 | Reversing the triple swaps Clockwise and CounterClockwise and keeps Collinear. |
| Points.OrientRotated | crates/triangulation/src/point.rs:361-371 | Rotating the triple does not change the orientation. |
| Points.OrientDocExamples | crates/triangulation/src/point.rs:348-358 | The three documented orientation examples hold. |
| Points.ToggleAllParity | crates/triangulation/src/point.rs:413-431 | After toggling each edge of a list into a set, an edge is present exactly when it was present before XOR it occurs an odd number of times in the list. |
| Points.DedupEdgeSetKeepsOddEdges | crates/triangulation/src/point.rs:373-433 | An edge survives deduplication exactly when it occurs an odd number of times among all window and closing edges of all rings. |
| Points.ToggleRing | crates/triangulation/src/point.rs:413-431 | For one ring, fails exactly when two consecutive points coincide. Otherwise it toggles the ring's window and closing edges. |
| Points.ListSet | crates/triangulation/src/point.rs:432 | Collecting the set gives a list without duplicates holding exactly the set's members. |
| Points.CalcDedupEdges | crates/triangulation/src/point.rs:373-433 | Fails exactly when some ring repeats a point in consecutive positions, which is where `Segment::new` panics. Otherwise it returns a duplicate-free list of exactly the odd-count edges. |
| Points.DedupEdgeSetDocExample | crates/triangulation/src/point.rs:392-407 | The documented example of two closed triangles keeps all six edges, since the triangles share none. |
| Points.NoRepeatedWindowOfOne | crates/triangulation/src/point.rs:502-511 | A single ring has a repeated window exactly when two consecutive points coincide. |
| Points.BuildWindowGraph | crates/triangulation/src/point.rs:502-511 | A point is a node exactly when it starts a kept window step. Its edge list is exactly its kept successors, in ring order. No node is visited and every sub-index is 0. |
| Points.WindowGraphOf | crates/triangulation/src/point.rs:502-511 | The built graph lists only kept steps of the ring. Every kept window step is listed at its start point. |
| Points.KeysInSomeOrder | crates/triangulation/src/point.rs:522 | The start points are exactly the graph's nodes, each listed once. |
| Points.WalkFrom | crates/triangulation/src/point.rs:530-549 | The walk starts at the given point and follows listed graph edges only. It stops at a point that is not a node or whose edges are used up. It marks visited exactly the points it reached after the start and keeps every node's edge list. |
| Points.TrimClosedRing | crates/triangulation/src/point.rs:550-553 | The result is a non-empty prefix of the walk. Every dropped point equals the first point. When longer than one point, it no longer ends where it starts. |
| Points.TrimmedRing | crates/triangulation/src/point.rs:550-553 | The trimmed prefix still follows graph edges and keeps every point of the walk. |
| Points.TraceFrom | crates/triangulation/src/point.rs:529-555 | One traced ring starts at its start point, is open, follows graph edges and marks visited exactly its own points in addition to those visited before. |
| Points.TraceRings | crates/triangulation/src/point.rs:521-557 | Every traced ring is non-empty, open and follows graph edges, and every node of the graph lies on some ring. |
| Points.RingsOfGraph | crates/triangulation/src/point.rs:501-557 | Every step of every traced ring is a window or closing step of the input ring whose segment is a kept edge. |
| Points.TraceSplit | crates/triangulation/src/point.rs:493-557 | From the deduplicated edges and a graph of the kept steps, the traced rings satisfy the split's whole result: every start of a kept edge lies on a ring. |
| Points.SplitPolygonOnRepeatedEdges | crates/triangulation/src/point.rs:493-560 | As written: fails exactly for a repeated window or a ring that ends at its first point. On success the edges are exactly the deduplicated edge set without duplicates. The rings are non-empty, open and made of kept steps, and every start of a kept edge lies on some ring. |
| Points.SplitPolygonOnRepeatedEdgesClosed | crates/triangulation/src/point.rs:493-560 | Corrected: fails exactly for a repeated window, so a ring that ends with its first point is accepted. On success the result is as above. |
| Points.SplitRejectsRepeatedFirstPoint | crates/triangulation/src/point.rs:514-518 | As written, the closed ring [(0,0),(1,0),(1,1),(0,0)] fails, while the corrected version accepts it. |
| Points.SplitDocExampleEdges | crates/triangulation/src/point.rs:468-490 | In the documented example of a square with a square hole joined by a connector, the connector is walked twice and dropped, leaving eight edges. |
| Intersection.EventOrderIsTotal | crates/triangulation/src/intersection.rs:23-37 | The event order (point, then whether it is a top, then index) is antisymmetric, transitive and total, and Equal only for equal events. |
| Intersection.OnSegmentIfCollinearIsBetweenness | crates/triangulation/src/intersection.rs:68-74 | The check holds exactly when each coordinate of q lies between those of p and r. It does not depend on the order of p and r, and holds at both ends. |
| Intersection.OnSegmentIfCollinearExamples | crates/triangulation/src/intersection.rs:58-66 | The documented inside and outside examples hold. |
| Intersection.OrientationCodeAgrees | crates/triangulation/src/intersection.rs:115-125 | The 0/1/2 code is 0 for collinear triples, 1 for clockwise and 2 for counter-clockwise. |
| Intersection.DoIntersectSymmetric | crates/triangulation/src/intersection.rs:157-186 | Whether two segments intersect does not depend on their order. |
| Intersection.StrictCrossingIntersects | crates/triangulation/src/intersection.rs:168-170 | Segments whose endpoints lie strictly on opposite sides of each other intersect. |
| Intersection.SharedEndpointIntersects | crates/triangulation/src/intersection.rs:172-183 | Segments that share an endpoint intersect. |
| Intersection.ShareEndpointMeansCommonPoint | crates/triangulation/src/intersection.rs:218-220 | `share_endpoint` holds exactly when some endpoint of one segment is an endpoint of the other. |
| Intersection.SeparatedCollinearDoNotIntersect | crates/triangulation/src/intersection.rs:157-186 | Two valid segments on one line that are separated along it, one ending strictly before the other begins in the point order, do not intersect, whichever way they lean. |
| Intersection.ParallelDisjointDoNotIntersect | crates/triangulation/src/intersection.rs:157-186 | Two valid parallel segments on different lines do not intersect. |
| Intersection.DoIntersectExamples | crates/bermuda/tests/intersection.rs:32-51 | The crossing, touching and shared-endpoint test cases intersect. |
| Intersection.DoNotIntersectExamples | crates/bermuda/tests/intersection.rs:53-70 | The separated and parallel test cases do not intersect. |
| MonotonePolygons.NewPolygonFinishedOnlyWithBottom | crates/triangulation/src/monotone_polygon.rs:15-27 | A new polygon has empty chains. It is finished exactly once a bottom is set, whatever its chains. |
| MonotonePolygons.MergeChainsKeepsChains | crates/triangulation/src/monotone_polygon.rs:90-112 | Merging the chains keeps each chain in order and labels every point with its side. The length is the sum of the chain lengths. |
| MonotonePolygons.MergeChainsHead | crates/triangulation/src/monotone_polygon.rs:92-100 | The first merged point is the higher head, preferring the left chain on a tie. |
| MonotonePolygons.MergeChainsDescending | crates/triangulation/src/monotone_polygon.rs:90-112 | Merging two descending chains gives a non-increasing sequence. |
| MonotonePolygons.MonotoneFinishedShape | crates/triangulation/src/monotone_polygon.rs:80-112 | A finished y-monotone polygon has both chains strictly descending, every chain point below the top and at or above the bottom, and a non-increasing merge of its chains. |
| MonotonePolygons.PolygonPointsNonIncreasing | crates/triangulation/src/monotone_polygon.rs:80-112 | For a finished y-monotone polygon the list the triangulation walks (top, merged chains, bottom) never rises. |
| MonotonePolygons.MergeSides | crates/triangulation/src/monotone_polygon.rs:90-112 | The point list is the top followed by the merged chains. |
| MonotonePolygons.MergeBothHeads | crates/triangulation/src/monotone_polygon.rs:92-100 | The first loop stops when one chain is used up. What it has pushed, followed by the merge of what is left, is the full merge. |
| MonotonePolygons.MergeRemaining | crates/triangulation/src/monotone_polygon.rs:102-110 | Once one chain is used up, the last two loops append exactly the merge of the remaining points. |
| MonotonePolygons.CurrentEdgeFanShape | crates/triangulation/src/monotone_polygon.rs:49-71 | The popping loop emits as many triangles as it pops, each with the new point first and its other corners on the stack. |
| MonotonePolygons.CurrentEdgeStopIsFirstMismatch | crates/triangulation/src/monotone_polygon.rs:58-66 | The popping loop stops at the first pair from the back without the target orientation: every pair above the stop has it and the pair at the stop does not. |
| MonotonePolygons.CurrentEdgeFanTriangles | crates/triangulation/src/monotone_polygon.rs:58-66 | The j-th triangle joins the new point with the j-th pair from the back, and that pair has the target orientation with the new point. |
| MonotonePolygons.CurrentEdgeStepCounts | crates/triangulation/src/monotone_polygon.rs:49-71 | A same-side step emits k triangles and leaves a stack k shorter, plus the new point. |
| MonotonePolygons.OppositeFanIsFan | crates/triangulation/src/monotone_polygon.rs:35-37 | The opposite-side triangles form a fan around the new point over the whole stack: each starts where the previous one ends, the first starts at the stack's front and the last ends at its back. |
| MonotonePolygons.OppositeEdgeStepCounts | crates/triangulation/src/monotone_polygon.rs:30-47 | Corrected: an opposite-side step emits one triangle fewer than the stack length and leaves the last stack point and the new point. |
| MonotonePolygons.OppositeEdgeStepAsWrittenKeepsLength | crates/triangulation/src/monotone_polygon.rs:39-46 | As written: the stack keeps its length after an opposite-side step, so stack plus triangles grows by one less than twice the stack length. |
| MonotonePolygons.BuildTrianglesCurrentEdge | crates/triangulation/src/monotone_polygon.rs:49-71 | The loop leaves the stack and appends the triangles of the same-side step function. |
| MonotonePolygons.BuildTrianglesOppositeEdge | crates/triangulation/src/monotone_polygon.rs:30-47 | The loop leaves the stack and appends the triangles of the corrected opposite-side step. |
| MonotonePolygons.StepKeepsTwo | crates/triangulation/src/monotone_polygon.rs:114-125 | After every step the stack holds at least two points. |
| MonotonePolygons.RunCounts | crates/triangulation/src/monotone_polygon.rs:114-127 | Stack plus triangles grow by one per processed point, and every triangle corner is a polygon vertex. |
| MonotonePolygons.TriangulationCounts | crates/triangulation/src/monotone_polygon.rs:80-127 | Err exactly for an unfinished polygon. Otherwise there are as many triangles as chain points (n - 2 for n vertices), all with corners among the vertices. |
| MonotonePolygons.TriangulateMonotonePolygon | crates/triangulation/src/monotone_polygon.rs:80-127 | The imperative triangulation returns exactly the triangulation function. |
| MonotonePolygons.TriangulationTestPolygon | crates/bermuda/tests/test_monotone_polygon.rs:6-22 | The four-point test polygon gives the triangles (right, top, left) and (bottom, right, left). |
| MonotonePolygons.TriangulationTestPolygonAgainstTest | crates/bermuda/tests/test_monotone_polygon.rs:20-21 | Against the test's expected triangles: the first is (top, left, right) up to rotation. The second is (left, right, bottom) reversed, so it matches only up to orientation. |
| MonotonePolygons.OppositeEdgeAsWrittenOvercounts | crates/triangulation/src/monotone_polygon.rs:39-46 | As written, a five-vertex polygon gives 4 triangles where the corrected step gives 3. |
| FaceTriangulation.InsertByOpposite | crates/triangulation/src/face_triangulation.rs:79-84 | Insertion keeps the multiset of entries. |
| FaceTriangulation.SortByOppositeSorts | crates/triangulation/src/face_triangulation.rs:79-84 | Each incident list is sorted with opposite points non-increasing and is a permutation of the unsorted list. |
| FaceTriangulation.CollectPointEdges | crates/triangulation/src/face_triangulation.rs:56-76 | The table's keys are exactly the edge endpoints. Each point's list is its incident edges in edge order: for each edge, the index and the other endpoint. |
| FaceTriangulation.SortEachList | crates/triangulation/src/face_triangulation.rs:78-84 | Keeps the keys and replaces every list by its sorted version. |
| FaceTriangulation.GetPointsEdges | crates/triangulation/src/face_triangulation.rs:56-87 | Returns exactly the table of sorted incident lists. |
| FaceTriangulation.PointToEdgesListsEveryEdge | crates/triangulation/src/face_triangulation.rs:56-87 | A point is a key exactly when it is an endpoint, and its list is sorted. An entry is in it exactly when its edge index is valid and the edge has that point at one end and the entry's opposite point at the other. |
| FaceTriangulation.LeftRightComparatorsAntisymmetric | crates/triangulation/src/face_triangulation.rs:89-105 | Swapping the arguments of either comparator reverses Less and Greater on segments with a shared endpoint. |
| FaceTriangulation.LeftRightEdgesOrdered | crates/triangulation/src/face_triangulation.rs:187-201 | Each pair function swaps exactly when its comparator says Less. For a shared top, the right edge's bottom is not counter-clockwise of the left edge. For a shared bottom, the right edge's top is not clockwise of it. |
| FaceTriangulation.LeftRightEdgesDegenerate | crates/triangulation/src/face_triangulation.rs:600-609 | As written: the shared-top pair function applied to segments sharing a bottom, and vice versa, never swaps. |
| FaceTriangulation.IncidentSegments | crates/triangulation/src/face_triangulation.rs:588-591 | Err exactly when some opposite point equals p. Otherwise each segment is the valid segment from p to the matching opposite point. |
| FaceTriangulation.GetPointType | crates/triangulation/src/face_triangulation.rs:579-613 | As written: Err exactly when the point is missing, its list is empty or a segment is degenerate. Intersection exactly for other than two edges. Split when both opposite points are below, Merge when both are above, otherwise Normal with the two segments in list order. |
| FaceTriangulation.GetPointTypeCorrected | crates/triangulation/src/face_triangulation.rs:579-613 | Corrected: the same classification, with the left/right pair of Split and Merge taken by the helper for their shared endpoint. |
| FaceTriangulation.PointTypeSegmentsAtPoint | crates/triangulation/src/face_triangulation.rs:587-610 | Every segment carried by a point type is valid and has the point as an endpoint. |
| FaceTriangulation.PointTypeEdges | crates/triangulation/src/face_triangulation.rs:597-610 | Corrected: at a split point both edges hang below p, left before right. At a merge point both rise above p, left before right. At a normal point on a sorted list the first segment reaches down to p and the second leaves p downward. |
| FaceTriangulation.SplitSidesAsWrittenExample | crates/triangulation/src/face_triangulation.rs:600-604 | As written, the split at (0,0) with edges to (1,-1) and (-1,-2) is labelled with the right edge as left. The corrected version swaps them. |
| FaceTriangulation.SortBy | crates/triangulation/src/face_triangulation.rs:536-537 | Sorting with a comparator keeps the multiset and the length of the list. |
| FaceTriangulation.SortByTwo | crates/triangulation/src/face_triangulation.rs:536-537 | A two-element list is swapped exactly when the comparator says the second comes first. |
| FaceTriangulation.IntersectionSortAsWrittenIsIdentity | crates/triangulation/src/face_triangulation.rs:536-537 | As written: on edges that all share p as top (or all as bottom), the comparator for the other shared endpoint says Equal for every pair, so the sort returns the list unchanged. |
| FaceTriangulation.IntersectionSortOrdered | crates/triangulation/src/face_triangulation.rs:536-537 | Corrected: sorting edges that share p with the comparator for that shared endpoint leaves the list in that comparator's order: no element compares Less than the one before it. |
| FaceTriangulation.IntersectionSortExample | crates/triangulation/src/face_triangulation.rs:536-537 | For two edges leaving (0,0) downward, listed with the one to (-1,-1) first, the as-written sort keeps the list, which is out of the comparator's order, while the corrected sort puts the edge to (1,-1) first. |
| FaceTriangulation.ReplaceSegment | crates/triangulation/src/face_triangulation.rs:132-141 | Err exactly when the segment is neither side. When it is the left side, the left side becomes the new segment; otherwise the right side does. The other side, the last-seen point and the polygons are kept. |
| FaceTriangulation.OppositeSegment | crates/triangulation/src/face_triangulation.rs:143-151 | Err exactly when the segment is neither side. The result is the right side when the segment is the left side, and the left side when it is only the right side. |
| FaceTriangulation.ReplaceAndOppositeAgree | crates/triangulation/src/face_triangulation.rs:132-151 | After a replacement, the new segment's opposite is the old segment's opposite. For an interval with two different sides, taking the opposite twice gives back the segment. |
| MonotoneBuilder.NormalPolygonsKeepsOne | crates/triangulation/src/face_triangulation.rs:351-375 | Corrected: with several polygons one is kept (the first on the right, the last on the left) and all others are finished at p, in order. The as-written version agrees wherever it does not fail. |
| MonotoneBuilder.NormalPointInterval | crates/triangulation/src/face_triangulation.rs:351-392 | Err exactly when the top edge is neither side. Otherwise the interval is seen at p, keeps at most one polygon, emits the rest finished at p, and replaces the top edge by the bottom edge. |
| MonotoneBuilder.NormalPointExtendsKeptPolygon | crates/triangulation/src/face_triangulation.rs:377-384 | The kept polygon gains p on the side of the edge it came along, and nothing else changes. |
| MonotoneBuilder.MergeIntervalsSpans | crates/triangulation/src/face_triangulation.rs:301-332 | The merged interval spans from the left interval's left side to the right interval's right side. It is seen at p and holds both polygon lists, with p pushed on the adjoining chains. |
| MonotoneBuilder.SplitPolygonsShape | crates/triangulation/src/face_triangulation.rs:458-494 | With one polygon, it is kept and a new polygon topped at its last right point is moved. With several, the first is kept, the last is moved and those between are finished at p. |
| MonotoneBuilder.NormalPointMonotone | crates/triangulation/src/face_triangulation.rs:351-392 | A normal point keeps the interval's polygons y-monotone down to p and emits only finished y-monotone polygons. |
| MonotoneBuilder.MergeIntervalsMonotone | crates/triangulation/src/face_triangulation.rs:301-332 | A merge keeps the joined interval's polygons y-monotone down to p and empties the right interval. |
| MonotoneBuilder.SplitPolygonsMonotone | crates/triangulation/src/face_triangulation.rs:458-494 | A split keeps both parts y-monotone down to p and emits only finished y-monotone polygons. |
| MonotoneBuilder.FindIntervalAsWrittenRejectsContaining | crates/triangulation/src/face_triangulation.rs:430-435 | The interval between x = 0 and x = 10 contains (5,5), yet the as-written test treats it as not containing it. |
| MonotoneBuilder.MonotonePolygonBuilder.constructor | crates/triangulation/src/face_triangulation.rs:204-211 | A new builder has no intervals, edges, table entries or polygons. |
| MonotoneBuilder.MonotonePolygonBuilder.WithEdges | crates/triangulation/src/face_triangulation.rs:213-221 | Keeps the edges and their sorted point-to-edges table, with no intervals or polygons. |
| MonotoneBuilder.MonotonePolygonBuilder.LeftRightEdgesTopAt | crates/triangulation/src/face_triangulation.rs:223-238 | Returns the point's two edges, swapped exactly when the first edge's bottom, top and the second's bottom turn counter-clockwise. |
| MonotoneBuilder.MonotonePolygonBuilder.LeftRightEdgesBottomAt | crates/triangulation/src/face_triangulation.rs:240-255 | Returns the point's two edges, swapped exactly when the first edge's top, bottom and the second's top turn clockwise. |
| MonotoneBuilder.MonotonePolygonBuilder.LeftRightEdgesAtAgree | crates/triangulation/src/face_triangulation.rs:223-255 | On a built table, the method forms agree with the free pair functions applied to the point's two segments. |
| MonotoneBuilder.MonotonePolygonBuilder.PushFinished | crates/triangulation/src/face_triangulation.rs:264-268 | Appends every given polygon with its bottom set to p, in order, and changes nothing else. |
| MonotoneBuilder.MonotonePolygonBuilder.ProcessEndPoint | crates/triangulation/src/face_triangulation.rs:257-272 | Emits every polygon of the interval finished at p, in order, and unmaps both edges. Nothing else changes. |
| MonotoneBuilder.MonotonePolygonBuilder.ProcessMergePoint | crates/triangulation/src/face_triangulation.rs:274-337 | Fails, changing nothing, exactly when an edge is unmapped. For two intervals it merges them into the left one, remapping the right interval's right side. For one interval it closes it as an end point. |
| MonotoneBuilder.MonotonePolygonBuilder.ProcessNormalPoint | crates/triangulation/src/face_triangulation.rs:339-411 | Fails exactly when the top edge is unmapped or is not a side of its interval. Otherwise it stores the updated interval, moves the mapping from the top edge to the bottom edge and appends the finished polygons. |
| MonotoneBuilder.MonotonePolygonBuilder.ProcessStartPoint | crates/triangulation/src/face_triangulation.rs:413-421 | Opens a fresh interval seen at p with one polygon topped at p, and maps both edges to it. |
| MonotoneBuilder.MonotonePolygonBuilder.FindIntervalWithPoint | crates/triangulation/src/face_triangulation.rs:423-438 | As written: a found interval is one listed by its left side that does not contain p. None means every interval listed by its left side contains p. |
| MonotoneBuilder.MonotonePolygonBuilder.FindIntervalContainingPoint | crates/triangulation/src/face_triangulation.rs:423-438 | Corrected: a found interval is listed by its left side and contains p strictly between its sides. None means no such interval contains p. |
| MonotoneBuilder.MonotonePolygonBuilder.ProcessSplitPoint | crates/triangulation/src/face_triangulation.rs:440-498 | With an enclosing interval, that interval now ends at the left edge and a new interval runs from the right edge to the old right side, with the polygons distributed as described for SplitPolygonsShape. With none, it opens a start interval. |
| MonotoneBuilder.MonotonePolygonBuilder.CollectIntersectionEdges | crates/triangulation/src/face_triangulation.rs:500-531 | Pairs of live edges meeting at p from above are closed as end points. The remaining edges are split into those topped at p and the rest, all taken from the input, and every unmapped edge topped at p is collected. |
| MonotoneBuilder.MonotonePolygonBuilder.ContinueTopEdges | crates/triangulation/src/face_triangulation.rs:539-558 | Fails when the first top edge is unmapped, where the source's map index panics. It keeps the sweep invariant, and when the tops leave p and the bottoms do not, it keeps the polygons y-monotone. |
| MonotoneBuilder.MonotonePolygonBuilder.ContinueLeftmostTop | crates/triangulation/src/face_triangulation.rs:541-547 | Fails when the first top edge is unmapped. When it is its interval's right side, a normal point continues it with the first bottom edge, and p can still be pushed on every left chain the remaining tops offer. |
| MonotoneBuilder.MonotonePolygonBuilder.ContinueRightSide | crates/triangulation/src/face_triangulation.rs:543-546 | A normal point on an interval's right side keeps the sweep invariant and leaves every left chain offered at p free for p. |
| MonotoneBuilder.MonotonePolygonBuilder.ContinueRightmostTop | crates/triangulation/src/face_triangulation.rs:548-557 | Fails when the last top edge is unmapped. When it is its interval's left side, a normal point continues it with the last bottom edge. When p was free on every left chain offered at p, the polygons end y-monotone down to p. |
| MonotoneBuilder.MonotonePolygonBuilder.StartBottomPairs | crates/triangulation/src/face_triangulation.rs:559-565 | Fails exactly for an odd number of remaining bottom edges. Otherwise it keeps every existing interval and appends one interval per consecutive pair of bottoms, topped at p with a single new polygon. |
| MonotoneBuilder.MonotonePolygonBuilder.ProcessIntersectionPoint | crates/triangulation/src/face_triangulation.rs:500-568 | Keeps every live side at or above the sweep and keeps the polygons y-monotone down to p. It fails when no live edge is topped at p but some input edge is topped at p and leaves it downward. |
| MonotoneBuilder.MonotonePolygonBuilder.ProcessPoint | crates/triangulation/src/face_triangulation.rs:625-639 | Dispatches on the corrected point type and keeps the polygons y-monotone down to p. On success at a point that no live edge reaches from above, every edge of an intersection vertex lies above it. |
| MonotoneBuilder.MonotonePolygonBuilder.SweepStep | crates/triangulation/src/face_triangulation.rs:624-640 | One pass of the sweep loop, reached from the previous point. On success the builder is swept to this point, the emitted polygons are y-monotone and in sweep order, and an intersection vertex here has all its edges above it. |
| MonotoneBuilder.SortedPointsDescending | crates/triangulation/src/face_triangulation.rs:617-623 | The points come out strictly descending and are exactly the table's keys. |
| MonotoneBuilder.SweepingLineTriangulation | crates/triangulation/src/face_triangulation.rs:615-642 | On Ok every emitted polygon is finished and y-monotone, the polygons are emitted in sweep order, and every intersection vertex has all its edges above it. |
| MonotoneBuilder.SweptPolygonsTriangulate | crates/triangulation/src/face_triangulation.rs:615-642 | Every polygon of the sweep's result can be triangulated: the triangulation succeeds with one triangle per chain point along a non-increasing vertex list. |

## Left out

- Floating point: coordinates are `real`. NaN, infinities, rounding and the precision remarks of the orientation test are not modelled.
- `Hash`, `Display` and `Debug` implementations, `new_i`/`new_f` and the `Triangle` type (point.rs:280-310): formatting and conversion only. `PointTriangle` is an ordered triple.
- `vector_length` and `point_projection_factor`: square roots and projections are not used by the fill core.
- `Interval::with_polygon`: it is never called by the core.
- Points.Divide requires a non-zero divisor. Division by zero in f32 gives infinity or NaN, which is out of the real model.
- FaceTriangulation.SortBy and SortByOpposite are insertion sorts. Rust's `sort_by` result agrees with them for total comparators. The comparators of the intersection step are total only on edges sharing the compared endpoint.
- `PointTriangle` equality and its normalisation are not part of this model. MonotonePolygons.TriangulationTestPolygonAgainstTest compares with the crate test's expected triangles up to rotation, and states that the second one matches only up to orientation.
- Points.SplitDocExampleEdges: states the eight edges of the example, not that the split returns two rings.
- MonotoneBuilder.SweepingLineTriangulation: the bottom of an emitted polygon is proved at or below its chains, not strictly below them.
- `#[cfg(debug_assertions)]` checks in `process_merge_point` and `process_normal_point`: the release behaviour is modelled.
- The `lib.rs` files, `path_triangulation.rs` and the Python bindings are not part of this model.
- Tests whose signatures do not match the modelled functions (the single-segment `on_segment_if_collinear` cases, `find_intersection`) are not modelled.
- MonotoneBuilder.MonotonePolygonBuilder.ProcessNormalPoint: on failure the model leaves the builder unchanged. When `replace_segment` panics, the source has already pushed polygons and updated the map, but that state is lost to the panic.
- MonotoneBuilder.MonotonePolygonBuilder.CollectIntersectionEdges: states the frame, which edges it collects and that emitted polygons are finished at p, not the exact map after the end points it closes.
- MonotoneBuilder.MonotonePolygonBuilder.ContinueTopEdges, ContinueLeftmostTop, ContinueRightSide and ContinueRightmostTop: state the frame, the sweep invariant, the failure conditions and the shape of the polygons, not the exact new state. The intersection handling is wrong for a top-down sweep, so its exact state is not worth a contract.
- MonotoneBuilder.MonotonePolygonBuilder.StartBottomPairs: states the intervals it opens, not the new map entries of their sides.
- MonotoneBuilder.MonotonePolygonBuilder.ProcessIntersectionPoint: states the frame, the sweep invariant and when it fails, not the exact new state.
- MonotoneBuilder.MonotonePolygonBuilder.ProcessPoint: states the frame, the sweep invariant and the intersection-vertex property; the per-type state changes are stated by the `process_*` methods it calls.
- Interval sharing: intervals live in an arena addressed by id, so two map entries share an interval exactly when they hold the same id. Stale intervals stay in the arena.
- MonotoneBuilder.MonotonePolygonBuilder.ProcessIntersectionPoint is modelled as written apart from its two sorts, which use the corrected comparators. There is no corrected top-down intersection handling. The code's behaviour on vertices with edges below them is what the contract states.
- MonotoneBuilder.SweepingLineTriangulation does not state that the polygons cover the input region, only their shape and sweep-order properties.
- Hash map iteration order is a nondeterministic choice. Results that depend on it, such as the ring order of `split_polygon_on_repeated_edges`, are specified for every order.

## Findings

| source | as written | input that shows it | evidently intended | confidence | as-written member | corrected member |
|---|---|---|---|---|---|---|
| crates/triangulation/src/monotone_polygon.rs:39-46 | The opposite-side step drains and refills the stack, keeping its old length. | Five-vertex polygon top (0,10), left (-1,7), (-3,5), right (1,2), bottom (0,0): 4 triangles. | Keep only the last stack point and the new point, giving n - 2 triangles. | not executed | MonotonePolygons.OppositeEdgeAsWrittenOvercounts | MonotonePolygons.OppositeEdgeStepCounts |
| crates/triangulation/src/point.rs:514-518 | The closing segment from last to first point is built with `Segment::new` without checking that they differ. | The closed ring [(0,0),(1,0),(1,1),(0,0)] panics. | Skip the closing edge when the ring already ends at its first point. | not executed | Points.SplitRejectsRepeatedFirstPoint | Points.SplitPolygonOnRepeatedEdgesClosed |
| crates/triangulation/src/point.rs:228-239 | The bounding-box test assumes bottom.x <= top.x. | Segment from (1,0) up to (0,1): both endpoints are rejected. | Use the min and max of the endpoint x coordinates. | not executed | Points.PointOnLineRejectsLeftLeaningEndpoint | Points.PointOnLineCorrectedHoldsAtEndpoints |
| crates/triangulation/src/face_triangulation.rs:600-609 | Split uses the shared-bottom pair helper (line 601) and merge the shared-top one (line 606), so each compares a segment's own endpoint with itself and never swaps. | Split at (0,0) with edges to (1,-1) and (-1,-2): the right edge is labelled left. | Split at a shared top uses the top helper; merge at a shared bottom uses the bottom helper. | not executed | FaceTriangulation.SplitSidesAsWrittenExample | FaceTriangulation.PointTypeEdges |
| crates/triangulation/src/face_triangulation.rs:430-435 | The negated test returns an interval that does NOT contain the point. | Interval with sides x = 0 and x = 10 and point (5,5): rejected. | Return the interval whose sides enclose the point. | not executed | MonotoneBuilder.FindIntervalAsWrittenRejectsContaining | MonotoneBuilder.MonotonePolygonBuilder.FindIntervalContainingPoint |
| crates/triangulation/src/face_triangulation.rs:363-371 | On the left side, `split_last_mut` holds a mutable borrow while `borrow_mut` is called again. | Normal point on the left side of an interval holding two polygons: `BorrowMutError` panic. | Keep the last polygon as the only one. | not executed | MonotoneBuilder.NormalPolygonsKeepsOne | MonotoneBuilder.NormalPointInterval |
| crates/triangulation/src/face_triangulation.rs:536-537 | The top edges, which share p as their top, are sorted with the shared-bottom comparator, and the bottom edges with the shared-top one. Every comparison is Equal, so neither sort reorders anything. | Edges leaving (0,0) down to (-1,-1) and (1,-1), in that order: the list stays as it is, although the shared-top comparator puts the edge to (1,-1) first. | Sort each list with the comparator for the endpoint its edges share. | not executed | FaceTriangulation.IntersectionSortAsWrittenIsIdentity | FaceTriangulation.IntersectionSortOrdered |
