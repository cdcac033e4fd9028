# pydcel: a verified model of the DCEL builder and its face queries

This project models the core of pydcel, a small Python library for planar subdivisions
stored as a doubly connected edge list (DCEL), and proves properties of that model in Dafny.

The model covers four source files:

- `pydcel/dcel/dcel.py`: the builder.
  - `add_vertex` and `add_edge` fill the vertex and half-edge lists.
  - `build_dcel` sorts each vertex's incident half-edges by angle and links `next` and
    `prev` from that order.
  - `_create_faces` walks the `next` cycles and gives every half-edge a face, then runs
    the external-face test.
- `pydcel/dcel/primitives.py`: half-edges and faces.
  - `destination` and `midpoint`.
  - The boundary walk behind `edges`, `vertices`, `edge_vertices` and `vertex_count`.
  - `area`, the two error paths of `centroid`, `isinside` and `_point_on_edge`.
- `pydcel/dcel/vertex.py`: `sortincident` (a stable sort, descending by key), `degree`,
  `coordinates` and vertex equality.
- `pydcel/dcel/utils.py`: `signed_area`.

Python object references become an arena. The `Dcel` class holds three sequences:
`vertices`, `hedges` and `faces`. Every `origin`, `twin`, `nexthedge`, `prevhedge`, `face`
and `wedge` is an index into one of them. `add_edge` appends the two halves of an edge
together, so the twin of half-edge `h` is `h + 1` when `h` is even and `h - 1` when it is
odd. The `Paired` invariant records this, and every construction step keeps it.

Modules, one per file:

- `Wrappers` (wrappers.dfy): `Option`, `Result` and `Outcome`.
- `Points` (point.dfy): a point as a pair of reals.
- `Utils` (utils.dfy): `signed_area`.
- `Vertices` (vertex.dfy): the vertex record, and the in-place insertion sort proved equal
  to the specification function `SortDesc`.
- `Primitives` (primitives.dfy): half-edges and faces, the boundary walk, and the face
  queries. Each query is a function plus a loop method proved equal to it.
- `Topology` (topology.dfy): the predicates that hold between construction steps, and the
  lemmas about them.
- `Dcel` (dcel.dfy): the `Dcel` class and its methods.
- `FaceFixtures` (fixtures.dfy): the square and triangle faces used by the repository's
  tests, with their expected areas, centroid, containment answers and boundary iterations.

## Where the code and its docstrings differ

The model follows the code in each case below.

- **Sort direction.** The docstring of `sortincident` (`vertex.py:31`) says it sorts
  counter-clockwise. The code sorts with `reverse=True` (`vertex.py:32`), so the list runs
  from the largest angle to the smallest. `Vertices.SortDescSorted` states that order.
- **Face area.** The docstring of `Face.area` (`primitives.py:59`) calls it a signed area.
  The code returns `abs(area) / 2` (`primitives.py:66`), which is never negative
  (`Primitives.Area`).
- **`signed_area`.** The docstring (`utils.py:5`) says it returns the signed area of the
  triangle. The expression (`utils.py:6`) is twice that: `Utils.SignedAreaOfRightTriangle`
  shows the value w·h for a right triangle with legs w and h.
- **Boundary order.** The docstrings of `Face.vertices` and `Face.edges`
  (`primitives.py:93`, `primitives.py:106`) promise counter-clockwise order. The walk
  follows `next`, and `build_dcel` sets `next(h)` to the twin of the entry after `h` in the
  sorted list of `h`'s origin (`dcel.py:53-55`).
  - So `next(h)` ends where `h` starts: `Topology.LinkedEnds` proves
    `destination(next(h)) == origin(h)`, and each cycle runs against the direction of its
    half-edges.
  - Worked out by hand from `Topology.LinksOf` for the unit square with corners v0 = (0, 0),
    v1 = (1, 0), v2 = (1, 1) and v3 = (0, 1), the cycle through the half-edge v0 -> v1
    yields the vertices v0, v3, v2, v1, which is clockwise.
  - The model proves no orientation for the built faces.
- **Centroid sign.** The docstring of `Face.centroid` (`primitives.py:75`) calls the result
  the centre of mass. The code divides the signed centroid sums by six times the unsigned
  area (`primitives.py:83-90`). So a face whose boundary runs clockwise gets its centre of
  mass negated.
  - `Primitives.CentroidReversed` proves that reversing a boundary negates the centroid.
  - `FaceFixtures.ClockwiseSquareCentroid` shows (-0.5, -0.5) for the unit square walked
    v0, v3, v2, v1. That is the order worked out above for the face `build_dcel` creates
    for the unit square.
- **The external flag.** The comment at `dcel.py:80` says external faces are marked by a
  negative-area test. The test is `face.area < 0` (`dcel.py:82`), and `area` is never
  negative, so no face is ever marked external.
  - `Dcel.Dcel.MarkExternal` leaves the faces unchanged.
  - `Topology.NoneExternal` shows that `internal_faces` then counts every face.

Two facts about the links that no docstring states:

- `prev(h)` is the previous entry in the same vertex's sorted list (`dcel.py:56`). It is
  not the inverse of `next`. `Topology.PrevUndoesNext` proves `prev(twin(next(h))) == h`
  instead. The hand-built face in the repository's tests sets `prev` as the inverse of
  `next` (`tests/test.py:159-161`), and `FaceFixtures` models that fixture as written.
- `next` is still a bijection (`Topology.LinkedPermuting`, `Topology.NextOnto`), so every
  walk closes and the half-edges split into faces (`Topology.FacesAreCycles`).

## Model

| member | source | states |
|---|---|---|
| Utils.SignedAreaDegenerate | pydcel/dcel/utils.py:4-6 | the signed area is zero when any two of the three corners coincide |
| Utils.SignedAreaSwap | pydcel/dcel/utils.py:4-6 | exchanging the second and third corners negates the signed area |
| Utils.SignedAreaRotate | pydcel/dcel/utils.py:4-6 | rotating the corners (p1, p2, p3) to (p2, p3, p1) keeps the signed area |
| Utils.SignedAreaTranslate | pydcel/dcel/utils.py:4-6 | moving all three corners by one vector keeps the signed area |
| Utils.SignedAreaOfRightTriangle | pydcel/dcel/utils.py:4-6 | for a right triangle with legs w and h the value is w·h, twice the triangle's area |
| Vertices.NewVertex | pydcel/dcel/vertex.py:8-11 | a new vertex sits at (x, y), has an empty incident list, no index and degree 0 |
| Vertices.Coordinates | pydcel/dcel/vertex.py:13-23 | `coordinates` is the pair (x, y) of the stored point |
| Vertices.Degree | pydcel/dcel/vertex.py:25-28 | the degree is the number of half-edges in the incident list |
| Vertices.SameLocationIsLocation | pydcel/dcel/vertex.py:37-40 | two vertices are equal exactly when their points coincide; equality ignores the index and the incident list, and is reflexive, symmetric and transitive |
| Vertices.InsertLastPermutes | pydcel/dcel/vertex.py:30-32 | one insertion step of the sort adds exactly the inserted entry to the multiset |
| Vertices.InsertLastSorted | pydcel/dcel/vertex.py:30-32 | inserting into a list sorted by descending key keeps it sorted |
| Vertices.InsertLastWithKey | pydcel/dcel/vertex.py:30-32 | an insertion puts the new entry behind every entry with the same key |
| Vertices.InsertLastAt | pydcel/dcel/vertex.py:30-32 | the position where the inner loop of the sort stops is where the insertion step puts the entry |
| Vertices.SortDescPermutes | pydcel/dcel/vertex.py:30-32 | `sortincident` permutes the incident list: the multiset of entries is unchanged |
| Vertices.SortDescSorted | pydcel/dcel/vertex.py:30-32 | after `sortincident` the keys are non-increasing along the list |
| Vertices.SortDescStable | pydcel/dcel/vertex.py:30-32 | entries with equal keys keep their relative order, as Python's stable sort with `reverse=True` does |
| Vertices.SortIncident | pydcel/dcel/vertex.py:30-32 | sorting the array in place leaves it equal to the stable descending sort of its old contents |
| Vertices.SinkLast | pydcel/dcel/vertex.py:30-32 | the inner loop moves entry i left past every entry with a smaller key, yielding the insertion step on the prefix and leaving the rest of the array unchanged |
| Vertices.SortedList | pydcel/dcel/vertex.py:30-32 | sorting a vertex's list through an array yields the stable descending sort of the list |
| Vertices.SortKeepsDegree | pydcel/dcel/vertex.py:25-32 | sorting leaves the degree and the multiset of incident half-edges unchanged |
| Primitives.NewHalfEdge | pydcel/dcel/primitives.py:12-18 | a new half-edge has the given origin and destination, and no twin, face, next or prev |
| Primitives.NewFace | pydcel/dcel/primitives.py:52-55 | a new face has no wedge and is not external |
| Primitives.Destination | pydcel/dcel/primitives.py:20-23 | the destination is the twin's origin once a twin is set, otherwise the vertex given at creation, and it is always a vertex index |
| Primitives.AngleInTurn | pydcel/dcel/primitives.py:30-36 | when atan2 lies in (-π, π], the normalised angle lies in [0, 2π) |
| Primitives.MidpointHalfway | pydcel/dcel/primitives.py:38-44 | the midpoint is as far from the origin as from the destination, in each coordinate |
| Primitives.Trace | pydcel/dcel/primitives.py:110-116 | the walk starts at the current half-edge, follows `next` from each entry to the following one, never revisits its start, and is no longer than its fuel |
| Primitives.RepeatReturnsEarly | pydcel/dcel/primitives.py:110-116 | if a closed walk repeats an entry, it was already back at its start earlier |
| Primitives.ClosedWalkDistinct | pydcel/dcel/primitives.py:110-116 | a closed walk that first returns to its start at its end visits no half-edge twice |
| Primitives.Edges | pydcel/dcel/primitives.py:105-116 | `edges` yields nothing for a face without a wedge; otherwise it yields the wedge first, each entry's `next` after it, and the last entry's `next` is the wedge again, which appears only once |
| Primitives.EdgesDistinct | pydcel/dcel/primitives.py:105-116 | each half-edge of a face's boundary is yielded once |
| Primitives.WalkReturns | pydcel/dcel/primitives.py:110-116 | following `next` i times from the wedge reaches the i-th boundary half-edge, and reaches the wedge only after the whole cycle |
| Primitives.TraceOfCycle | pydcel/dcel/primitives.py:110-116 | a distinct chain of `next` links that leads back to its start is exactly the walk from that start, and that walk closes |
| Primitives.TraceFollows | pydcel/dcel/primitives.py:110-116 | from any entry of a distinct closed chain of `next` links, the walk yields the rest of the chain |
| Primitives.ClosesOfCycle | pydcel/dcel/primitives.py:110-116 | a walk whose last entry's `next` is its start closes |
| Primitives.TraceSameLinks | pydcel/dcel/primitives.py:110-116 | the walk reads only `next`: two arenas with the same `next` links have the same walks |
| Primitives.EdgesSameLinks | pydcel/dcel/primitives.py:105-116 | a face's boundary depends only on the `next` links |
| Primitives.BoundaryVertices | pydcel/dcel/primitives.py:92-103 | `vertices` yields the origin of each boundary half-edge, in walk order |
| Primitives.EdgeVertices | pydcel/dcel/primitives.py:118-121 | `edge_vertices` yields (origin, destination) of each boundary half-edge, in walk order |
| Primitives.VertexCount | pydcel/dcel/primitives.py:170-173 | `vertex_count` is the length of the boundary cycle, and it is 0 exactly for a face without a wedge |
| Primitives.ShoelaceStep | pydcel/dcel/primitives.py:63-65 | each boundary segment adds its cross product x1·y2 - x2·y1 to the shoelace sum |
| Primitives.Area | pydcel/dcel/primitives.py:57-66 | the area is never negative, and it is 0 for a face without a wedge |
| Primitives.ShoelaceAppend | pydcel/dcel/primitives.py:63-65 | the shoelace sum of two boundary pieces is the sum of their shoelace sums |
| Primitives.ShoelaceReversed | pydcel/dcel/primitives.py:63-66 | reversing the boundary's orientation negates the shoelace sum, so the area is unchanged |
| Primitives.CentroidSumsStep | pydcel/dcel/primitives.py:83-87 | each boundary segment adds its weighted terms to the two centroid sums |
| Primitives.Centroid | pydcel/dcel/primitives.py:73-90 | `centroid` fails with "no edges" exactly for a face without a wedge, fails with "zero area" exactly for a face with a wedge and area 0, and succeeds exactly when the area is non-zero |
| Primitives.PolygonCentroid | pydcel/dcel/primitives.py:78-90 | on a non-empty boundary, `centroid` fails only with "zero area", and succeeds exactly when the unsigned area is non-zero |
| Primitives.CentroidSumsAppend | pydcel/dcel/primitives.py:83-87 | the centroid sums of two boundary pieces are the sums of theirs |
| Primitives.CentroidSumsReversed | pydcel/dcel/primitives.py:83-87 | reversing the boundary negates both centroid sums |
| Primitives.CentroidPointNegated | pydcel/dcel/primitives.py:89-90 | dividing negated sums by the same area gives the negated point |
| Primitives.PolygonCentroidReversed | pydcel/dcel/primitives.py:78-90 | a boundary run the other way has a centroid exactly when the original does, and it is the negation of the original's centroid |
| Primitives.CentroidReversed | pydcel/dcel/primitives.py:57-90 | two faces whose boundaries are the same polygon in opposite directions have the same area, and one's centroid is the negation of the other's |
| Primitives.PointOnEdgeInBox | pydcel/dcel/primitives.py:148-158 | a point on an edge lies in the edge's bounding box |
| Primitives.PointOnAxisEdge | pydcel/dcel/primitives.py:151-164 | on a vertical or horizontal edge the test is: inside the bounding box, with an exact match of the constant coordinate |
| Primitives.SegmentPointOnEdge | pydcel/dcel/primitives.py:148-168 | every point of the closed segment between the edge's ends passes the test |
| Primitives.PointOnEdgeSymmetric | pydcel/dcel/primitives.py:148-168 | the on-edge test gives the same answer for both directions of the edge |
| Primitives.ExpectedYSymmetric | pydcel/dcel/primitives.py:166-167 | the line through the two ends predicts the same height from either end |
| Primitives.Crossing | pydcel/dcel/primitives.py:137-145 | a segment adds +1 exactly when it crosses the point's height upwards with the point on its left (positive signed area), -1 exactly when it crosses downwards with the point on its right, and 0 otherwise |
| Primitives.WindingStep | pydcel/dcel/primitives.py:136-145 | each boundary segment adds its crossing to the winding number |
| Primitives.CornerIsInside | pydcel/dcel/primitives.py:127-130 | every boundary vertex of a face is inside it |
| Primitives.CrossingReversed | pydcel/dcel/primitives.py:137-145 | a segment traversed the other way contributes the opposite crossing |
| Primitives.WindingAppend | pydcel/dcel/primitives.py:136-145 | the winding number of two boundary pieces is the sum of theirs |
| Primitives.WindingReversed | pydcel/dcel/primitives.py:136-146 | reversing the boundary negates the winding number |
| Primitives.InsideReversed | pydcel/dcel/primitives.py:123-146 | containment does not depend on the orientation of the boundary |
| Primitives.TouchesReversed | pydcel/dcel/primitives.py:127-133 | the boundary test (a corner or a point on an edge) does not depend on the orientation of the boundary |
| Primitives.WindingOutsideBand | pydcel/dcel/primitives.py:136-146 | a point strictly above, or strictly below, every boundary vertex has winding number 0 |
| Primitives.WalkEdges | pydcel/dcel/primitives.py:105-116 | the `while True` loop that chases `nexthedge` from the wedge yields exactly the boundary half-edges |
| Primitives.ComputeArea | pydcel/dcel/primitives.py:57-66 | the accumulation loop of `area` computes the area of the face |
| Primitives.ComputeCentroid | pydcel/dcel/primitives.py:73-90 | the two error checks, then the accumulation, give the centroid result |
| Primitives.SumMoments | pydcel/dcel/primitives.py:83-87 | the loop of `centroid` computes the two centroid sums over the boundary |
| Primitives.ComputeIsInside | pydcel/dcel/primitives.py:123-146 | `isinside` returns true when the point is a corner of, or lies on, a boundary edge; otherwise it returns whether the winding number is non-zero |
| Primitives.WindingNumber | pydcel/dcel/primitives.py:135-146 | the second loop of `isinside` computes the winding number of the boundary around the point |
| Topology.Twin | pydcel/dcel/dcel.py:33-36 | the twin of an even half-edge is the one after it, and the twin of an odd half-edge is the one before it |
| Topology.TwinInvolution | pydcel/dcel/dcel.py:29-36 | twin is an involution without fixed points: twin(twin(h)) == h and twin(h) != h |
| Topology.TwinOfTwin | pydcel/dcel/dcel.py:29-36 | in the arena built by add_edge, the twin of h is another half-edge whose twin is h, which starts where h was created to end, and whose destination is h's origin |
| Topology.NextIndex | pydcel/dcel/dcel.py:54 | the position after k, taken cyclically, is a position in the list |
| Topology.PrevIndex | pydcel/dcel/dcel.py:56 | the position before k, where index -1 means the last entry, is a position whose next position is k |
| Topology.NextIndexIsModulo | pydcel/dcel/dcel.py:54-56 | the cyclic next position is (k + 1) mod n, and the previous position undoes it |
| Topology.Incident | pydcel/dcel/dcel.py:36-38 | a vertex's list in creation order holds only half-edges leaving that vertex, in increasing index order |
| Topology.IncidentComplete | pydcel/dcel/dcel.py:36-38 | every half-edge leaving a vertex is in that vertex's list |
| Topology.IncidentAppend | pydcel/dcel/dcel.py:36-38 | adding an edge appends the first new half-edge to i's list and the second to j's list, and changes no other list |
| Topology.IncidentNone | pydcel/dcel/dcel.py:17-22 | a vertex that no half-edge leaves has an empty list |
| Topology.IncidentSameOrigins | pydcel/dcel/dcel.py:51-56 | the incident lists depend only on the origins |
| Topology.GroupedPartitioned | pydcel/dcel/dcel.py:60-78 | once every half-edge has a face, the faces built so far partition the half-edges |
| Topology.GroupedMember | pydcel/dcel/dcel.py:66-78 | part way through, a half-edge has face f exactly when it lies on f's boundary walk |
| Topology.GroupedAfterWalk | pydcel/dcel/dcel.py:66-78 | a completed walk adds a face whose boundary is exactly the half-edges given that face |
| Topology.FaceGroupedAfterWalk | pydcel/dcel/dcel.py:66-78 | after a walk, every face, old or new, holds exactly its cycle |
| Topology.NewFaceGrouped | pydcel/dcel/dcel.py:67-78 | the new face holds exactly the walk |
| Topology.KeptFaceGrouped | pydcel/dcel/dcel.py:66-78 | a face created before the walk keeps exactly its half-edges |
| Topology.GainedFaceBound | pydcel/dcel/dcel.py:66-78 | face numbers stay below the face count once the new face is counted |
| Topology.FreshAfterStep | pydcel/dcel/dcel.py:72-78 | unless the walk is back at its start, it reaches a half-edge that has no face yet |
| Topology.NotInWalk | pydcel/dcel/dcel.py:72-78 | since `next` is a bijection, the walk never comes back to a half-edge it passed, other than its start |
| Topology.NotOnCycle | pydcel/dcel/dcel.py:72-78 | a half-edge off a closed `next` cycle does not lead onto it |
| Topology.WalkingStep | pydcel/dcel/dcel.py:72-78 | one step of the walk gives the current half-edge the new face; either the walk is back at its start and the faces are grouped, or it goes on |
| Topology.WalkMarks | pydcel/dcel/dcel.py:74 | giving the current half-edge the face changes only that half-edge's face, and the half-edges with the new face are exactly the walk |
| Topology.WalkCloses | pydcel/dcel/dcel.py:76-78 | the step that returns to the start closes the new face's boundary |
| Topology.WalkCycle | pydcel/dcel/dcel.py:72-78 | a walk whose last step leads back to its start is the trace of a closed cycle |
| Topology.WalkContinues | pydcel/dcel/dcel.py:72-78 | any other step reaches a half-edge without a face, and the walk invariant still holds |
| Topology.WalkExtends | pydcel/dcel/dcel.py:72-78 | appending the half-edge reached keeps the walk a chain of distinct `next` links |
| Topology.FacingStarts | pydcel/dcel/dcel.py:60-64 | before the first walk no half-edge has a face and there are no faces |
| Topology.FacingStep | pydcel/dcel/dcel.py:64-78 | a half-edge that already has a face is skipped; otherwise its walk creates one face and keeps the earlier ones |
| Topology.FacedBefore | pydcel/dcel/dcel.py:64-78 | after the turn for half-edge s, every half-edge up to s has a face |
| Topology.NoneExternalAppend | pydcel/dcel/dcel.py:67-69 | a new face is not external, so no face is external |
| Topology.FacingDone | pydcel/dcel/dcel.py:60-78 | at the end of the loop the faces partition the half-edges, and only faces have changed |
| Topology.IndexedIgnoresFaces | pydcel/dcel/dcel.py:74 | setting faces keeps every stored index in range |
| Topology.BuiltAfterFaces | pydcel/dcel/dcel.py:42-58 | creating the faces of a linked arena yields the built state: linked by angle and partitioned into faces |
| Topology.EdgeOriginsStep | pydcel/dcel/dcel.py:47-48 | the edges are added in input order: edge e gives half-edges n0 + 2e and n0 + 2e + 1, with origins i and j |
| Topology.EdgeOriginsSameShape | pydcel/dcel/dcel.py:50-58 | linking and face creation keep the origins of the half-edges |
| Topology.VertexPointsStep | pydcel/dcel/dcel.py:44-45 | the vertices are added in input order, each at its point |
| Topology.UnlinkedAfterVertex | pydcel/dcel/dcel.py:17-22 | add_vertex keeps the bookkeeping: the new vertex has no half-edges and knows its index |
| Topology.AppendedToLists | pydcel/dcel/dcel.py:37-38 | the two list updates of add_edge append n to i's list and n + 1 to j's list, also when i == j, and leave the other lists unchanged |
| Topology.UnlinkedAfterEdge | pydcel/dcel/dcel.py:24-40 | add_edge keeps the bookkeeping: twins are paired and every list holds its incident half-edges in creation order |
| Topology.ListAfterEdge | pydcel/dcel/dcel.py:36-38 | appending to a vertex's list matches where the new half-edges fall in its incident list |
| Topology.PairedAfterEdge | pydcel/dcel/dcel.py:29-36 | the new pair are each other's twins and each other's destinations |
| Topology.NewPairDestination | pydcel/dcel/dcel.py:29-36 | the destination given at creation is the twin's origin, for old and new half-edges alike |
| Topology.Ends | pydcel/dcel/primitives.py:30-36 | each half-edge's angle is measured from its origin's point to its destination's point |
| Topology.AngleKey | pydcel/dcel/primitives.py:30-36 | the sort key of a half-edge is its angle |
| Topology.EndsSameShape | pydcel/dcel/dcel.py:50-56 | linking changes neither points, origins nor twins, so it changes no angle |
| Topology.SortedIncident | pydcel/dcel/dcel.py:51-52 | a vertex's sorted list holds each half-edge leaving it exactly once, and nothing else |
| Topology.PositionOf | pydcel/dcel/dcel.py:51-53 | after linking, each half-edge sits in its origin's sorted list |
| Topology.LinksOf | pydcel/dcel/dcel.py:51-56 | for h at position k of its origin's sorted list l: next(h) == twin(l[(k+1) mod n]) and prev(h) == l[(k-1) mod n], both taken from the same vertex |
| Topology.LinkedIndexed | pydcel/dcel/dcel.py:51-56 | after linking, every stored next, prev and twin is a half-edge |
| Topology.LinkedPermuting | pydcel/dcel/dcel.py:53-56 | after linking, `next` is defined everywhere and prev(twin(next(h))) == h, so `next` is a bijection |
| Topology.PrevUndoesNext | pydcel/dcel/dcel.py:53-56 | for one half-edge h, the twin of next(h) has h as its prev |
| Topology.NextOnto | pydcel/dcel/dcel.py:53-56 | every half-edge is the `next` of exactly one half-edge |
| Topology.LinkedEnds | pydcel/dcel/dcel.py:51-56 | destination(next(h)) == origin(h) and origin(prev(h)) == origin(h) |
| Topology.DegreeCountsIncident | pydcel/dcel/dcel.py:51-52 | after sorting, a vertex's degree is the number of half-edges leaving it |
| Topology.LinkingStarts | pydcel/dcel/dcel.py:51-53 | the linking loop of a vertex starts from its sorted incident list |
| Topology.LinkingStep | pydcel/dcel/dcel.py:53-56 | one turn of the loop sets next and prev of the half-edge at position k, reading the twin of the following entry |
| Topology.LinkingDone | pydcel/dcel/dcel.py:53-56 | when a vertex's loop ends, its list is linked around and only next and prev of its entries have changed |
| Topology.LinkingAllStarts | pydcel/dcel/dcel.py:50-51 | before the linking loop, every list is still in creation order |
| Topology.LinkingAllStep | pydcel/dcel/dcel.py:51-56 | linking vertex v keeps the vertices before it sorted and linked, and the ones after it untouched |
| Topology.LinkedAfterStep | pydcel/dcel/dcel.py:51-56 | after vertex v is linked, each vertex up to v holds its sorted list and is linked around it |
| Topology.LinksKeepShape | pydcel/dcel/dcel.py:51-56 | setting next and prev and reordering one list keeps the twins, the points and the faces |
| Topology.OtherVertexKeepsLinks | pydcel/dcel/dcel.py:53-56 | linking one vertex does not disturb the links around another |
| Topology.LinkingAllDone | pydcel/dcel/dcel.py:50-56 | when every vertex has been linked, the arena is linked |
| Topology.LinkedIgnoresFaces | pydcel/dcel/dcel.py:60-78 | creating faces leaves the links as they were |
| Topology.AroundSameLinks | pydcel/dcel/dcel.py:53-56 | the links around a vertex depend only on next and prev |
| Topology.WedgeCarriesFace | pydcel/dcel/dcel.py:67-69 | each face's wedge carries that face |
| Topology.ExactlyOneFace | pydcel/dcel/dcel.py:60-78 | every half-edge lies on the boundary of its own face and of no other face |
| Topology.RotatedCycle | pydcel/dcel/dcel.py:72-78 | started from any of its entries, a closed cycle of distinct half-edges is the walk from that entry |
| Topology.RotatedDistinct | pydcel/dcel/dcel.py:72-78 | a rotated cycle still visits each half-edge once |
| Topology.RotatedWalk | pydcel/dcel/dcel.py:72-78 | a rotated cycle still follows `next` and closes |
| Topology.CycleOfRotation | pydcel/dcel/dcel.py:72-78 | the cycle through any entry of a closed walk holds the same half-edges |
| Topology.CycleOfFaceMember | pydcel/dcel/dcel.py:60-78 | the `next` cycle through any half-edge of a face is that face's cycle |
| Topology.DistinctFaceCycles | pydcel/dcel/dcel.py:60-78 | two different faces have different cycles |
| Topology.FaceCycleIsEdges | pydcel/dcel/dcel.py:60-78 | a face's cycle holds exactly its boundary half-edges |
| Topology.FaceCyclesInjective | pydcel/dcel/dcel.py:60-78 | no two faces share a cycle |
| Topology.FaceOfCycle | pydcel/dcel/dcel.py:60-78 | the cycle through a half-edge on a face's boundary is a face's cycle |
| Topology.CyclesCount | pydcel/dcel/dcel.py:60-78 | when every cycle is a face's cycle and no two faces share one, there are as many cycles as faces |
| Topology.FacesAreCycles | pydcel/dcel/dcel.py:60-78 | after `_create_faces`, the `next` cycles are exactly the faces' cycles, and there are as many of them as faces |
| Topology.InternalFaces | pydcel/dcel/dcel.py:92 | the internal-face count is at most the number of faces |
| Topology.NoneExternal | pydcel/dcel/dcel.py:81-92 | when no face is external, `internal_faces` equals the number of faces |
| Dcel.Dcel.constructor | pydcel/dcel/dcel.py:9-12 | a new DCEL has empty vertex, half-edge and face lists |
| Dcel.Dcel.Init | pydcel/dcel/dcel.py:9-15 | `Dcel(vertices, edges)` builds only when both lists are non-empty, and otherwise stays empty. When it builds, its vertices are the given points in order, and it succeeds exactly when every edge index is in range. On success the half-edges come from the given edges in order, the result is built, and no face is external. On failure the pairs before the first bad pair are kept |
| Dcel.Dcel.AddVertex | pydcel/dcel/dcel.py:17-22 | appends exactly one vertex at (x, y) whose index is the old vertex count; the earlier vertices and the half-edges are unchanged |
| Dcel.Dcel.AddEdge | pydcel/dcel/dcel.py:24-40 | fails, changing nothing, exactly when an index is at least the vertex count; otherwise it appends two mutually twinned half-edges i -> j and j -> i, adds the first to i's list and the second to j's list, and changes nothing else |
| Dcel.Dcel.BuildDcel | pydcel/dcel/dcel.py:42-58 | adds the points in order, then the edges in order; it fails exactly when some edge index is out of range; on success the half-edges come from the edges in order, every half-edge is linked by angle and has exactly one face, and no face is external; on failure the half-edges of every pair before the first bad pair are kept, in order, and nothing is linked or grouped |
| Dcel.Dcel.LinkAndGroup | pydcel/dcel/dcel.py:50-58 | the linking loop followed by `_create_faces` reaches the built state and keeps points, origins and twins |
| Dcel.Dcel.AddVertices | pydcel/dcel/dcel.py:44-45 | the first loop adds one vertex per point, in order |
| Dcel.Dcel.AddEdges | pydcel/dcel/dcel.py:47-48 | the second loop adds the edges in order and fails exactly when some edge index is out of range; it stops at the first bad pair, keeping the two half-edges of each earlier pair with their origins in order |
| Dcel.Dcel.LinkAll | pydcel/dcel/dcel.py:50-56 | after the loop over all vertices, every list is its incident half-edges sorted by angle, and every half-edge is linked as `LinksOf` describes |
| Dcel.Dcel.LinkVertex | pydcel/dcel/dcel.py:51-56 | sorts one vertex's list and links around it, changing only next and prev of that list's entries |
| Dcel.LinkAround | pydcel/dcel/dcel.py:53-56 | the loop over a sorted list sets next and prev of each entry as the source does |
| Dcel.Dcel.CreateFaces | pydcel/dcel/dcel.py:60-83 | gives every half-edge exactly one face whose boundary walk is exactly its half-edges, changes nothing but faces, and marks no face external |
| Dcel.Dcel.MarkExternal | pydcel/dcel/dcel.py:80-83 | the `area < 0` test never holds, so the faces are unchanged |
| Dcel.Dcel.WalkFace | pydcel/dcel/dcel.py:66-78 | a new face anchored at s is appended, and exactly the half-edges of s's cycle, all previously without a face, get it |
| Dcel.ClaimFace | pydcel/dcel/dcel.py:71-78 | the walk from s gives the new face to exactly the half-edges of s's cycle, and the faces stay grouped |
| FaceFixtures.SquareWalk | pydcel/tests/test.py:147-167 | the square fixture's face has the boundary 0, 1, 2, 3 |
| FaceFixtures.TriangleWalk | pydcel/tests/test.py:169-186 | the triangle fixture's face has the boundary 0, 1, 2 |
| FaceFixtures.SquareBoundary | pydcel/tests/test.py:227-259 | the square has 4 vertices, visited in order 0, 1, 2, 3, with edge pairs (0, 1), (1, 2), (2, 3), (3, 0) at the expected points |
| FaceFixtures.SquareCycle | pydcel/tests/test.py:237-244 | along the square's boundary, each half-edge's next is the following one and its prev is the preceding one |
| FaceFixtures.TriangleBoundary | pydcel/tests/test.py:209-213 | the triangle has 3 vertices at the expected points |
| FaceFixtures.SquareShoelace | pydcel/tests/test.py:198-200 | the square's shoelace sum is 2 |
| FaceFixtures.SquareCentroidSums | pydcel/tests/test.py:204-207 | the square's centroid sums are (3, 3) |
| FaceFixtures.SquareArea | pydcel/tests/test.py:198-200 | the square's area is 1 |
| FaceFixtures.SquareCentroid | pydcel/tests/test.py:204-207 | the square's centroid is (0.5, 0.5) |
| FaceFixtures.ClockwiseSquareWalk | pydcel/dcel/primitives.py:105-116 | the unit square walked v0, v3, v2, v1 has the boundary 0, 1, 2, 3 |
| FaceFixtures.ClockwiseSquareBoundary | pydcel/dcel/primitives.py:92-103 | the clockwise square yields its corners in the order 0, 3, 2, 1, along the square's sides run the other way |
| FaceFixtures.ClockwiseSquareCentroid | pydcel/dcel/primitives.py:73-90 | the clockwise unit square has area 1 and centroid (-0.5, -0.5), not its centre of mass |
| FaceFixtures.TriangleSums | pydcel/tests/test.py:209-211 | the triangle's shoelace sum is 1 |
| FaceFixtures.TriangleMeasures | pydcel/tests/test.py:209-213 | the triangle's area is 0.5 |
| FaceFixtures.SquareWindsRoundCentre | pydcel/tests/test.py:215-216 | the square's boundary winds once around its centre |
| FaceFixtures.SquareMisses | pydcel/tests/test.py:219-220 | (2, 2) and (0.5, -0.1) are neither on the square's boundary nor wound around |
| FaceFixtures.SquareContainment | pydcel/tests/test.py:215-225 | the centre, the corners (0, 0) and (1, 1), and the edge midpoint (0.5, 0) are inside the square |
| FaceFixtures.SquareBoundaryPoints | pydcel/tests/test.py:217-221 | (0, 0), (0.5, 0) and (1, 1) lie on the square's boundary |
| FaceFixtures.SquareExclusion | pydcel/tests/test.py:219-225 | (2, 2) and (0.5, -0.1) are not inside the square |
| FaceFixtures.EmptyFace | pydcel/tests/test.py:188-196 | a new face has no boundary, is not external, has area 0 and vertex count 0, and its centroid fails |
| FaceFixtures.LoneHalfEdge | pydcel/tests/test.py:92-101 | a half-edge without a twin ends at the vertex it was created with |

## Left out

- Floating point: coordinates, areas and angles are reals. Rounding is not modelled, so
  the exact `==` tests and the `1e-10` slope tolerance of `_point_on_edge` are exact real
  comparisons.
- `math.atan2` is a parameter of `BuildDcel` and of the angle key. The model uses no
  property of it beyond what `Primitives.AngleInTurn` assumes about its range.
- `HalfEdge.length` and `Face.perimeter` are not modelled: they are `math.sqrt` of floats.
- `pydcel/dcel/point.py` is not part of this model. A point is a pair of reals.
- `cached_property` memoisation and the unused `_cached_properties` dictionary are not
  modelled. Every query is a plain function of the current arena.
- `Primitives.Centroid`: for every face the model states the two error paths and the
  orientation rule (`Primitives.CentroidReversed`). Otherwise it proves the centroid's
  value only for the two square fixtures (`FaceFixtures.SquareCentroid`,
  `FaceFixtures.ClockwiseSquareCentroid`).
- `_create_faces` pops half-edges from a set, in an order Python does not fix. The model
  visits them in index order. It proves the partition into cycles, which does not depend
  on that order; the order of the resulting faces may differ.
- Indices are natural numbers. Python would wrap a negative index passed to `add_edge`.
- `Face.vertices` and `Face.edge_vertices` are functions over the walk. Only `Face.edges`
  has its loop written out as a method (`Primitives.WalkEdges`), because the other two
  iterate the same walk.
- A face whose `next` walk never comes back to its wedge makes the queries in
  `primitives.py` loop forever or crash. The queries require the walk to close, which holds
  for every face `build_dcel` creates.
- Queries return indices where the source returns objects.
- `__repr__`, the `statistics` dictionary (apart from its `internal_faces` count) and
  `Vertex.__hash__` are not modelled.
- Calling `build_dcel` twice on one instance is not modelled: `BuildDcel` requires a DCEL
  without faces.
- That twin half-edges lie on different faces is not proved. It fails for a bridge edge,
  whose two halves bound the same face.
- The loops of `build_dcel`, `isinside` and `_create_faces` are written as separate
  methods (`AddVertices`, `AddEdges`, `LinkAll`, `LinkVertex`, `LinkAround`,
  `WindingNumber`, `WalkFace`, `ClaimFace`, `MarkExternal`). Each follows one loop of the
  source.
