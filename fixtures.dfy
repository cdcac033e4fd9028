/** The face fixtures of pydcel/tests/test.py: a unit square and a right triangle, built
    half-edge by half-edge with no twins, and an empty face. */
module FaceFixtures {
  import opened Wrappers
  import opened Points
  import opened Vertices
  import opened Primitives
  import opened Utils

  /** Half-edge i runs from vertex i to vertex i + 1, round the ring; `next` and `prev` step
      round the ring too and every half-edge belongs to face 0. */
  function Square(): seq<HalfEdge>
  {
    [HalfEdge(0, None, Some(0), Some(1), Some(3), 1), HalfEdge(1, None, Some(0), Some(2), Some(0), 2),
     HalfEdge(2, None, Some(0), Some(3), Some(1), 3), HalfEdge(3, None, Some(0), Some(0), Some(2), 0)]
  }

  function Triangle(): seq<HalfEdge>
  {
    [HalfEdge(0, None, Some(0), Some(1), Some(2), 1), HalfEdge(1, None, Some(0), Some(2), Some(0), 2),
     HalfEdge(2, None, Some(0), Some(0), Some(1), 0)]
  }

  function SquareVertices(): seq<Vertex>
  {
    [NewVertex(0.0, 0.0), NewVertex(1.0, 0.0), NewVertex(1.0, 1.0), NewVertex(0.0, 1.0)]
  }

  function TriangleVertices(): seq<Vertex>
  {
    [NewVertex(0.0, 0.0), NewVertex(1.0, 0.0), NewVertex(0.0, 1.0)]
  }

  /** The face whose `wedge` is half-edge 0. */
  function RingFace(): Face
  {
    Face(Some(0), false)
  }

  /** Four half-edges whose `next` links go round 0, 1, 2, 3: the walk from 0 is the ring. */
  lemma RingWalk(hs: seq<HalfEdge>)
    requires |hs| == 4
    requires hs[0].next == Some(1) && hs[1].next == Some(2) && hs[2].next == Some(3) && hs[3].next == Some(0)
    ensures NextInRange(hs) && Walkable(hs, RingFace())
    ensures Edges(hs, RingFace()) == [0, 1, 2, 3]
  {
    assert Trace(hs, 0, 3, 1) == [3];
    assert Trace(hs, 0, 2, 2) == [2, 3];
    assert Trace(hs, 0, 1, 3) == [1, 2, 3];
    assert Trace(hs, 0, 0, 4) == [0, 1, 2, 3];
  }

  lemma SquareWalk()
    ensures Indexed(4, Square()) && Walkable(Square(), RingFace())
    ensures Edges(Square(), RingFace()) == [0, 1, 2, 3]
  {
    RingWalk(Square());
  }

  lemma TriangleWalk()
    ensures Indexed(3, Triangle()) && Walkable(Triangle(), RingFace())
    ensures Edges(Triangle(), RingFace()) == [0, 1, 2]
  {
    var hs := Triangle();
    assert hs[0].next == Some(1) && hs[1].next == Some(2) && hs[2].next == Some(0);
    assert Trace(hs, 0, 2, 1) == [2];
    assert Trace(hs, 0, 1, 2) == [1, 2];
    assert Trace(hs, 0, 0, 3) == [0, 1, 2];
  }

  /** The square's boundary, as segments between vertex locations. */
  predicate SquareSides(segs: seq<Segment>)
  {
    && |segs| == 4
    && segs[0] == (Point(0.0, 0.0), Point(1.0, 0.0))
    && segs[1] == (Point(1.0, 0.0), Point(1.0, 1.0))
    && segs[2] == (Point(1.0, 1.0), Point(0.0, 1.0))
    && segs[3] == (Point(0.0, 1.0), Point(0.0, 0.0))
  }

  predicate TriangleSides(segs: seq<Segment>)
  {
    && |segs| == 3
    && segs[0] == (Point(0.0, 0.0), Point(1.0, 0.0))
    && segs[1] == (Point(1.0, 0.0), Point(0.0, 1.0))
    && segs[2] == (Point(0.0, 1.0), Point(0.0, 0.0))
  }

  /** test_vertex_iteration, test_edge_iteration and test_edge_vertices_iteration. */
  lemma SquareBoundary()
    ensures Indexed(4, Square()) && Walkable(Square(), RingFace())
    ensures VertexCount(Square(), RingFace()) == 4
    ensures BoundaryVertices(Square(), RingFace()) == [0, 1, 2, 3]
    ensures EdgeVertices(4, Square(), RingFace()) == [(0, 1), (1, 2), (2, 3), (3, 0)]
    ensures SquareSides(Segments(SquareVertices(), Square(), RingFace()))
  {
    SquareWalk();
    assert EdgeVertices(4, Square(), RingFace()) == [(0, 1), (1, 2), (2, 3), (3, 0)];
  }

  /** test_edge_iteration: along the square's boundary each half-edge's next is the following
      one and its prev the preceding one. */
  lemma SquareCycle()
    ensures Indexed(4, Square()) && Walkable(Square(), RingFace())
    ensures forall i :: 0 <= i < 4 ==>
      var es := Edges(Square(), RingFace());
      Square()[es[i]].next == Some(es[(i + 1) % 4]) && Square()[es[i]].prev == Some(es[(i + 3) % 4])
  {
    SquareWalk();
  }

  lemma TriangleBoundary()
    ensures Indexed(3, Triangle()) && Walkable(Triangle(), RingFace())
    ensures VertexCount(Triangle(), RingFace()) == 3
    ensures TriangleSides(Segments(TriangleVertices(), Triangle(), RingFace()))
  {
    TriangleWalk();
    assert EdgeVertices(3, Triangle(), RingFace()) == [(0, 1), (1, 2), (2, 0)];
  }

  /** The recursive sums over three and four sides, written out. */
  lemma ShoelaceOfThree(segs: seq<Segment>)
    requires |segs| == 3
    ensures Shoelace(segs) == Cross(segs[0].0, segs[0].1) + Cross(segs[1].0, segs[1].1) + Cross(segs[2].0, segs[2].1)
  {
    assert segs[..0] == [] && segs[..3] == segs;
    ShoelaceStep(segs, 0);
    ShoelaceStep(segs, 1);
    ShoelaceStep(segs, 2);
  }

  lemma ShoelaceOfFour(segs: seq<Segment>)
    requires |segs| == 4
    ensures Shoelace(segs) == Cross(segs[0].0, segs[0].1) + Cross(segs[1].0, segs[1].1) + Cross(segs[2].0, segs[2].1) + Cross(segs[3].0, segs[3].1)
  {
    assert segs[..0] == [] && segs[..4] == segs;
    ShoelaceStep(segs, 0);
    ShoelaceStep(segs, 1);
    ShoelaceStep(segs, 2);
    ShoelaceStep(segs, 3);
  }

  lemma CentroidSumsOfFour(segs: seq<Segment>)
    requires |segs| == 4
    ensures CentroidSums(segs).0 == MomentX(segs[0]) + MomentX(segs[1]) + MomentX(segs[2]) + MomentX(segs[3])
    ensures CentroidSums(segs).1 == MomentY(segs[0]) + MomentY(segs[1]) + MomentY(segs[2]) + MomentY(segs[3])
  {
    assert segs[..0] == [] && segs[..4] == segs;
    CentroidSumsStep(segs, 0);
    CentroidSumsStep(segs, 1);
    CentroidSumsStep(segs, 2);
    CentroidSumsStep(segs, 3);
  }

  lemma CentroidSumsOfSides(s0: Segment, s1: Segment, s2: Segment, s3: Segment)
    ensures CentroidSums([s0, s1, s2, s3])
            == (MomentX(s0) + MomentX(s1) + MomentX(s2) + MomentX(s3), MomentY(s0) + MomentY(s1) + MomentY(s2) + MomentY(s3))
  {
    CentroidSumsOfFour([s0, s1, s2, s3]);
  }

  lemma WindingOfFour(segs: seq<Segment>, p: Point)
    requires |segs| == 4
    ensures Winding(segs, p)
            == Crossing(segs[0].0, segs[0].1, p) + Crossing(segs[1].0, segs[1].1, p)
             + Crossing(segs[2].0, segs[2].1, p) + Crossing(segs[3].0, segs[3].1, p)
  {
    assert segs[..0] == [] && segs[..4] == segs;
    WindingStep(segs, 0, p);
    WindingStep(segs, 1, p);
    WindingStep(segs, 2, p);
    WindingStep(segs, 3, p);
  }

  /** The shoelace sum of the square's sides. */
  lemma SquareShoelace(segs: seq<Segment>)
    requires SquareSides(segs)
    ensures Shoelace(segs) == 2.0
  {
    ShoelaceOfFour(segs);
  }

  /** The centroid sums of the square's sides: only the right and top sides contribute. */
  lemma SquareCentroidSums(segs: seq<Segment>)
    requires SquareSides(segs)
    ensures CentroidSums(segs) == (3.0, 3.0)
  {
    var p0, p1, p2, p3 := Point(0.0, 0.0), Point(1.0, 0.0), Point(1.0, 1.0), Point(0.0, 1.0);
    assert segs == [(p0, p1), (p1, p2), (p2, p3), (p3, p0)];
    CentroidSumsOfSides((Point(0.0, 0.0), Point(1.0, 0.0)), (Point(1.0, 0.0), Point(1.0, 1.0)),
                        (Point(1.0, 1.0), Point(0.0, 1.0)), (Point(0.0, 1.0), Point(0.0, 0.0)));
  }

  /** test_square_properties: area 1. */
  lemma SquareArea()
    ensures Indexed(4, Square()) && Walkable(Square(), RingFace())
    ensures Area(SquareVertices(), Square(), RingFace()) == 1.0
  {
    SquareBoundary();
    SquareShoelace(Segments(SquareVertices(), Square(), RingFace()));
  }

  /** test_square_properties: centroid (0.5, 0.5). */
  lemma SquareCentroid()
    ensures Indexed(4, Square()) && Walkable(Square(), RingFace())
    ensures Centroid(SquareVertices(), Square(), RingFace()) == Success(Point(0.5, 0.5))
  {
    SquareBoundary();
    SquareSidesCentroid(Segments(SquareVertices(), Square(), RingFace()));
  }

  /** The centroid of the square's sides: sums (3, 3) over six times the area 1. */
  lemma SquareSidesCentroid(segs: seq<Segment>)
    requires SquareSides(segs)
    ensures PolygonCentroid(segs) == Success(Point(0.5, 0.5))
  {
    SquareShoelace(segs);
    SquareCentroidSums(segs);
    assert Abs(Shoelace(segs)) / 2.0 == 1.0;
    SquareCentroidPoint();
  }

  lemma SquareCentroidPoint()
    ensures CentroidPoint((3.0, 3.0), 1.0) == Point(0.5, 0.5)
  {
  }

  /** The unit square walked the other way round, v0, v3, v2, v1: the order in which the
      face build_dcel creates for the unit square yields its corners. */
  function ClockwiseSquare(): seq<HalfEdge>
  {
    [HalfEdge(0, None, Some(0), Some(1), Some(3), 3), HalfEdge(3, None, Some(0), Some(2), Some(0), 2),
     HalfEdge(2, None, Some(0), Some(3), Some(1), 1), HalfEdge(1, None, Some(0), Some(0), Some(2), 0)]
  }

  lemma ClockwiseSquareWalk()
    ensures Indexed(4, ClockwiseSquare()) && Walkable(ClockwiseSquare(), RingFace())
    ensures Edges(ClockwiseSquare(), RingFace()) == [0, 1, 2, 3]
  {
    RingWalk(ClockwiseSquare());
  }

  /** The square's sides, each run the other way, in the opposite order. */
  predicate ClockwiseSides(segs: seq<Segment>)
  {
    && |segs| == 4
    && segs[0] == (Point(0.0, 0.0), Point(0.0, 1.0))
    && segs[1] == (Point(0.0, 1.0), Point(1.0, 1.0))
    && segs[2] == (Point(1.0, 1.0), Point(1.0, 0.0))
    && segs[3] == (Point(1.0, 0.0), Point(0.0, 0.0))
  }

  lemma ClockwiseSquareBoundary()
    ensures Indexed(4, ClockwiseSquare()) && Walkable(ClockwiseSquare(), RingFace())
    ensures BoundaryVertices(ClockwiseSquare(), RingFace()) == [0, 3, 2, 1]
    ensures ClockwiseSides(Segments(SquareVertices(), ClockwiseSquare(), RingFace()))
  {
    ClockwiseSquareWalk();
    assert EdgeVertices(4, ClockwiseSquare(), RingFace()) == [(0, 3), (3, 2), (2, 1), (1, 0)];
  }

  /** Reversing the square's sides gives the clockwise sides. */
  lemma ReversedSquareSides(segs: seq<Segment>, rev: seq<Segment>)
    requires SquareSides(segs) && ClockwiseSides(rev)
    ensures rev == Reversed(segs)
  {
    var r := Reversed(segs);
    assert r[0] == rev[0] && r[1] == rev[1] && r[2] == rev[2] && r[3] == rev[3];
  }

  /** Face.centroid divides the signed sums by the unsigned area: the clockwise unit square
      gets (-0.5, -0.5), the negation of its centre of mass. */
  lemma ClockwiseSquareCentroid()
    ensures Indexed(4, ClockwiseSquare()) && Walkable(ClockwiseSquare(), RingFace())
    ensures Area(SquareVertices(), ClockwiseSquare(), RingFace()) == 1.0
    ensures Centroid(SquareVertices(), ClockwiseSquare(), RingFace()) == Success(Point(-0.5, -0.5))
  {
    ClockwiseSquareBoundary();
    SquareBoundary();
    ReversedSquareSides(Segments(SquareVertices(), Square(), RingFace()), Segments(SquareVertices(), ClockwiseSquare(), RingFace()));
    SquareCentroid();
    SquareArea();
    CentroidReversed(SquareVertices(), Square(), RingFace(), SquareVertices(), ClockwiseSquare(), RingFace());
  }

  lemma TriangleSums(segs: seq<Segment>)
    requires TriangleSides(segs)
    ensures Shoelace(segs) == 1.0
  {
    ShoelaceOfThree(segs);
    assert Cross(segs[0].0, segs[0].1) == 0.0 && Cross(segs[1].0, segs[1].1) == 1.0 && Cross(segs[2].0, segs[2].1) == 0.0;
  }

  /** test_triangle_properties: area 0.5. */
  lemma TriangleMeasures()
    ensures Indexed(3, Triangle()) && Walkable(Triangle(), RingFace())
    ensures Area(TriangleVertices(), Triangle(), RingFace()) == 0.5
  {
    TriangleBoundary();
    TriangleSums(Segments(TriangleVertices(), Triangle(), RingFace()));
  }

  /** The square's sides wind once round the centre: only the right-hand side crosses the
      centre's height upwards with the centre on its left. */
  lemma SquareWindsRoundCentre(segs: seq<Segment>)
    requires SquareSides(segs)
    ensures Winding(segs, Point(0.5, 0.5)) == 1
  {
    var c := Point(0.5, 0.5);
    WindingOfFour(segs, c);
    assert Crossing(segs[0].0, segs[0].1, c) == 0;
    assert SignedArea(segs[1].0, segs[1].1, c) == 0.5;
    assert Crossing(segs[1].0, segs[1].1, c) == 1;
    assert Crossing(segs[2].0, segs[2].1, c) == 0;
    assert SignedArea(segs[3].0, segs[3].1, c) == 0.5;
    assert Crossing(segs[3].0, segs[3].1, c) == 0;
  }

  /** Two points off the square: off every side, and with winding number 0. */
  lemma SquareMisses(segs: seq<Segment>, p: Point)
    requires SquareSides(segs)
    requires p == Point(2.0, 2.0) || p == Point(0.5, -0.1)
    ensures !InsideSegments(segs, p)
  {
    WindingOutsideBand(segs, p);
    forall i | 0 <= i < 4
      ensures !(p == segs[i].0 || p == segs[i].1 || PointOnEdge(p, segs[i].0, segs[i].1))
    {
      assert !(Min(segs[i].0.y, segs[i].1.y) <= p.y <= Max(segs[i].0.y, segs[i].1.y));
    }
  }

  /** test_point_inside, the points inside: the centre, a corner, an edge midpoint and the
      opposite corner. */
  lemma SquareContainment()
    ensures Indexed(4, Square()) && Walkable(Square(), RingFace())
    ensures IsInside(SquareVertices(), Square(), RingFace(), Point(0.5, 0.5))
    ensures IsInside(SquareVertices(), Square(), RingFace(), Point(0.0, 0.0))
    ensures IsInside(SquareVertices(), Square(), RingFace(), Point(0.5, 0.0))
    ensures IsInside(SquareVertices(), Square(), RingFace(), Point(1.0, 1.0))
  {
    SquareBoundary();
    var segs := Segments(SquareVertices(), Square(), RingFace());
    SquareWindsRoundCentre(segs);
    SquareBoundaryPoints(segs);
  }

  /** A corner at each end of the square's diagonal, and the midpoint of its first side, lie on
      its boundary. */
  lemma SquareBoundaryPoints(segs: seq<Segment>)
    requires SquareSides(segs)
    ensures InsideSegments(segs, Point(0.0, 0.0))
    ensures InsideSegments(segs, Point(0.5, 0.0))
    ensures InsideSegments(segs, Point(1.0, 1.0))
  {
    assert segs[0].0 == Point(0.0, 0.0);
    assert segs[1].1 == Point(1.0, 1.0);
    PointOnAxisEdge(Point(0.5, 0.0), segs[0].0, segs[0].1);
    assert PointOnEdge(Point(0.5, 0.0), segs[0].0, segs[0].1);
  }

  /** test_point_inside, the points outside: (2, 2) and (0.5, -0.1). */
  lemma SquareExclusion()
    ensures Indexed(4, Square()) && Walkable(Square(), RingFace())
    ensures !IsInside(SquareVertices(), Square(), RingFace(), Point(2.0, 2.0))
    ensures !IsInside(SquareVertices(), Square(), RingFace(), Point(0.5, -0.1))
  {
    SquareBoundary();
    var segs := Segments(SquareVertices(), Square(), RingFace());
    SquareMisses(segs, Point(2.0, 2.0));
    SquareMisses(segs, Point(0.5, -0.1));
  }

  /** test_empty_face: a new face has no boundary, area 0, no vertices and no centroid. */
  lemma EmptyFace(vs: seq<Vertex>, hs: seq<HalfEdge>)
    requires Indexed(|vs|, hs)
    ensures var f := NewFace();
            && Walkable(hs, f) && !f.external
            && Area(vs, hs, f) == 0.0 && VertexCount(hs, f) == 0
            && Centroid(vs, hs, f) == Failure(NoEdges)
  {
  }

  /** test_basic_properties: a lone half-edge ends at the vertex it was created with. */
  lemma LoneHalfEdge()
    ensures Indexed(2, [NewHalfEdge(0, 1)]) && Destination(2, [NewHalfEdge(0, 1)], 0) == 1
  {
  }
}
