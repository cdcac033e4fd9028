/** Half-edges and faces (pydcel/dcel/primitives.py) over an arena: a half-edge refers to
    vertices and to other half-edges by their index in the owning sequences. */
module Primitives {
  import opened Wrappers
  import opened Points
  import opened Utils
  import opened Vertices

  /** One direction of an edge. `givenDestination` is the vertex passed at creation, which
      the destination falls back to while no twin is set. */
  datatype HalfEdge = HalfEdge(
    origin: nat,
    twin: Option<nat>,
    face: Option<nat>,
    next: Option<nat>,
    prev: Option<nat>,
    givenDestination: nat)

  /** A face is known by one half-edge of its boundary, `wedge`; an empty face has none. */
  datatype Face = Face(wedge: Option<nat>, external: bool)

  datatype FaceError = NoEdges | ZeroArea

  /** A new half-edge from v1 to v2, not yet linked to anything. */
  function NewHalfEdge(v1: nat, v2: nat): (e: HalfEdge)
    ensures e.origin == v1 && e.givenDestination == v2
    ensures e.twin.None? && e.face.None? && e.next.None? && e.prev.None?
  {
    HalfEdge(v1, None, None, None, None, v2)
  }

  function NewFace(): (f: Face)
    ensures f.wedge.None? && !f.external
  {
    Face(None, false)
  }

  predicate NextInRange(hs: seq<HalfEdge>)
  {
    forall h :: 0 <= h < |hs| ==> hs[h].next.Some? ==> hs[h].next.value < |hs|
  }

  /** Every index stored in a half-edge refers to an existing vertex or half-edge. */
  predicate Indexed(nv: nat, hs: seq<HalfEdge>)
  {
    && NextInRange(hs)
    && (forall h :: 0 <= h < |hs| ==> hs[h].origin < nv && hs[h].givenDestination < nv)
    && (forall h :: 0 <= h < |hs| ==> hs[h].twin.Some? ==> hs[h].twin.value < |hs|)
    && (forall h :: 0 <= h < |hs| ==> hs[h].prev.Some? ==> hs[h].prev.value < |hs|)
  }

  /** The destination is the twin's origin once a twin is set, and the vertex given at
      creation before that. */
  function Destination(nv: nat, hs: seq<HalfEdge>, h: nat): (v: nat)
    requires Indexed(nv, hs) && h < |hs|
    ensures v < nv
    ensures hs[h].twin.None? ==> v == hs[h].givenDestination
    ensures hs[h].twin.Some? ==> v == hs[hs[h].twin.value].origin
  {
    match hs[h].twin
    case Some(t) => hs[t].origin
    case None => hs[h].givenDestination
  }

  /** 2π as the double Python's `2 * math.pi` evaluates to. */
  const TwoPi: real := 6.283185307179586

  /** HalfEdge.angle: the direction from a to b, from atan2 moved into [0, 2π). atan2 is a
      parameter: its value is not modelled. */
  function Angle(a: Point, b: Point, atan2: (real, real) -> real): (r: real)
  {
    var angle := atan2(b.y - a.y, b.x - a.x);
    if angle >= 0.0 then angle else angle + TwoPi
  }

  /** With atan2 in (-π, π], as math.atan2 returns it, the angle lies in [0, 2π). */
  lemma AngleInTurn(a: Point, b: Point, atan2: (real, real) -> real)
    requires -TwoPi / 2.0 < atan2(b.y - a.y, b.x - a.x) <= TwoPi / 2.0
    ensures 0.0 <= Angle(a, b, atan2) < TwoPi
  {
  }

  /** The midpoint of a half-edge. */
  function Midpoint(vs: seq<Vertex>, hs: seq<HalfEdge>, h: nat): (m: Point)
    requires Indexed(|vs|, hs) && h < |hs|
  {
    var a := vs[hs[h].origin].point;
    var b := vs[Destination(|vs|, hs, h)].point;
    Point((a.x + b.x) / 2.0, (a.y + b.y) / 2.0)
  }

  /** The midpoint lies halfway: it is as far from the origin as from the destination. */
  lemma MidpointHalfway(vs: seq<Vertex>, hs: seq<HalfEdge>, h: nat)
    requires Indexed(|vs|, hs) && h < |hs|
    ensures var m := Midpoint(vs, hs, h);
            var a := vs[hs[h].origin].point;
            var b := vs[Destination(|vs|, hs, h)].point;
            m.x - a.x == b.x - m.x && m.y - a.y == b.y - m.y
  {
  }

  // ---------------------------------------------------------------------------
  // The boundary walk
  // ---------------------------------------------------------------------------

  /** The walk along `next` from cur, stopping before start recurs, at a missing `next`,
      or after fuel entries. */
  function Trace(hs: seq<HalfEdge>, start: nat, cur: nat, fuel: nat): (r: seq<nat>)
    requires NextInRange(hs) && cur < |hs|
    ensures |r| <= fuel
    ensures fuel > 0 ==> |r| > 0 && r[0] == cur
    ensures forall i :: 0 <= i < |r| ==> r[i] < |hs|
    ensures forall i :: 0 <= i < |r| - 1 ==> hs[r[i]].next == Some(r[i + 1])
    ensures forall i :: 0 < i < |r| ==> r[i] != start
    decreases fuel
  {
    if fuel == 0 then []
    else
      match hs[cur].next
      case Some(n) => if n == start then [cur] else [cur] + Trace(hs, start, n, fuel - 1)
      case None => [cur]
  }

  /** The walk from s comes back to s: the loops of `vertices` and `edges` end. A walk that
      returns at all does so within |hs| steps, since its entries are distinct. */
  predicate Closes(hs: seq<HalfEdge>, s: nat)
  {
    && NextInRange(hs) && s < |hs|
    && var w := Trace(hs, s, s, |hs|);
       hs[w[|w| - 1]].next == Some(s)
  }

  /** The queries below need the walk from `wedge` to come back to it. */
  predicate Walkable(hs: seq<HalfEdge>, f: Face)
  {
    f.wedge.Some? ==> Closes(hs, f.wedge.value)
  }

  ghost predicate Distinct(s: seq<nat>)
  {
    forall i, j :: 0 <= i < j < |s| ==> s[i] != s[j]
  }

  /** If a walk repeats w[i] at j, it repeats the end at i + |w| - 1 - j, so it was back at
      its start i + |w| - j steps in. */
  lemma {:induction false} RepeatReturnsEarly(hs: seq<HalfEdge>, w: seq<nat>, i: nat, j: nat)
    requires forall k :: 0 <= k < |w| ==> w[k] < |hs|
    requires forall k :: 0 <= k < |w| - 1 ==> hs[w[k]].next == Some(w[k + 1])
    requires |w| > 0 && hs[w[|w| - 1]].next == Some(w[0])
    requires i < j < |w| && w[i] == w[j]
    ensures w[i + |w| - j] == w[0]
    decreases |w| - j
  {
    if j < |w| - 1 {
      RepeatReturnsEarly(hs, w, i + 1, j + 1);
    }
  }

  /** A walk that first comes back to its start at the end visits no half-edge twice. */
  lemma ClosedWalkDistinct(hs: seq<HalfEdge>, w: seq<nat>)
    requires |w| > 0
    requires forall k :: 0 <= k < |w| ==> w[k] < |hs|
    requires forall k :: 0 <= k < |w| - 1 ==> hs[w[k]].next == Some(w[k + 1])
    requires hs[w[|w| - 1]].next == Some(w[0])
    requires forall k :: 0 < k < |w| ==> w[k] != w[0]
    ensures Distinct(w)
  {
    forall i, j | 0 <= i < j < |w| ensures w[i] != w[j] {
      if w[i] == w[j] {
        RepeatReturnsEarly(hs, w, i, j);
      }
    }
  }

  /** The half-edges of the face, from `wedge` on (Face.edges). */
  function Edges(hs: seq<HalfEdge>, f: Face): (r: seq<nat>)
    requires Walkable(hs, f)
    ensures f.wedge.None? ==> r == []
    ensures f.wedge.Some? ==> |r| > 0 && r[0] == f.wedge.value
    ensures forall i :: 0 <= i < |r| ==> r[i] < |hs|
    ensures forall i :: 0 <= i < |r| - 1 ==> hs[r[i]].next == Some(r[i + 1])
    ensures |r| > 0 ==> hs[r[|r| - 1]].next == Some(r[0])
    ensures forall i :: 0 < i < |r| ==> r[i] != r[0]
  {
    match f.wedge
    case None => []
    case Some(w) => Trace(hs, w, w, |hs|)
  }

  /** Each half-edge of the boundary cycle is listed once. */
  lemma EdgesDistinct(hs: seq<HalfEdge>, f: Face)
    requires Walkable(hs, f)
    ensures Distinct(Edges(hs, f))
  {
    var r := Edges(hs, f);
    if |r| > 0 {
      ClosedWalkDistinct(hs, r);
    }
  }

  /** `next` applied k times from h, while it is defined. */
  function NextPow(hs: seq<HalfEdge>, h: nat, k: nat): Option<nat>
    requires NextInRange(hs) && h < |hs|
  {
    if k == 0 then Some(h)
    else match NextPow(hs, h, k - 1)
      case Some(c) => if c < |hs| then hs[c].next else None
      case None => None
  }

  /** Walking `next` from `wedge` reaches the i-th boundary half-edge after i steps and is
      back at `wedge` after exactly VertexCount steps, and not before. */
  lemma {:induction false} WalkReturns(hs: seq<HalfEdge>, f: Face, i: nat)
    requires Walkable(hs, f) && f.wedge.Some? && i <= |Edges(hs, f)|
    ensures NextPow(hs, f.wedge.value, i) == Some(if i < |Edges(hs, f)| then Edges(hs, f)[i] else f.wedge.value)
    ensures 0 < i < |Edges(hs, f)| ==> NextPow(hs, f.wedge.value, i) != Some(f.wedge.value)
  {
    if i > 0 {
      WalkReturns(hs, f, i - 1);
    }
  }

  /** A walk from s that follows `next`, visits no half-edge twice and comes back to s is
      the walk Trace takes from s: the boundary cycle a face anchored at s lists. */
  lemma TraceOfCycle(hs: seq<HalfEdge>, w: seq<nat>)
    requires NextInRange(hs) && |w| > 0 && Distinct(w)
    requires forall k :: 0 <= k < |w| ==> w[k] < |hs|
    requires forall k :: 0 <= k < |w| - 1 ==> hs[w[k]].next == Some(w[k + 1])
    requires hs[w[|w| - 1]].next == Some(w[0])
    ensures Closes(hs, w[0]) && Trace(hs, w[0], w[0], |hs|) == w
  {
    assert |w| <= |hs| by { DistinctBelow(w, |hs|); }
    assert Trace(hs, w[0], w[0], |hs|) == w by {
      TraceFollows(hs, w, 0, |hs|);
      assert w[0..] == w;
    }
    ClosesOfCycle(hs, w);
  }

  lemma ClosesOfCycle(hs: seq<HalfEdge>, w: seq<nat>)
    requires NextInRange(hs) && |w| > 0 && w[0] < |hs|
    requires Trace(hs, w[0], w[0], |hs|) == w
    requires hs[w[|w| - 1]].next == Some(w[0])
    ensures Closes(hs, w[0])
  {
  }

  lemma {:induction false} TraceFollows(hs: seq<HalfEdge>, w: seq<nat>, i: nat, fuel: nat)
    requires NextInRange(hs) && Distinct(w) && i < |w| && |w| - i <= fuel
    requires forall k :: 0 <= k < |w| ==> w[k] < |hs|
    requires forall k :: 0 <= k < |w| - 1 ==> hs[w[k]].next == Some(w[k + 1])
    requires hs[w[|w| - 1]].next == Some(w[0])
    ensures Trace(hs, w[0], w[i], fuel) == w[i..]
    decreases |w| - i
  {
    if i < |w| - 1 {
      assert w[i + 1] != w[0];
      assert hs[w[i]].next == Some(w[i + 1]);
      assert Trace(hs, w[0], w[i], fuel) == [w[i]] + Trace(hs, w[0], w[i + 1], fuel - 1);
      TraceFollows(hs, w, i + 1, fuel - 1);
      assert w[i..] == [w[i]] + w[i + 1..];
    } else {
      assert Trace(hs, w[0], w[i], fuel) == [w[i]];
      assert w[i..] == [w[i]];
    }
  }

  /** A list of distinct indices below n has at most n entries. */
  lemma DistinctBelow(w: seq<nat>, n: nat)
    requires Distinct(w) && forall k :: 0 <= k < |w| ==> w[k] < n
    ensures |w| <= n
  {
    DistinctWithin(w, Below(n));
  }

  /** The indices below n. */
  ghost function Below(n: nat): (r: set<nat>)
    ensures |r| == n && forall g: nat :: g in r <==> g < n
  {
    if n == 0 then {} else Below(n - 1) + {n - 1}
  }

  lemma {:induction false} DistinctWithin(w: seq<nat>, s: set<nat>)
    requires Distinct(w) && forall k :: 0 <= k < |w| ==> w[k] in s
    ensures |w| <= |s|
  {
    if w != [] {
      var x := w[|w| - 1];
      DistinctWithin(w[..|w| - 1], s - {x});
    }
  }

  /** The walk reads only `next`: two arenas with the same links have the same walks. */
  lemma {:induction false} TraceSameLinks(hs: seq<HalfEdge>, gs: seq<HalfEdge>, start: nat, cur: nat, fuel: nat)
    requires NextInRange(hs) && cur < |hs| && |gs| == |hs|
    requires forall h :: 0 <= h < |hs| ==> gs[h].next == hs[h].next
    ensures NextInRange(gs) && Trace(gs, start, cur, fuel) == Trace(hs, start, cur, fuel)
    decreases fuel
  {
    if fuel > 0 && hs[cur].next.Some? && hs[cur].next.value != start {
      TraceSameLinks(hs, gs, start, hs[cur].next.value, fuel - 1);
    }
  }

  /** So the faces over them are the same. */
  lemma EdgesSameLinks(hs: seq<HalfEdge>, gs: seq<HalfEdge>, f: Face)
    requires Walkable(hs, f) && NextInRange(hs) && |gs| == |hs|
    requires forall h :: 0 <= h < |hs| ==> gs[h].next == hs[h].next
    ensures Walkable(gs, f) && Edges(gs, f) == Edges(hs, f)
  {
    if f.wedge.Some? {
      TraceSameLinks(hs, gs, f.wedge.value, f.wedge.value, |hs|);
    }
  }

  /** The origins of the boundary half-edges, in walk order (Face.vertices). */
  function BoundaryVertices(hs: seq<HalfEdge>, f: Face): (r: seq<nat>)
    requires Walkable(hs, f)
    ensures |r| == |Edges(hs, f)|
    ensures forall i :: 0 <= i < |r| ==> r[i] == hs[Edges(hs, f)[i]].origin
  {
    var es := Edges(hs, f);
    seq(|es|, i requires 0 <= i < |es| => hs[es[i]].origin)
  }

  /** (origin, destination) of each boundary half-edge, in walk order (Face.edge_vertices). */
  function EdgeVertices(nv: nat, hs: seq<HalfEdge>, f: Face): (r: seq<(nat, nat)>)
    requires Indexed(nv, hs) && Walkable(hs, f)
    ensures |r| == |Edges(hs, f)|
    ensures forall i :: 0 <= i < |r| ==> r[i] == (hs[Edges(hs, f)[i]].origin, Destination(nv, hs, Edges(hs, f)[i]))
  {
    var es := Edges(hs, f);
    seq(|es|, i requires 0 <= i < |es| => (hs[es[i]].origin, Destination(nv, hs, es[i])))
  }

  /** Face.vertex_count: the length of the boundary cycle. */
  function VertexCount(hs: seq<HalfEdge>, f: Face): (n: nat)
    requires Walkable(hs, f)
    ensures n == |Edges(hs, f)|
    ensures f.wedge.None? <==> n == 0
  {
    |BoundaryVertices(hs, f)|
  }

  // ---------------------------------------------------------------------------
  // Geometry of a face
  // ---------------------------------------------------------------------------

  type Segment = (Point, Point)

  /** The boundary as directed segments between vertex locations. */
  function Segments(vs: seq<Vertex>, hs: seq<HalfEdge>, f: Face): (r: seq<Segment>)
    requires Indexed(|vs|, hs) && Walkable(hs, f)
    ensures |r| == |Edges(hs, f)|
  {
    var ev := EdgeVertices(|vs|, hs, f);
    seq(|ev|, i requires 0 <= i < |ev| => (vs[ev[i].0].point, vs[ev[i].1].point))
  }

  function Cross(a: Point, b: Point): real
  {
    a.x * b.y - b.x * a.y
  }

  /** The shoelace sum, accumulated from the first segment to the last. */
  function Shoelace(segs: seq<Segment>): real
  {
    if segs == [] then 0.0
    else Shoelace(segs[..|segs| - 1]) + Cross(segs[|segs| - 1].0, segs[|segs| - 1].1)
  }

  /** One more segment adds its cross product to the shoelace sum. */
  lemma ShoelaceStep(segs: seq<Segment>, i: nat)
    requires i < |segs|
    ensures Shoelace(segs[..i + 1]) == Shoelace(segs[..i]) + Cross(segs[i].0, segs[i].1)
  {
    var t := segs[..i + 1];
    assert t[..|t| - 1] == segs[..i];
    assert t[|t| - 1] == segs[i];
  }

  function Abs(r: real): (a: real)
    ensures a >= 0.0 && (a == r || a == -r)
  {
    if r < 0.0 then -r else r
  }

  /** Face.area: half the absolute shoelace sum, 0 for an empty face. */
  function Area(vs: seq<Vertex>, hs: seq<HalfEdge>, f: Face): (a: real)
    requires Indexed(|vs|, hs) && Walkable(hs, f)
    ensures a >= 0.0
    ensures f.wedge.None? ==> a == 0.0
  {
    if f.wedge.None? then 0.0 else Abs(Shoelace(Segments(vs, hs, f))) / 2.0
  }

  /** The segments traversed the other way round. */
  function Reversed(segs: seq<Segment>): (r: seq<Segment>)
    ensures |r| == |segs|
    ensures forall i :: 0 <= i < |r| ==> r[i] == (segs[|segs| - 1 - i].1, segs[|segs| - 1 - i].0)
  {
    if segs == [] then [] else [(segs[|segs| - 1].1, segs[|segs| - 1].0)] + Reversed(segs[..|segs| - 1])
  }

  lemma {:induction false} ShoelaceAppend(a: seq<Segment>, b: seq<Segment>)
    ensures Shoelace(a + b) == Shoelace(a) + Shoelace(b)
  {
    if b != [] {
      assert (a + b)[..|a + b| - 1] == a + b[..|b| - 1];
      assert (a + b)[|a + b| - 1] == b[|b| - 1];
      ShoelaceAppend(a, b[..|b| - 1]);
    } else {
      assert a + b == a;
    }
  }

  /** Reversing the orientation negates the shoelace sum, so the area is unchanged. */
  lemma {:induction false} ShoelaceReversed(segs: seq<Segment>)
    ensures Shoelace(Reversed(segs)) == -Shoelace(segs)
    ensures Abs(Shoelace(Reversed(segs))) == Abs(Shoelace(segs))
  {
    if segs != [] {
      var last := segs[|segs| - 1];
      ShoelaceReversed(segs[..|segs| - 1]);
      ShoelaceAppend([(last.1, last.0)], Reversed(segs[..|segs| - 1]));
      assert [(last.1, last.0)][..0] == [];
    }
  }

  /** The x and y sums of the centroid formula. */
  function CentroidSums(segs: seq<Segment>): (real, real)
  {
    if segs == [] then (0.0, 0.0)
    else
      var sums := CentroidSums(segs[..|segs| - 1]);
      var seg := segs[|segs| - 1];
      (sums.0 + MomentX(seg), sums.1 + MomentY(seg))
  }

  /** A segment's terms of the centroid sums: the sum of its end coordinates times its cross product. */
  function MomentX(seg: Segment): real
  {
    (seg.0.x + seg.1.x) * Cross(seg.0, seg.1)
  }

  function MomentY(seg: Segment): real
  {
    (seg.0.y + seg.1.y) * Cross(seg.0, seg.1)
  }

  /** One more segment adds its own terms to the centroid sums. */
  lemma CentroidSumsStep(segs: seq<Segment>, i: nat)
    requires i < |segs|
    ensures CentroidSums(segs[..i + 1])
            == (CentroidSums(segs[..i]).0 + MomentX(segs[i]), CentroidSums(segs[..i]).1 + MomentY(segs[i]))
  {
    var t := segs[..i + 1];
    assert t[..|t| - 1] == segs[..i];
    assert t[|t| - 1] == segs[i];
  }

  lemma {:induction false} CentroidSumsAppend(a: seq<Segment>, b: seq<Segment>)
    ensures CentroidSums(a + b) == (CentroidSums(a).0 + CentroidSums(b).0, CentroidSums(a).1 + CentroidSums(b).1)
  {
    if b != [] {
      assert (a + b)[..|a + b| - 1] == a + b[..|b| - 1];
      assert (a + b)[|a + b| - 1] == b[|b| - 1];
      CentroidSumsAppend(a, b[..|b| - 1]);
    } else {
      assert a + b == a;
    }
  }

  /** A segment traversed the other way contributes the opposite moments. */
  lemma MomentsReversed(seg: Segment)
    ensures MomentX((seg.1, seg.0)) == -MomentX(seg) && MomentY((seg.1, seg.0)) == -MomentY(seg)
  {
    assert Cross(seg.1, seg.0) == -Cross(seg.0, seg.1);
  }

  /** Reversing the orientation negates both centroid sums. */
  lemma {:induction false} CentroidSumsReversed(segs: seq<Segment>)
    ensures CentroidSums(Reversed(segs)) == (-CentroidSums(segs).0, -CentroidSums(segs).1)
  {
    if segs != [] {
      var last := segs[|segs| - 1];
      var head: seq<Segment> := [(last.1, last.0)];
      CentroidSumsReversed(segs[..|segs| - 1]);
      CentroidSumsAppend(head, Reversed(segs[..|segs| - 1]));
      assert head[..0] == [];
      MomentsReversed(last);
    }
  }

  /** Face.centroid: fails on a face without boundary, then on a face of zero area. */
  function Centroid(vs: seq<Vertex>, hs: seq<HalfEdge>, f: Face): (r: Result<Point, FaceError>)
    requires Indexed(|vs|, hs) && Walkable(hs, f)
    ensures r == Failure(NoEdges) <==> f.wedge.None?
    ensures r == Failure(ZeroArea) <==> f.wedge.Some? && Area(vs, hs, f) == 0.0
    ensures r.Success? <==> Area(vs, hs, f) != 0.0
  {
    if f.wedge.None? then Failure(NoEdges) else PolygonCentroid(Segments(vs, hs, f))
  }

  /** The centroid of a non-empty boundary: the centroid sums over six times the unsigned
      area, or ZeroArea when the area is zero. */
  function PolygonCentroid(segs: seq<Segment>): (r: Result<Point, FaceError>)
    ensures r.Failure? ==> r.error == ZeroArea
    ensures r.Success? <==> Abs(Shoelace(segs)) / 2.0 != 0.0
  {
    var area := Abs(Shoelace(segs)) / 2.0;
    if area == 0.0 then Failure(ZeroArea) else Success(CentroidPoint(CentroidSums(segs), area))
  }

  /** The centroid sums scaled by 1 / (6 * area). */
  function CentroidPoint(sums: (real, real), area: real): Point
    requires area != 0.0
  {
    var factor := 1.0 / (6.0 * area);
    Point(sums.0 * factor, sums.1 * factor)
  }

  /** Negating both sums negates the point. */
  lemma CentroidPointNegated(sums: (real, real), area: real)
    requires area != 0.0
    ensures CentroidPoint((-sums.0, -sums.1), area) == Point(-CentroidPoint(sums, area).x, -CentroidPoint(sums, area).y)
  {
    var k := 1.0 / (6.0 * area);
    NegatedScale(sums.0 * k, (-sums.0) * k, sums.0, -sums.0, k, k);
    NegatedScale(sums.1 * k, (-sums.1) * k, sums.1, -sums.1, k, k);
  }

  /** The centroid divides the signed centroid sums by the unsigned area, so a boundary run
      the other way round gets the negated centroid: only one of the two orientations gets
      the centre of mass. */
  lemma PolygonCentroidReversed(segs: seq<Segment>)
    ensures PolygonCentroid(Reversed(segs)).Success? <==> PolygonCentroid(segs).Success?
    ensures PolygonCentroid(segs).Success? ==>
      && PolygonCentroid(Reversed(segs)).Success?
      && PolygonCentroid(Reversed(segs)).value.x == -PolygonCentroid(segs).value.x
      && PolygonCentroid(Reversed(segs)).value.y == -PolygonCentroid(segs).value.y
  {
    var rsegs := Reversed(segs);
    OppositeSums(segs, rsegs);
    var area := Abs(Shoelace(segs)) / 2.0;
    if area != 0.0 {
      var sums := CentroidSums(segs);
      assert CentroidSums(rsegs) == (-sums.0, -sums.1);
      CentroidPointNegated(sums, area);
    }
  }

  /** Of two faces whose boundaries are the same polygon run in opposite directions, one gets
      the negation of the other's centroid, and both have the same area. */
  lemma CentroidReversed(vs: seq<Vertex>, hs: seq<HalfEdge>, f: Face, ws: seq<Vertex>, gs: seq<HalfEdge>, g: Face)
    requires Indexed(|vs|, hs) && Walkable(hs, f) && f.wedge.Some?
    requires Indexed(|ws|, gs) && Walkable(gs, g) && g.wedge.Some?
    requires Segments(ws, gs, g) == Reversed(Segments(vs, hs, f))
    ensures Area(ws, gs, g) == Area(vs, hs, f)
    ensures Centroid(ws, gs, g).Success? <==> Centroid(vs, hs, f).Success?
    ensures Centroid(vs, hs, f).Success? ==>
      && Centroid(ws, gs, g).Success?
      && Centroid(ws, gs, g).value.x == -Centroid(vs, hs, f).value.x
      && Centroid(ws, gs, g).value.y == -Centroid(vs, hs, f).value.y
  {
    OppositeSums(Segments(vs, hs, f), Segments(ws, gs, g));
    PolygonCentroidReversed(Segments(vs, hs, f));
  }

  /** A boundary and its reversal: the same unsigned shoelace sum, opposite centroid sums. */
  lemma OppositeSums(segs: seq<Segment>, rsegs: seq<Segment>)
    requires rsegs == Reversed(segs)
    ensures Abs(Shoelace(rsegs)) == Abs(Shoelace(segs))
    ensures CentroidSums(rsegs).0 == -CentroidSums(segs).0 && CentroidSums(rsegs).1 == -CentroidSums(segs).1
  {
    ShoelaceReversed(segs);
    CentroidSumsReversed(segs);
  }

  /** Scaling a sum and its negation by the same factor gives opposite results. */
  lemma NegatedScale(c: real, d: real, s: real, t: real, k: real, l: real)
    requires k == l && t == -s && c == s * k && d == t * l
    ensures d == -c
  {
  }

  // ---------------------------------------------------------------------------
  // Point containment
  // ---------------------------------------------------------------------------

  /** The absolute tolerance of the slope test, 1e-10. */
  const Tolerance: real := 0.0000000001

  function Min(a: real, b: real): real { if a <= b then a else b }
  function Max(a: real, b: real): real { if a <= b then b else a }

  /** Face._point_on_edge for the edge from a to b. */
  predicate PointOnEdge(p: Point, a: Point, b: Point)
  {
    if !(Min(a.x, b.x) <= p.x <= Max(a.x, b.x) && Min(a.y, b.y) <= p.y <= Max(a.y, b.y)) then false
    else if a.x == b.x then p.x == a.x
    else if a.y == b.y then p.y == a.y
    else Abs(ExpectedY(a, b, p.x) - p.y) < Tolerance
  }

  /** The height at x of the line through a and b, from a's end. */
  function ExpectedY(a: Point, b: Point, x: real): real
    requires a.x != b.x
  {
    var slope := (b.y - a.y) / (b.x - a.x);
    a.y + slope * (x - a.x)
  }

  /** Outside the bounding box of the edge a point is never on it. */
  lemma PointOnEdgeInBox(p: Point, a: Point, b: Point)
    requires PointOnEdge(p, a, b)
    ensures Min(a.x, b.x) <= p.x <= Max(a.x, b.x) && Min(a.y, b.y) <= p.y <= Max(a.y, b.y)
  {
  }

  /** On a vertical or horizontal edge the test is an exact match of the constant coordinate
      within the box. */
  lemma PointOnAxisEdge(p: Point, a: Point, b: Point)
    requires a.x == b.x || a.y == b.y
    ensures PointOnEdge(p, a, b) <==>
      && Min(a.x, b.x) <= p.x <= Max(a.x, b.x) && Min(a.y, b.y) <= p.y <= Max(a.y, b.y)
      && (if a.x == b.x then p.x == a.x else p.y == a.y)
  {
  }

  /** Every point of the closed segment from a to b passes the test. */
  lemma SegmentPointOnEdge(a: Point, b: Point, t: real)
    requires 0.0 <= t <= 1.0
    ensures PointOnEdge(Point(a.x + t * (b.x - a.x), a.y + t * (b.y - a.y)), a, b)
  {
    var p := Point(a.x + t * (b.x - a.x), a.y + t * (b.y - a.y));
    BetweenInBox(a.x, b.x, t);
    BetweenInBox(a.y, b.y, t);
    if a.x != b.x && a.y != b.y {
      var slope := (b.y - a.y) / (b.x - a.x);
      assert slope * (b.x - a.x) == b.y - a.y;
      assert slope * (p.x - a.x) == t * (slope * (b.x - a.x));
    }
  }

  lemma ProductOfNonNegatives(x: real, y: real)
    requires x >= 0.0 && y >= 0.0
    ensures x * y >= 0.0
  {
  }

  lemma BetweenInBox(u: real, v: real, t: real)
    requires 0.0 <= t <= 1.0
    ensures Min(u, v) <= u + t * (v - u) <= Max(u, v)
  {
    var d := v - u;
    ProductOfNonNegatives(t, if d >= 0.0 then d else -d);
    ProductOfNonNegatives(1.0 - t, if d >= 0.0 then d else -d);
    assert t * d + (1.0 - t) * d == d;
  }

  /** The test does not depend on the direction of the edge. */
  lemma PointOnEdgeSymmetric(p: Point, a: Point, b: Point)
    ensures PointOnEdge(p, a, b) == PointOnEdge(p, b, a)
  {
    assert Min(a.x, b.x) == Min(b.x, a.x) && Max(a.x, b.x) == Max(b.x, a.x);
    assert Min(a.y, b.y) == Min(b.y, a.y) && Max(a.y, b.y) == Max(b.y, a.y);
    if a.x != b.x {
      ExpectedYSymmetric(a, b, p.x);
    }
  }

  /** The line through a and b predicts the same height at x from either end. */
  lemma ExpectedYSymmetric(a: Point, b: Point, x: real)
    requires a.x != b.x
    ensures ExpectedY(b, a, x) == ExpectedY(a, b, x)
  {
    var slope := (b.y - a.y) / (b.x - a.x);
    QuotientOfNegations(b.y - a.y, b.x - a.x);
    assert slope * (b.x - a.x) == b.y - a.y;
    assert slope * (x - b.x) == slope * (x - a.x) - slope * (b.x - a.x);
  }

  lemma QuotientOfNegations(u: real, v: real)
    requires v != 0.0
    ensures (-u) / (-v) == u / v
  {
  }

  /** The contribution of one boundary segment to the winding number. */
  function Crossing(a: Point, b: Point, p: Point): (c: int)
    ensures c == 1 <==> a.y <= p.y < b.y && SignedArea(a, b, p) > 0.0
    ensures c == -1 <==> b.y <= p.y < a.y && SignedArea(a, b, p) < 0.0
    ensures -1 <= c <= 1
  {
    if a.y <= p.y then
      (if b.y > p.y && SignedArea(a, b, p) > 0.0 then 1 else 0)
    else
      (if b.y <= p.y && SignedArea(a, b, p) < 0.0 then -1 else 0)
  }

  function Winding(segs: seq<Segment>, p: Point): int
  {
    if segs == [] then 0
    else Winding(segs[..|segs| - 1], p) + Crossing(segs[|segs| - 1].0, segs[|segs| - 1].1, p)
  }

  /** One more segment adds its crossing to the winding number. */
  lemma WindingStep(segs: seq<Segment>, i: nat, p: Point)
    requires i < |segs|
    ensures Winding(segs[..i + 1], p) == Winding(segs[..i], p) + Crossing(segs[i].0, segs[i].1, p)
  {
    var t := segs[..i + 1];
    assert t[..|t| - 1] == segs[..i];
    assert t[|t| - 1] == segs[i];
  }

  /** The point is a corner of, or lies on, some boundary segment. */
  predicate Touches(segs: seq<Segment>, p: Point)
  {
    exists i :: 0 <= i < |segs| && (p == segs[i].0 || p == segs[i].1 || PointOnEdge(p, segs[i].0, segs[i].1))
  }

  predicate InsideSegments(segs: seq<Segment>, p: Point)
  {
    Touches(segs, p) || Winding(segs, p) != 0
  }

  /** Face.isinside. */
  predicate IsInside(vs: seq<Vertex>, hs: seq<HalfEdge>, f: Face, p: Point)
    requires Indexed(|vs|, hs) && Walkable(hs, f)
  {
    InsideSegments(Segments(vs, hs, f), p)
  }

  /** A boundary vertex is inside. */
  lemma CornerIsInside(vs: seq<Vertex>, hs: seq<HalfEdge>, f: Face, i: nat)
    requires Indexed(|vs|, hs) && Walkable(hs, f) && i < VertexCount(hs, f)
    ensures IsInside(vs, hs, f, vs[BoundaryVertices(hs, f)[i]].point)
  {
    var segs := Segments(vs, hs, f);
    assert segs[i].0 == vs[BoundaryVertices(hs, f)[i]].point;
  }

  lemma CrossingReversed(a: Point, b: Point, p: Point)
    ensures Crossing(b, a, p) == -Crossing(a, b, p)
  {
    SignedAreaSwap(a, p, b);
    SignedAreaRotate(a, b, p);
    SignedAreaRotate(b, p, a);
  }

  lemma {:induction false} WindingAppend(a: seq<Segment>, b: seq<Segment>, p: Point)
    ensures Winding(a + b, p) == Winding(a, p) + Winding(b, p)
  {
    if b != [] {
      assert (a + b)[..|a + b| - 1] == a + b[..|b| - 1];
      assert (a + b)[|a + b| - 1] == b[|b| - 1];
      WindingAppend(a, b[..|b| - 1], p);
    } else {
      assert a + b == a;
    }
  }

  /** Reversing the orientation negates the winding number. */
  lemma {:induction false} WindingReversed(segs: seq<Segment>, p: Point)
    ensures Winding(Reversed(segs), p) == -Winding(segs, p)
  {
    if segs != [] {
      var last := segs[|segs| - 1];
      WindingReversed(segs[..|segs| - 1], p);
      WindingAppend([(last.1, last.0)], Reversed(segs[..|segs| - 1]), p);
      assert [(last.1, last.0)][..0] == [];
      CrossingReversed(last.0, last.1, p);
    }
  }

  /** Containment does not depend on the orientation of the boundary. */
  lemma InsideReversed(segs: seq<Segment>, p: Point)
    ensures InsideSegments(Reversed(segs), p) == InsideSegments(segs, p)
  {
    WindingReversed(segs, p);
    TouchesReversed(segs, p);
  }

  /** A point touches a boundary exactly when it touches the reversed boundary. */
  lemma TouchesReversed(segs: seq<Segment>, p: Point)
    ensures Touches(Reversed(segs), p) == Touches(segs, p)
  {
    var r := Reversed(segs);
    if Touches(segs, p) {
      var i :| 0 <= i < |segs| && (p == segs[i].0 || p == segs[i].1 || PointOnEdge(p, segs[i].0, segs[i].1));
      var j := |segs| - 1 - i;
      PointOnEdgeSymmetric(p, segs[i].0, segs[i].1);
      assert r[j] == (segs[i].1, segs[i].0);
    }
    if Touches(r, p) {
      var j :| 0 <= j < |r| && (p == r[j].0 || p == r[j].1 || PointOnEdge(p, r[j].0, r[j].1));
      var i := |segs| - 1 - j;
      PointOnEdgeSymmetric(p, segs[i].0, segs[i].1);
      assert r[j] == (segs[i].1, segs[i].0);
    }
  }


  /** A point strictly above, or strictly below, every boundary vertex has winding number 0,
      so it is inside only when it touches the boundary. */
  lemma {:induction false} WindingOutsideBand(segs: seq<Segment>, p: Point)
    requires (forall i :: 0 <= i < |segs| ==> segs[i].0.y < p.y && segs[i].1.y < p.y)
          || (forall i :: 0 <= i < |segs| ==> segs[i].0.y > p.y && segs[i].1.y > p.y)
    ensures Winding(segs, p) == 0
  {
    if segs != [] {
      WindingOutsideBand(segs[..|segs| - 1], p);
    }
  }

  // ---------------------------------------------------------------------------
  // The loops of the face queries
  // ---------------------------------------------------------------------------

  /** Face.edges: yield `wedge`, then follow `next` until `wedge` comes round again. */
  method WalkEdges(hs: seq<HalfEdge>, f: Face) returns (r: seq<nat>)
    requires Walkable(hs, f)
    ensures r == Edges(hs, f)
  {
    r := [];
    if f.wedge.None? {
      return;
    }
    ghost var es := Edges(hs, f);
    var start := f.wedge.value;
    var current := start;
    while true
      invariant |r| < |es| && r == es[..|r|] && current == es[|r|]
      decreases |es| - |r|
    {
      ghost var k := |r|;
      assert es[..k + 1] == es[..k] + [es[k]];
      r := r + [current];
      if k < |es| - 1 {
        assert hs[es[k]].next == Some(es[k + 1]);
      } else {
        assert hs[es[k]].next == Some(start);
      }
      current := hs[current].next.value;
      if current == start {
        assert k == |es| - 1;
        assert r == es;
        return;
      }
    }
  }

  /** Face.area: accumulate the shoelace terms along the walk. */
  method ComputeArea(vs: seq<Vertex>, hs: seq<HalfEdge>, f: Face) returns (area: real)
    requires Indexed(|vs|, hs) && Walkable(hs, f)
    ensures area == Area(vs, hs, f)
  {
    if f.wedge.None? {
      return 0.0;
    }
    var es := WalkEdges(hs, f);
    ghost var segs := Segments(vs, hs, f);
    var sum := 0.0;
    for i := 0 to |es|
      invariant sum == Shoelace(segs[..i])
    {
      var seg := (vs[hs[es[i]].origin].point, vs[Destination(|vs|, hs, es[i])].point);
      assert seg == segs[i];
      ShoelaceStep(segs, i);
      sum := sum + Cross(seg.0, seg.1);
    }
    assert segs[..|es|] == segs;
    area := Abs(sum) / 2.0;
  }

  /** Face.centroid: the two error checks, then the weighted sums along the walk. */
  method ComputeCentroid(vs: seq<Vertex>, hs: seq<HalfEdge>, f: Face) returns (r: Result<Point, FaceError>)
    requires Indexed(|vs|, hs) && Walkable(hs, f)
    ensures r == Centroid(vs, hs, f)
  {
    if f.wedge.None? {
      return Failure(NoEdges);
    }
    var area := ComputeArea(vs, hs, f);
    if area == 0.0 {
      return Failure(ZeroArea);
    }
    var cx, cy := SumMoments(vs, hs, f);
    var factor := 1.0 / (6.0 * area);
    r := Success(Point(cx * factor, cy * factor));
    assert Point(cx * factor, cy * factor) == CentroidPoint((cx, cy), area);
  }

  /** The accumulation loop of Face.centroid. */
  method SumMoments(vs: seq<Vertex>, hs: seq<HalfEdge>, f: Face) returns (cx: real, cy: real)
    requires Indexed(|vs|, hs) && Walkable(hs, f)
    ensures (cx, cy) == CentroidSums(Segments(vs, hs, f))
  {
    var es := WalkEdges(hs, f);
    ghost var segs := Segments(vs, hs, f);
    cx, cy := 0.0, 0.0;
    for i := 0 to |es|
      invariant cx == CentroidSums(segs[..i]).0 && cy == CentroidSums(segs[..i]).1
    {
      var seg := (vs[hs[es[i]].origin].point, vs[Destination(|vs|, hs, es[i])].point);
      assert seg == segs[i];
      CentroidSumsStep(segs, i);
      cx := cx + MomentX(seg);
      cy := cy + MomentY(seg);
    }
    assert segs[..|es|] == segs;
  }

  /** Face.isinside: first the boundary checks, then the winding number. */
  method ComputeIsInside(vs: seq<Vertex>, hs: seq<HalfEdge>, f: Face, p: Point) returns (inside: bool)
    requires Indexed(|vs|, hs) && Walkable(hs, f)
    ensures inside == IsInside(vs, hs, f, p)
  {
    var es := WalkEdges(hs, f);
    ghost var segs := Segments(vs, hs, f);
    for i := 0 to |es|
      invariant forall k :: 0 <= k < i ==> !(p == segs[k].0 || p == segs[k].1 || PointOnEdge(p, segs[k].0, segs[k].1))
    {
      var a := vs[hs[es[i]].origin].point;
      var b := vs[Destination(|vs|, hs, es[i])].point;
      assert segs[i] == (a, b);
      if p == a || p == b {
        return true;
      }
      if PointOnEdge(p, a, b) {
        return true;
      }
    }
    var winding := WindingNumber(vs, hs, f, p);
    inside := winding != 0;
  }

  /** The second loop of Face.isinside: +1 for an edge crossing p's height upwards with p
      on its left, -1 for one crossing downwards with p on its right. */
  method WindingNumber(vs: seq<Vertex>, hs: seq<HalfEdge>, f: Face, p: Point) returns (winding: int)
    requires Indexed(|vs|, hs) && Walkable(hs, f)
    ensures winding == Winding(Segments(vs, hs, f), p)
  {
    var es := WalkEdges(hs, f);
    ghost var segs := Segments(vs, hs, f);
    winding := 0;
    for i := 0 to |es|
      invariant winding == Winding(segs[..i], p)
    {
      var a := vs[hs[es[i]].origin].point;
      var b := vs[Destination(|vs|, hs, es[i])].point;
      assert segs[i] == (a, b);
      WindingStep(segs, i, p);
      if a.y <= p.y {
        if b.y > p.y {
          if SignedArea(a, b, p) > 0.0 {
            winding := winding + 1;
          }
        }
      } else {
        if b.y <= p.y {
          if SignedArea(a, b, p) < 0.0 {
            winding := winding - 1;
          }
        }
      }
    }
    assert segs[..|es|] == segs;
  }
}
