/** The DCEL object of pydcel/dcel/dcel.py: three growing lists (vertices, half-edges,
    faces), filled by add_vertex and add_edge, linked by build_dcel and grouped into faces
    by _create_faces. */
module Dcel {
  import opened Wrappers
  import opened Points
  import opened Vertices
  import opened Primitives
  import opened Topology

  datatype DcelError = VertexIndexOutOfRange

  class Dcel {
    var vertices: seq<Vertex>
    var hedges: seq<HalfEdge>
    var faces: seq<Face>

    /** An empty DCEL. */
    constructor()
      ensures vertices == [] && hedges == [] && faces == []
      ensures Unlinked(vertices, hedges)
    {
      vertices := [];
      hedges := [];
      faces := [];
    }

    /** `Dcel(vertices, edges)`: builds only when both lists are non-empty. */
    static method Init(points: seq<(real, real)>, edges: seq<(nat, nat)>, atan2: (real, real) -> real)
      returns (d: Dcel, r: Outcome<DcelError>)
      ensures fresh(d)
      ensures (|points| == 0 || |edges| == 0) ==> r.Pass? && d.vertices == [] && d.hedges == [] && d.faces == []
      ensures |points| > 0 && |edges| > 0 ==>
        (r.Pass? <==> forall e :: 0 <= e < |edges| ==> edges[e].0 < |points| && edges[e].1 < |points|)
      ensures r.Pass? ==> Built(d.vertices, d.hedges, d.faces, atan2)
      ensures |points| > 0 && |edges| > 0 ==>
        && |d.vertices| == |points|
        && forall p :: 0 <= p < |points| ==> d.vertices[p].point == Point(points[p].0, points[p].1)
      ensures |points| > 0 && |edges| > 0 && r.Pass? ==>
        && EdgeOrigins(d.hedges, 0, edges, |edges|)
        && forall f :: 0 <= f < |d.faces| ==> !d.faces[f].external
      ensures r.Fail? ==> exists e :: StoppedAtEdge(|d.vertices|, d.hedges, 0, edges, e)
    {
      d := new Dcel();
      if |points| > 0 && |edges| > 0 {
        r := d.BuildDcel(points, edges, atan2);
      } else {
        r := Pass;
        assert Built(d.vertices, d.hedges, d.faces, atan2);
      }
    }

    /** add_vertex: a new vertex at (x, y) that knows its own index; returned by index. */
    method AddVertex(x: real, y: real) returns (v: nat)
      modifies this
      ensures v == |old(vertices)|
      ensures vertices == old(vertices) + [NewVertex(x, y).(index := Some(v))]
      ensures hedges == old(hedges) && faces == old(faces)
      ensures old(Unlinked(vertices, hedges)) ==> Unlinked(vertices, hedges)
    {
      v := |vertices|;
      var vertex := NewVertex(x, y).(index := Some(v));
      ghost var wasUnlinked := Unlinked(vertices, hedges);
      if wasUnlinked {
        UnlinkedAfterVertex(vertices, hedges, vertex);
      }
      vertices := vertices + [vertex];
    }

    /** add_edge: two twinned half-edges i -> j and j -> i, each appended to its origin's
        list; an index past the vertex list is an error and changes nothing. */
    method AddEdge(i: nat, j: nat) returns (r: Result<(nat, nat), DcelError>)
      modifies this
      ensures (i >= |old(vertices)| || j >= |old(vertices)|) <==> r.Failure?
      ensures r.Failure? ==> r.error == VertexIndexOutOfRange && unchanged(this)
      ensures r.Success? ==>
        var n := |old(hedges)|;
        && r.value == (n, n + 1)
        && hedges == old(hedges) + [HalfEdge(i, Some(n + 1), None, None, None, j), HalfEdge(j, Some(n), None, None, None, i)]
        && faces == old(faces)
        && |vertices| == |old(vertices)|
        && forall v :: 0 <= v < |vertices| ==>
             vertices[v] == old(vertices[v]).(hedgelist := old(vertices[v].hedgelist)
                                                 + (if v == i then [n] else []) + (if v == j then [n + 1] else []))
      ensures old(Unlinked(vertices, hedges)) ==> Unlinked(vertices, hedges)
    {
      if i >= |vertices| || j >= |vertices| {
        return Failure(VertexIndexOutOfRange);
      }
      ghost var wasUnlinked := Unlinked(vertices, hedges);
      ghost var vs := vertices;
      ghost var hs := hedges;
      var n := |hedges|;
      var h1 := NewHalfEdge(i, j).(twin := Some(n + 1));
      var h2 := NewHalfEdge(j, i).(twin := Some(n));
      hedges := hedges + [h1, h2];
      vertices := vertices[i := vertices[i].(hedgelist := vertices[i].hedgelist + [n])];
      vertices := vertices[j := vertices[j].(hedgelist := vertices[j].hedgelist + [n + 1])];
      AppendedToLists(vs, i, j, n);
      if wasUnlinked {
        UnlinkedAfterEdge(vs, hs, vertices, hedges, i, j);
      }
      r := Success((n, n + 1));
    }

    /** build_dcel: add the vertices, then the edges (stopping at the first bad index, with
        what was added so far kept), then link every vertex, then group the faces. */
    method BuildDcel(points: seq<(real, real)>, edges: seq<(nat, nat)>, atan2: (real, real) -> real)
      returns (r: Outcome<DcelError>)
      requires Unlinked(vertices, hedges) && faces == []
      modifies this
      ensures |vertices| == |old(vertices)| + |points|
      ensures forall v :: 0 <= v < |old(vertices)| ==> vertices[v].point == old(vertices[v].point)
      ensures forall p :: 0 <= p < |points| ==> vertices[|old(vertices)| + p].point == Point(points[p].0, points[p].1)
      ensures r.Pass? <==> forall e :: 0 <= e < |edges| ==> edges[e].0 < |vertices| && edges[e].1 < |vertices|
      ensures r.Fail? ==> r.error == VertexIndexOutOfRange && Unlinked(vertices, hedges) && faces == []
      ensures r.Fail? ==> exists e :: StoppedAtEdge(|vertices|, hedges, |old(hedges)|, edges, e)
      ensures r.Pass? ==>
        && EdgeOrigins(hedges, |old(hedges)|, edges, |edges|)
        && Built(vertices, hedges, faces, atan2)
        && forall f :: 0 <= f < |faces| ==> !faces[f].external
    {
      AddVertices(points);
      r := AddEdges(edges);
      if r.Fail? {
        return;
      }
      ghost var added := hedges;
      LinkAndGroup(atan2);
      EdgeOriginsSameShape(added, hedges, |old(hedges)|, edges);
    }

    /** The end of build_dcel: the linking loop, then _create_faces. */
    method LinkAndGroup(atan2: (real, real) -> real)
      requires Unlinked(vertices, hedges) && faces == []
      modifies this
      ensures SamePoints(old(vertices), vertices) && SameShape(old(hedges), hedges)
      ensures Built(vertices, hedges, faces, atan2)
      ensures forall f :: 0 <= f < |faces| ==> !faces[f].external
    {
      ghost var added := hedges;
      LinkAll(atan2);
      ghost var linked := hedges;
      LinkedPermuting(vertices, linked, AngleKey(Ends(vertices, linked), atan2));
      CreateFaces();
      BuiltAfterFaces(vertices, linked, hedges, faces, atan2);
      assert SameShape(linked, hedges);
    }

    /** The first loop of build_dcel: add_vertex for each point, in order. */
    method AddVertices(points: seq<(real, real)>)
      requires Unlinked(vertices, hedges)
      modifies this
      ensures Unlinked(vertices, hedges) && hedges == old(hedges) && faces == old(faces)
      ensures VertexPoints(old(vertices), vertices, points, |points|)
    {
      for p := 0 to |points|
        invariant Unlinked(vertices, hedges) && hedges == old(hedges) && faces == old(faces)
        invariant VertexPoints(old(vertices), vertices, points, p)
      {
        ghost var before := vertices;
        var v := AddVertex(points[p].0, points[p].1);
        VertexPointsStep(old(vertices), before, points, p, vertices[v]);
      }
    }

    /** The second loop of build_dcel: add_edge for each pair, in order; the first pair with
        an index out of range ends the build with the pairs before it added. */
    method AddEdges(edges: seq<(nat, nat)>) returns (r: Outcome<DcelError>)
      requires Unlinked(vertices, hedges)
      modifies this
      ensures Unlinked(vertices, hedges) && faces == old(faces) && SamePoints(old(vertices), vertices)
      ensures r.Pass? <==> forall e :: 0 <= e < |edges| ==> edges[e].0 < |vertices| && edges[e].1 < |vertices|
      ensures r.Fail? ==> r.error == VertexIndexOutOfRange
      ensures r.Fail? ==> exists e :: StoppedAtEdge(|vertices|, hedges, |old(hedges)|, edges, e)
      ensures r.Pass? ==> EdgeOrigins(hedges, |old(hedges)|, edges, |edges|)
    {
      for e := 0 to |edges|
        invariant Unlinked(vertices, hedges) && faces == old(faces) && SamePoints(old(vertices), vertices)
        invariant forall d :: 0 <= d < e ==> edges[d].0 < |vertices| && edges[d].1 < |vertices|
        invariant EdgeOrigins(hedges, |old(hedges)|, edges, e)
      {
        ghost var before := hedges;
        ghost var vs := vertices;
        var added := AddEdge(edges[e].0, edges[e].1);
        if added.Failure? {
          assert StoppedAtEdge(|vertices|, hedges, |old(hedges)|, edges, e);
          return Fail(added.error);
        }
        assert SamePoints(vs, vertices);
        SamePointsTrans(old(vertices), vs, vertices);
        EdgeOriginsStep(before, |old(hedges)|, edges, e, hedges[|before|], hedges[|before| + 1]);
      }
      r := Pass;
    }

    /** The linking loop of build_dcel: sort each vertex's list by angle and link it. */
    method LinkAll(atan2: (real, real) -> real)
      requires Unlinked(vertices, hedges)
      modifies this
      ensures faces == old(faces) && SamePoints(old(vertices), vertices) && SameShape(old(hedges), hedges)
      ensures forall h :: 0 <= h < |hedges| ==> hedges[h].face.None?
      ensures Indexed(|vertices|, hedges) && Linked(vertices, hedges, AngleKey(Ends(vertices, hedges), atan2))
    {
      assert Indexed(|vertices|, hedges);
      var key := AngleKey(Ends(vertices, hedges), atan2);
      ghost var vs0 := vertices;
      ghost var hs0 := hedges;
      LinkingAllStarts(vertices, hedges, key);
      for v := 0 to |vertices|
        invariant faces == old(faces)
        invariant LinkingAll(vs0, hs0, vertices, hedges, key, v)
      {
        ghost var vs := vertices;
        ghost var hs := hedges;
        LinkVertex(v, key);
        LinkingAllStep(vs0, hs0, vs, hs, vertices, hedges, key, v);
      }
      LinkingAllDone(vs0, hs0, vertices, hedges, key);
      LinkedIndexed(vertices, hedges, key);
      EndsSameShape(vs0, hs0, vertices, hedges);
    }

    /** One vertex of the linking loop: sortincident, then for the half-edge at position k
        of the sorted list, next := twin of the one at (k + 1) % len and prev := the one
        at k - 1, Python's index -1 being the last. */
    method LinkVertex(v: nat, key: nat -> real)
      requires v < |vertices| && Paired(vertices, hedges) && vertices[v].hedgelist == Incident(hedges, v)
      modifies this
      ensures vertices == old(vertices)[v := old(vertices[v]).(hedgelist := SortDesc(old(vertices[v].hedgelist), key))]
      ensures faces == old(faces) && |hedges| == |old(hedges)|
      ensures forall h {:trigger hedges[h]} :: 0 <= h < |hedges| ==> hedges[h] == old(hedges[h]).(next := hedges[h].next, prev := hedges[h].prev)
      ensures forall h {:trigger hedges[h]} :: 0 <= h < |hedges| && h !in vertices[v].hedgelist ==> hedges[h] == old(hedges[h])
      ensures LinkedAround(hedges, vertices[v].hedgelist)
    {
      var sorted := SortedList(vertices[v].hedgelist, key);
      LinkingStarts(vertices, hedges, v, key);
      var links := LinkAround(hedges, sorted);
      LinkingDone(hedges, links, sorted);
      vertices := vertices[v := vertices[v].(hedgelist := sorted)];
      hedges := links;
    }

    /** _create_faces: every half-edge without a face, in index order, starts a new face
        whose boundary walk claims each half-edge it passes; then each face with negative
        area is marked external, which never happens since the area is never negative. */
    method CreateFaces()
      requires Permuting(hedges) && Indexed(|vertices|, hedges) && faces == []
      requires forall h :: 0 <= h < |hedges| ==> hedges[h].face.None?
      modifies this
      ensures vertices == old(vertices) && |hedges| == |old(hedges)|
      ensures forall h {:trigger hedges[h]} :: 0 <= h < |hedges| ==> hedges[h] == old(hedges[h]).(face := hedges[h].face)
      ensures Partitioned(hedges, faces)
      ensures forall f :: 0 <= f < |faces| ==> !faces[f].external
    {
      ghost var links := hedges;
      FacingStarts(hedges);
      for s := 0 to |hedges|
        invariant vertices == old(vertices)
        invariant Facing(links, hedges, faces, s)
      {
        ghost var hs := hedges;
        ghost var fs := faces;
        if hedges[s].face.None? {
          WalkFace(links, s);
        }
        FacingStep(links, hs, fs, s, hedges, faces);
      }
      FacingDone(links, hedges, faces);
      IndexedIgnoresFaces(|vertices|, links, hedges);
      MarkExternal();
    }

    /** The second loop of _create_faces: a face whose area is negative becomes external.
        Since the area is never negative, no face changes. */
    method MarkExternal()
      requires Indexed(|vertices|, hedges)
      requires forall f :: 0 <= f < |faces| ==> Walkable(hedges, faces[f])
      modifies this
      ensures vertices == old(vertices) && hedges == old(hedges)
      ensures faces == old(faces)
    {
      for f := 0 to |faces|
        invariant unchanged(this)
      {
        var area := ComputeArea(vertices, hedges, faces[f]);
        faces := faces[f := faces[f].(external := faces[f].external || area < 0.0)];
        assert faces == old(faces);
      }
    }

    /** The inner loop of _create_faces: a new face anchored at s, then the walk along next
        from s, giving each half-edge the new face, until it is back at s. */
    method WalkFace(ghost links: seq<HalfEdge>, s: nat)
      requires Permuting(links) && Grouped(links, hedges, faces)
      requires forall h {:trigger hedges[h]} :: 0 <= h < |hedges| ==> hedges[h] == links[h].(face := hedges[h].face)
      requires s < |hedges| && hedges[s].face.None?
      modifies this
      ensures vertices == old(vertices) && |hedges| == |links|
      ensures faces == old(faces) + [Face(Some(s), false)]
      ensures forall h {:trigger hedges[h]} :: 0 <= h < |hedges| ==> hedges[h] == links[h].(face := hedges[h].face)
      ensures GainsFace(old(hedges), hedges, |old(faces)|)
      ensures hedges[s].face.Some? && Grouped(links, hedges, faces)
    {
      ghost var prior := faces;
      var f := |faces|;
      faces := faces + [NewFace().(wedge := Some(s))];
      hedges := ClaimFace(links, prior, hedges, s, f);
    }
  }

  /** The loop over a vertex's sorted incident list l: the half-edge at position k gets as
      next the twin of the one at (k + 1) % len, and as prev the one at k - 1, Python's
      index -1 being the last. */
  method LinkAround(hs0: seq<HalfEdge>, l: seq<nat>) returns (hs: seq<HalfEdge>)
    requires LinkingAround(hs0, hs0, l, 0)
    ensures LinkingAround(hs0, hs, l, |l|)
  {
    hs := hs0;
    var m := |l|;
    for k := 0 to m
      invariant LinkingAround(hs0, hs, l, k)
    {
      LinkingStep(hs0, hs, l, k);
      var h := l[k];
      hs := hs[h := hs[h].(next := hs[l[NextIndex(k, m)]].twin, prev := Some(l[PrevIndex(k, m)]))];
    }
  }

  /** The walk of _create_faces from s: give each half-edge on the way the face f, and
      follow next until back at s. */
  method ClaimFace(ghost links: seq<HalfEdge>, ghost prior: seq<Face>, hs0: seq<HalfEdge>, s: nat, f: nat)
    returns (hs: seq<HalfEdge>)
    requires f == |prior| && Permuting(links) && Grouped(links, hs0, prior)
    requires forall h {:trigger hs0[h]} :: 0 <= h < |hs0| ==> hs0[h] == links[h].(face := hs0[h].face)
    requires s < |hs0| && hs0[s].face.None?
    ensures |hs| == |links|
    ensures forall h {:trigger hs[h]} :: 0 <= h < |hs| ==> hs[h] == links[h].(face := hs[h].face)
    ensures GainsFace(hs0, hs, f)
    ensures hs[s].face.Some? && Grouped(links, hs, prior + [Face(Some(s), false)])
  {
    hs := hs0;
    var current := s;
    ghost var walk: seq<nat> := [];
    while true
      invariant Walking(links, hs0, prior, s, hs, walk, current)
      decreases |hs| - |walk|
    {
      WalkingStep(links, hs0, prior, s, hs, walk, current);
      hs := hs[current := hs[current].(face := Some(f))];
      walk := walk + [current];
      current := hs[current].next.value;
      if current == s {
        break;
      }
    }
  }
}
