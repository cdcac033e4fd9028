/** What holds of the arena of a DCEL (pydcel/dcel/dcel.py) between its construction steps:
    half-edges paired by add_edge, linked around each vertex by build_dcel, and grouped
    into faces by _create_faces. */
module Topology {
  import opened Wrappers
  import opened Points
  import opened Vertices
  import opened Primitives

  // ---------------------------------------------------------------------------
  // Twins and incident lists
  // ---------------------------------------------------------------------------

  /** add_edge appends the two halves of an edge together, so the twin of half-edge h is
      its neighbour in the arena: h + 1 for the first half, h - 1 for the second. */
  function Twin(h: nat): (t: nat)
    ensures h % 2 == 0 ==> t == h + 1
    ensures h % 2 == 1 ==> t == h - 1
  {
    if h % 2 == 0 then h + 1 else h - 1
  }

  lemma TwinInvolution(h: nat, n: nat)
    requires h < n && n % 2 == 0
    ensures Twin(h) < n && Twin(h) != h && Twin(Twin(h)) == h
  {
  }

  /** In a paired arena the twin link is an involution without fixed points, and each half
      of a pair ends where the other starts. */
  lemma TwinOfTwin(vs: seq<Vertex>, hs: seq<HalfEdge>, h: nat)
    requires Paired(vs, hs) && h < |hs|
    ensures hs[h].twin.Some? && hs[h].twin.value < |hs| && hs[h].twin.value != h
    ensures hs[hs[h].twin.value].twin == Some(h)
    ensures hs[hs[h].twin.value].origin == hs[h].givenDestination
    ensures hs[h].origin == hs[hs[h].twin.value].givenDestination
    ensures Indexed(|vs|, hs) ==> Destination(|vs|, hs, hs[h].twin.value) == hs[h].origin
  {
    TwinInvolution(h, |hs|);
  }

  /** Python's `(k + 1) % len(l)` for 0 <= k < len(l): the position after k, cyclically. */
  function NextIndex(k: nat, m: nat): (j: nat)
    requires k < m
    ensures j < m
  {
    if k + 1 == m then 0 else k + 1
  }

  /** Python's `l[k - 1]` for 0 <= k < len(l): index -1 is the last entry. */
  function PrevIndex(k: nat, m: nat): (j: nat)
    requires k < m
    ensures j < m && NextIndex(j, m) == k
  {
    if k == 0 then m - 1 else k - 1
  }

  lemma NextIndexIsModulo(k: nat, m: nat)
    requires k < m
    ensures NextIndex(k, m) == (k + 1) % m && PrevIndex(NextIndex(k, m), m) == k
  {
  }

  /** The half-edges leaving v, in the order add_edge created them. */
  function Incident(hs: seq<HalfEdge>, v: nat): (r: seq<nat>)
    ensures forall i :: 0 <= i < |r| ==> r[i] < |hs| && hs[r[i]].origin == v
    ensures forall i, j :: 0 <= i < j < |r| ==> r[i] < r[j]
  {
    if hs == [] then []
    else
      var last := |hs| - 1;
      Incident(hs[..last], v) + if hs[last].origin == v then [last] else []
  }

  /** Every half-edge leaving v is listed. */
  lemma {:induction false} IncidentComplete(hs: seq<HalfEdge>, v: nat, h: nat)
    requires h < |hs| && hs[h].origin == v
    ensures h in Incident(hs, v)
  {
    if h < |hs| - 1 {
      IncidentComplete(hs[..|hs| - 1], v, h);
    }
  }

  /** Appending a new edge's two halves extends the lists of their origins. */
  lemma IncidentAppend(hs: seq<HalfEdge>, e1: HalfEdge, e2: HalfEdge, v: nat)
    ensures Incident(hs + [e1, e2], v)
         == Incident(hs, v) + (if e1.origin == v then [|hs|] else []) + (if e2.origin == v then [|hs| + 1] else [])
  {
    var gs := hs + [e1, e2];
    assert gs[..|gs| - 1] == hs + [e1];
    assert (hs + [e1])[..|hs|] == hs;
  }

  /** A vertex no half-edge leaves has an empty list. */
  lemma {:induction false} IncidentNone(hs: seq<HalfEdge>, v: nat)
    requires forall h :: 0 <= h < |hs| ==> hs[h].origin < v
    ensures Incident(hs, v) == []
  {
    if hs != [] {
      IncidentNone(hs[..|hs| - 1], v);
    }
  }

  /** Incident lists see only the origins. */
  lemma {:induction false} IncidentSameOrigins(hs: seq<HalfEdge>, gs: seq<HalfEdge>, v: nat)
    requires |hs| == |gs| && forall h :: 0 <= h < |hs| ==> gs[h].origin == hs[h].origin
    ensures Incident(gs, v) == Incident(hs, v)
  {
    if hs != [] {
      IncidentSameOrigins(hs[..|hs| - 1], gs[..|gs| - 1], v);
    }
  }

  /** A strictly increasing list has no repeats. */
  lemma IncreasingDistinct(s: seq<nat>)
    requires forall i, j :: 0 <= i < j < |s| ==> s[i] < s[j]
    ensures Distinct(s)
  {
  }

  /** A permutation of a list without repeats has none either. */
  lemma DistinctPermutation(a: seq<nat>, b: seq<nat>)
    requires multiset(a) == multiset(b) && Distinct(b)
    ensures Distinct(a)
  {
    forall i, j | 0 <= i < j < |a| ensures a[i] != a[j] {
      if a[i] == a[j] {
        assert multiset(a)[a[i]] >= 2 by {
          assert a == a[..j] + [a[j]] + a[j + 1..];
          assert a[i] in a[..j];
        }
        CountOnce(b, a[i]);
      }
    }
  }

  lemma {:induction false} CountOnce(b: seq<nat>, x: nat)
    requires Distinct(b)
    ensures multiset(b)[x] <= 1
  {
    if b != [] {
      var t := b[..|b| - 1];
      assert b == t + [b[|b| - 1]];
      CountOnce(t, x);
      if b[|b| - 1] == x {
        assert x !in t;
      }
    }
  }

  // ---------------------------------------------------------------------------
  // The states the construction goes through
  // ---------------------------------------------------------------------------

  /** The bookkeeping add_vertex and add_edge keep: each vertex knows its index, each
      half-edge leaves an existing vertex and has its neighbour as twin, and the vertex
      it was created towards is where the twin starts. */
  predicate Paired(vs: seq<Vertex>, hs: seq<HalfEdge>)
  {
    && |hs| % 2 == 0
    && (forall v :: 0 <= v < |vs| ==> vs[v].index == Some(v))
    && (forall h :: 0 <= h < |hs| ==> hs[h].origin < |vs| && hs[h].twin == Some(Twin(h)) && Twin(h) < |hs|)
    && (forall h {:trigger hs[h].givenDestination} :: 0 <= h < |hs| ==> hs[h].givenDestination == hs[Twin(h)].origin)
  }

  /** Before build_dcel links anything: every vertex lists its half-edges in creation order
      and no half-edge has a next, a prev or a face. */
  predicate Unlinked(vs: seq<Vertex>, hs: seq<HalfEdge>)
  {
    && Paired(vs, hs)
    && (forall v :: 0 <= v < |vs| ==> vs[v].hedgelist == Incident(hs, v))
    && (forall h :: 0 <= h < |hs| ==> hs[h].next.None? && hs[h].prev.None? && hs[h].face.None?)
  }

  /** Every entry of l is a half-edge. */
  predicate Within(hs: seq<HalfEdge>, l: seq<nat>)
  {
    forall k {:trigger l[k]} :: 0 <= k < |l| ==> l[k] < |hs|
  }

  /** The links build_dcel sets around one vertex whose sorted list is l: the half-edge at
      position k gets as next the twin of the one after it, and as prev the one before it,
      both counted cyclically. */
  predicate LinkedAround(hs: seq<HalfEdge>, l: seq<nat>)
  {
    && Within(hs, l)
    && forall k {:trigger hs[l[k]]} :: 0 <= k < |l| ==>
      && hs[l[k]].next == Some(Twin(l[NextIndex(k, |l|)]))
      && hs[l[k]].prev == Some(l[PrevIndex(k, |l|)])
  }

  /** After the linking loop of build_dcel: every vertex's list is its incident half-edges
      sorted by key, descending, and linked around. */
  predicate Linked(vs: seq<Vertex>, hs: seq<HalfEdge>, key: nat -> real)
  {
    && Paired(vs, hs)
    && (forall v :: 0 <= v < |vs| ==>
          && vs[v].hedgelist == SortDesc(Incident(hs, v), key)
          && LinkedAround(hs, vs[v].hedgelist))
  }

  /** `next` is defined everywhere and undone by prev after twin: next is a bijection. */
  predicate Permuting(hs: seq<HalfEdge>)
  {
    && |hs| % 2 == 0
    && forall h {:trigger hs[h].next} :: 0 <= h < |hs| ==>
         && hs[h].next.Some? && hs[h].next.value < |hs|
         && Twin(hs[h].next.value) < |hs|
         && hs[Twin(hs[h].next.value)].prev == Some(h)
  }

  /** After _create_faces: every half-edge has a face, every face's boundary walk closes,
      and a half-edge's face is f exactly when it lies on the boundary of f. */
  predicate Partitioned(hs: seq<HalfEdge>, fs: seq<Face>)
  {
    && (forall h :: 0 <= h < |hs| ==> hs[h].face.Some? && hs[h].face.value < |fs|)
    && (forall f :: 0 <= f < |fs| ==> fs[f].wedge.Some? && Closes(hs, fs[f].wedge.value))
    && (forall f :: 0 <= f < |fs| ==> forall h :: 0 <= h < |hs| ==>
          (hs[h].face == Some(f) <==> h in Edges(hs, fs[f])))
  }

  /** Part way through _create_faces, over the links as they were when it started: each
      face set so far has a closed boundary walk, made of exactly the half-edges that
      carry that face, and no other face index is in use. */
  predicate Grouped(links: seq<HalfEdge>, hs: seq<HalfEdge>, fs: seq<Face>)
  {
    && |hs| == |links|
    && (forall h :: 0 <= h < |hs| && hs[h].face.Some? ==> hs[h].face.value < |fs|)
    && (forall f :: 0 <= f < |fs| ==> fs[f].wedge.Some? && Closes(links, fs[f].wedge.value))
    && (forall f :: 0 <= f < |fs| ==> forall h :: 0 <= h < |hs| ==>
          (hs[h].face == Some(f) <==> h in Edges(links, fs[f])))
  }

  /** Once every half-edge has a face, the grouping is a partition of the final arena. */
  lemma GroupedPartitioned(links: seq<HalfEdge>, hs: seq<HalfEdge>, fs: seq<Face>)
    requires Grouped(links, hs, fs) && NextInRange(links)
    requires forall h {:trigger hs[h]} :: 0 <= h < |hs| ==> hs[h].face.Some? && hs[h].next == links[h].next
    ensures Partitioned(hs, fs)
  {
    forall f | 0 <= f < |fs|
      ensures Walkable(hs, fs[f])
      ensures forall h :: 0 <= h < |hs| ==> (hs[h].face == Some(f) <==> h in Edges(hs, fs[f]))
    {
      assert Walkable(links, fs[f]);
      EdgesSameLinks(links, hs, fs[f]);
      forall h | 0 <= h < |hs| ensures hs[h].face == Some(f) <==> h in Edges(hs, fs[f]) {
        GroupedMember(links, hs, fs, f, h);
      }
    }
  }

  lemma GroupedMember(links: seq<HalfEdge>, hs: seq<HalfEdge>, fs: seq<Face>, f: nat, h: nat)
    requires Grouped(links, hs, fs) && f < |fs| && h < |hs|
    ensures Walkable(links, fs[f]) && (hs[h].face == Some(f) <==> h in Edges(links, fs[f]))
  {
  }

  /** When the walk of a new face is back at its start it has traced the face's boundary:
      the faces before it are as they were, and the new one is exactly the walk. */
  lemma GroupedAfterWalk(links: seq<HalfEdge>, before: seq<HalfEdge>, hs: seq<HalfEdge>, prior: seq<Face>, walk: seq<nat>)
    requires Grouped(links, before, prior) && |hs| == |links|
    requires walk != [] && Closes(links, walk[0]) && Trace(links, walk[0], walk[0], |links|) == walk
    requires GainsFace(before, hs, |prior|)
    requires forall h :: 0 <= h < |hs| ==> (hs[h].face == Some(|prior|) <==> h in walk)
    ensures Grouped(links, hs, prior + [Face(Some(walk[0]), false)])
  {
    var fs := prior + [Face(Some(walk[0]), false)];
    GainedFaceBound(before, hs, prior);
    forall g | 0 <= g < |fs|
      ensures fs[g].wedge.Some? && Closes(links, fs[g].wedge.value)
      ensures forall h :: 0 <= h < |hs| ==> (hs[h].face == Some(g) <==> h in Edges(links, fs[g]))
    {
      FaceGroupedAfterWalk(links, before, hs, prior, walk, g);
    }
  }

  /** Each face, old or new, holds exactly its cycle once the walk is done. */
  lemma FaceGroupedAfterWalk(links: seq<HalfEdge>, before: seq<HalfEdge>, hs: seq<HalfEdge>, prior: seq<Face>, walk: seq<nat>, g: nat)
    requires Grouped(links, before, prior) && |hs| == |links| && g <= |prior|
    requires walk != [] && Closes(links, walk[0]) && Trace(links, walk[0], walk[0], |links|) == walk
    requires GainsFace(before, hs, |prior|)
    requires forall h :: 0 <= h < |hs| ==> (hs[h].face == Some(|prior|) <==> h in walk)
    ensures var fs := prior + [Face(Some(walk[0]), false)];
      && fs[g].wedge.Some? && Closes(links, fs[g].wedge.value)
      && forall h :: 0 <= h < |hs| ==> (hs[h].face == Some(g) <==> h in Edges(links, fs[g]))
  {
    var fs := prior + [Face(Some(walk[0]), false)];
    if g < |prior| {
      KeptFaceGrouped(links, before, hs, prior, g);
      assert fs[g] == prior[g];
    } else {
      NewFaceGrouped(links, hs, prior, walk);
      assert fs[g] == Face(Some(walk[0]), false);
    }
  }

  /** The face the walk creates holds exactly the walk. */
  lemma NewFaceGrouped(links: seq<HalfEdge>, hs: seq<HalfEdge>, prior: seq<Face>, walk: seq<nat>)
    requires walk != [] && Closes(links, walk[0]) && Trace(links, walk[0], walk[0], |links|) == walk
    requires forall h :: 0 <= h < |hs| ==> (hs[h].face == Some(|prior|) <==> h in walk)
    ensures forall h :: 0 <= h < |hs| ==> (hs[h].face == Some(|prior|) <==> h in Edges(links, Face(Some(walk[0]), false)))
  {
    assert Edges(links, Face(Some(walk[0]), false)) == walk;
  }

  /** Face numbers stay below the number of faces once the new face is counted. */
  lemma GainedFaceBound(before: seq<HalfEdge>, hs: seq<HalfEdge>, prior: seq<Face>)
    requires forall h :: 0 <= h < |before| && before[h].face.Some? ==> before[h].face.value < |prior|
    requires GainsFace(before, hs, |prior|)
    ensures forall h :: 0 <= h < |hs| && hs[h].face.Some? ==> hs[h].face.value < |prior| + 1
  {
  }

  /** A face grouped before the walk keeps exactly its half-edges. */
  lemma KeptFaceGrouped(links: seq<HalfEdge>, before: seq<HalfEdge>, hs: seq<HalfEdge>, prior: seq<Face>, g: nat)
    requires Grouped(links, before, prior) && |hs| == |links| && g < |prior|
    requires GainsFace(before, hs, |prior|)
    ensures prior[g].wedge.Some? && Closes(links, prior[g].wedge.value)
    ensures forall h :: 0 <= h < |hs| ==> (hs[h].face == Some(g) <==> h in Edges(links, prior[g]))
  {
    forall h | 0 <= h < |hs| ensures hs[h].face == Some(g) <==> h in Edges(links, prior[g]) {
      GroupedMember(links, before, prior, g, h);
    }
  }

  /** The half-edge a face walk reaches next, unless it is back at the walk's start, has
      no face yet: next is injective, so what precedes a claimed half-edge on its cycle is
      the half-edge the walk just left. */
  lemma FreshAfterStep(links: seq<HalfEdge>, before: seq<HalfEdge>, hs: seq<HalfEdge>, prior: seq<Face>, walk: seq<nat>, cur: nat)
    requires Permuting(links) && Grouped(links, before, prior) && |hs| == |links|
    requires GainsFace(before, hs, |prior|)
    requires forall h :: 0 <= h < |hs| ==> (hs[h].face == Some(|prior|) <==> h in walk)
    requires walk != [] && Distinct(walk) && cur != walk[0]
    requires forall k :: 0 <= k < |walk| ==> walk[k] < |hs|
    requires forall k :: 0 <= k < |walk| - 1 ==> links[walk[k]].next == Some(walk[k + 1])
    requires links[walk[|walk| - 1]].next == Some(cur)
    ensures cur < |hs| && hs[cur].face.None?
  {
    var last := walk[|walk| - 1];
    NotInWalk(links, walk, cur);
    assert before[last].face.None?;
    forall g | 0 <= g < |prior| ensures before[cur].face != Some(g) {
      GroupedMember(links, before, prior, g, cur);
      GroupedMember(links, before, prior, g, last);
      NotOnCycle(links, Edges(links, prior[g]), last, cur);
    }
  }

  /** The walk does not come back to a half-edge it passed, other than its start. */
  lemma NotInWalk(links: seq<HalfEdge>, walk: seq<nat>, cur: nat)
    requires Permuting(links) && walk != [] && Distinct(walk) && cur != walk[0]
    requires forall k :: 0 <= k < |walk| ==> walk[k] < |links|
    requires forall k :: 0 <= k < |walk| - 1 ==> links[walk[k]].next == Some(walk[k + 1])
    requires links[walk[|walk| - 1]].next == Some(cur)
    ensures cur !in walk
  {
    var last := walk[|walk| - 1];
    forall k | 0 < k < |walk| ensures walk[k] != cur {
      assert walk[k - 1] != last;
      assert links[Twin(walk[k])].prev == Some(walk[k - 1]);
    }
  }

  /** A half-edge off a closed cycle of next does not lead onto it. */
  lemma NotOnCycle(links: seq<HalfEdge>, es: seq<nat>, last: nat, cur: nat)
    requires Permuting(links) && es != [] && last !in es && last < |links|
    requires forall k :: 0 <= k < |es| ==> es[k] < |links|
    requires forall k :: 0 <= k < |es| - 1 ==> links[es[k]].next == Some(es[k + 1])
    requires links[es[|es| - 1]].next == Some(es[0])
    requires links[last].next == Some(cur)
    ensures cur !in es
  {
    forall i | 0 <= i < |es| ensures es[i] != cur {
      var p := if i == 0 then es[|es| - 1] else es[i - 1];
      assert links[p].next == Some(es[i]);
      assert links[Twin(es[i])].prev == Some(p);
    }
  }

  /** From before to hs, only half-edges that had no face have changed face, and to f. */
  ghost predicate GainsFace(before: seq<HalfEdge>, hs: seq<HalfEdge>, f: nat)
  {
    && |hs| == |before|
    && forall h :: 0 <= h < |hs| ==> hs[h].face == before[h].face || (before[h].face.None? && hs[h].face == Some(f))
  }

  /** Part way through the walk of _create_faces that gives the new face |prior| to the
      cycle through s: `walk` holds the half-edges given it so far, `cur` is the next one,
      and only half-edges without a face before the walk have changed. */
  ghost predicate Walking(links: seq<HalfEdge>, before: seq<HalfEdge>, prior: seq<Face>, s: nat,
                          hs: seq<HalfEdge>, walk: seq<nat>, cur: nat)
  {
    && Permuting(links) && Grouped(links, before, prior) && |hs| == |links| && s < |hs|
    && (forall h {:trigger hs[h]} :: 0 <= h < |hs| ==> hs[h] == links[h].(face := hs[h].face))
    && GainsFace(before, hs, |prior|)
    && (forall h :: 0 <= h < |hs| ==> (hs[h].face == Some(|prior|) <==> h in walk))
    && cur < |hs| && hs[cur].face.None?
    && (walk == [] ==> cur == s)
    && (forall k :: 0 <= k < |walk| ==> walk[k] < |hs|)
    && (walk != [] ==> walk[0] == s && cur != s && links[walk[|walk| - 1]].next == Some(cur))
    && (forall k :: 0 <= k < |walk| - 1 ==> links[walk[k]].next == Some(walk[k + 1]))
    && Distinct(walk)
  }

  /** One step of the walk: give cur the new face and move to its next. Either that is
      the start again and the faces so far are grouped, or the walk goes on. */
  lemma WalkingStep(links: seq<HalfEdge>, before: seq<HalfEdge>, prior: seq<Face>, s: nat,
                    hs: seq<HalfEdge>, walk: seq<nat>, cur: nat)
    requires Walking(links, before, prior, s, hs, walk, cur)
    ensures |walk| < |hs| && hs[cur].next.Some? && hs[cur].next == links[cur].next
    ensures var hs' := hs[cur := hs[cur].(face := Some(|prior|))];
      && (forall h {:trigger hs'[h]} :: 0 <= h < |hs'| ==> hs'[h] == links[h].(face := hs'[h].face))
      && GainsFace(before, hs', |prior|)
      && hs'[s].face.Some?
      && (hs[cur].next.value == s ==> Grouped(links, hs', prior + [Face(Some(s), false)]))
      && (hs[cur].next.value != s ==> Walking(links, before, prior, s, hs', walk + [cur], hs[cur].next.value))
  {
    WalkMarks(links, before, prior, s, hs, walk, cur);
    if links[cur].next.value == s {
      WalkCloses(links, before, prior, s, hs, walk, cur);
    } else {
      WalkContinues(links, before, prior, s, hs, walk, cur);
    }
  }

  /** Giving cur the new face: only cur changes, and the half-edges with the new face are
      exactly the walk so far and cur. */
  lemma WalkMarks(links: seq<HalfEdge>, before: seq<HalfEdge>, prior: seq<Face>, s: nat,
                  hs: seq<HalfEdge>, walk: seq<nat>, cur: nat)
    requires Walking(links, before, prior, s, hs, walk, cur)
    ensures |walk| < |hs| && hs[cur].next.Some? && hs[cur].next == links[cur].next
    ensures var hs' := hs[cur := hs[cur].(face := Some(|prior|))];
      && (forall h {:trigger hs'[h]} :: 0 <= h < |hs'| ==> hs'[h] == links[h].(face := hs'[h].face))
      && GainsFace(before, hs', |prior|)
      && (forall h :: 0 <= h < |hs'| ==> (hs'[h].face == Some(|prior|) <==> h in walk + [cur]))
      && hs'[s].face.Some?
  {
    assert cur !in walk;
    assert |walk| < |hs| by {
      WalkExtends(links, walk, cur);
      DistinctBelow(walk + [cur], |hs|);
    }
    var hs' := hs[cur := hs[cur].(face := Some(|prior|))];
    forall h | 0 <= h < |hs'| ensures hs'[h].face == Some(|prior|) <==> h in walk + [cur] {
      if h != cur {
        assert hs'[h] == hs[h];
        assert h in walk + [cur] <==> h in walk;
      }
    }
  }

  /** The step that comes back to s closes the new face's boundary walk. */
  lemma WalkCloses(links: seq<HalfEdge>, before: seq<HalfEdge>, prior: seq<Face>, s: nat,
                   hs: seq<HalfEdge>, walk: seq<nat>, cur: nat)
    requires Walking(links, before, prior, s, hs, walk, cur)
    requires links[cur].next == Some(s)
    ensures Grouped(links, hs[cur := hs[cur].(face := Some(|prior|))], prior + [Face(Some(s), false)])
  {
    var hs' := hs[cur := hs[cur].(face := Some(|prior|))];
    var walk' := walk + [cur];
    WalkMarks(links, before, prior, s, hs, walk, cur);
    assert cur !in walk;
    WalkCycle(links, walk, cur, s);
    GroupedAfterWalk(links, before, hs', prior, walk');
  }

  /** A walk from s whose last step leads back to s is the trace of a closed cycle. */
  lemma WalkCycle(links: seq<HalfEdge>, walk: seq<nat>, cur: nat, s: nat)
    requires Permuting(links) && cur < |links| && cur !in walk && Distinct(walk)
    requires walk == [] ==> cur == s
    requires forall k :: 0 <= k < |walk| ==> walk[k] < |links|
    requires walk != [] ==> walk[0] == s && links[walk[|walk| - 1]].next == Some(cur)
    requires forall k :: 0 <= k < |walk| - 1 ==> links[walk[k]].next == Some(walk[k + 1])
    requires links[cur].next == Some(s)
    ensures walk + [cur] != [] && (walk + [cur])[0] == s
    ensures Closes(links, s) && Trace(links, s, s, |links|) == walk + [cur]
  {
    WalkExtends(links, walk, cur);
    assert NextInRange(links);
    TraceOfCycle(links, walk + [cur]);
  }

  /** Any other step reaches a half-edge without a face, and the walk goes on. */
  lemma WalkContinues(links: seq<HalfEdge>, before: seq<HalfEdge>, prior: seq<Face>, s: nat,
                      hs: seq<HalfEdge>, walk: seq<nat>, cur: nat)
    requires Walking(links, before, prior, s, hs, walk, cur)
    requires links[cur].next.Some? && links[cur].next.value != s
    ensures Walking(links, before, prior, s, hs[cur := hs[cur].(face := Some(|prior|))], walk + [cur], links[cur].next.value)
  {
    var hs' := hs[cur := hs[cur].(face := Some(|prior|))];
    var walk' := walk + [cur];
    var next := links[cur].next.value;
    WalkMarks(links, before, prior, s, hs, walk, cur);
    assert cur !in walk;
    WalkExtends(links, walk, cur);
    FreshAfterStep(links, before, hs', prior, walk', next);
    assert walk'[0] == s && next != s && walk'[|walk'| - 1] == cur;
    WalkingIntro(links, before, prior, s, hs', walk', next);
  }

  /** Walking from its parts, so that each is proved where it is at hand. */
  lemma WalkingIntro(links: seq<HalfEdge>, before: seq<HalfEdge>, prior: seq<Face>, s: nat,
                     hs: seq<HalfEdge>, walk: seq<nat>, cur: nat)
    requires Permuting(links) && Grouped(links, before, prior) && |hs| == |links| && s < |hs|
    requires forall h {:trigger hs[h]} :: 0 <= h < |hs| ==> hs[h] == links[h].(face := hs[h].face)
    requires GainsFace(before, hs, |prior|)
    requires forall h :: 0 <= h < |hs| ==> (hs[h].face == Some(|prior|) <==> h in walk)
    requires cur < |hs| && hs[cur].face.None?
    requires forall k :: 0 <= k < |walk| ==> walk[k] < |hs|
    requires walk != [] && walk[0] == s && cur != s && links[walk[|walk| - 1]].next == Some(cur)
    requires forall k :: 0 <= k < |walk| - 1 ==> links[walk[k]].next == Some(walk[k + 1])
    requires Distinct(walk)
    ensures Walking(links, before, prior, s, hs, walk, cur)
  {
  }

  /** Appending the half-edge the walk has reached keeps the walk a distinct chain of nexts. */
  lemma WalkExtends(links: seq<HalfEdge>, walk: seq<nat>, cur: nat)
    requires cur < |links| && cur !in walk && Distinct(walk)
    requires forall k :: 0 <= k < |walk| ==> walk[k] < |links|
    requires forall k :: 0 <= k < |walk| - 1 ==> links[walk[k]].next == Some(walk[k + 1])
    requires walk != [] ==> links[walk[|walk| - 1]].next == Some(cur)
    ensures Distinct(walk + [cur])
    ensures forall k :: 0 <= k < |walk + [cur]| ==> (walk + [cur])[k] < |links|
    ensures forall k :: 0 <= k < |walk + [cur]| - 1 ==> links[(walk + [cur])[k]].next == Some((walk + [cur])[k + 1])
  {
    var walk' := walk + [cur];
    forall k | 0 <= k < |walk'| - 1 ensures links[walk'[k]].next == Some(walk'[k + 1]) {
      if k < |walk| - 1 {
        assert walk'[k] == walk[k] && walk'[k + 1] == walk[k + 1];
      }
    }
  }

  /** Part way through the first loop of _create_faces: every half-edge before s has a
      face, the faces so far are grouped, and only faces have changed. */
  ghost predicate Facing(links: seq<HalfEdge>, hs: seq<HalfEdge>, fs: seq<Face>, s: nat)
  {
    && Permuting(links) && |hs| == |links| && s <= |hs|
    && (forall h {:trigger hs[h]} :: 0 <= h < |hs| ==> hs[h] == links[h].(face := hs[h].face))
    && (forall h :: 0 <= h < s ==> hs[h].face.Some?)
    && Grouped(links, hs, fs)
    && (forall f :: 0 <= f < |fs| ==> !fs[f].external)
  }

  lemma FacingStarts(hs: seq<HalfEdge>)
    requires Permuting(hs) && forall h :: 0 <= h < |hs| ==> hs[h].face.None?
    ensures Facing(hs, hs, [], 0)
  {
  }

  /** One turn of the loop: the walk from s, if s had no face, gives s a face and keeps
      the faces before it. */
  lemma FacingStep(links: seq<HalfEdge>, hs: seq<HalfEdge>, fs: seq<Face>, s: nat, gs: seq<HalfEdge>, fs': seq<Face>)
    requires Facing(links, hs, fs, s) && s < |hs|
    requires hs[s].face.Some? ==> gs == hs && fs' == fs
    requires hs[s].face.None? ==>
      && fs' == fs + [Face(Some(s), false)] && |gs| == |links|
      && (forall h {:trigger gs[h]} :: 0 <= h < |gs| ==> gs[h] == links[h].(face := gs[h].face))
      && GainsFace(hs, gs, |fs|)
      && gs[s].face.Some? && Grouped(links, gs, fs')
    ensures Facing(links, gs, fs', s + 1)
  {
    if hs[s].face.None? {
      FacedBefore(hs, gs, s, |fs|);
      NoneExternalAppend(fs, Face(Some(s), false));
    }
  }

  lemma FacedBefore(hs: seq<HalfEdge>, gs: seq<HalfEdge>, s: nat, f: nat)
    requires s < |hs| == |gs| && (forall h :: 0 <= h < s ==> hs[h].face.Some?) && gs[s].face.Some?
    requires GainsFace(hs, gs, f)
    ensures forall h :: 0 <= h < s + 1 ==> gs[h].face.Some?
  {
  }

  lemma NoneExternalAppend(fs: seq<Face>, g: Face)
    requires (forall f :: 0 <= f < |fs| ==> !fs[f].external) && !g.external
    ensures forall f :: 0 <= f < |fs + [g]| ==> !(fs + [g])[f].external
  {
  }

  /** At the end of the loop the faces partition the half-edges. */
  lemma FacingDone(links: seq<HalfEdge>, hs: seq<HalfEdge>, fs: seq<Face>)
    requires Facing(links, hs, fs, |hs|)
    ensures Partitioned(hs, fs)
    ensures forall h {:trigger hs[h]} :: 0 <= h < |hs| ==> hs[h] == links[h].(face := hs[h].face)
  {
    assert NextInRange(links);
    GroupedPartitioned(links, hs, fs);
  }

  /** Setting faces keeps every stored index in range. */
  lemma IndexedIgnoresFaces(nv: nat, links: seq<HalfEdge>, hs: seq<HalfEdge>)
    requires Indexed(nv, links) && |hs| == |links|
    requires forall h {:trigger hs[h]} :: 0 <= h < |hs| ==> hs[h] == links[h].(face := hs[h].face)
    ensures Indexed(nv, hs)
  {
  }

  /** The state build_dcel leaves: linked by angle and partitioned into faces. */
  predicate Built(vs: seq<Vertex>, hs: seq<HalfEdge>, fs: seq<Face>, atan2: (real, real) -> real)
  {
    && Indexed(|vs|, hs)
    && Linked(vs, hs, AngleKey(Ends(vs, hs), atan2))
    && Partitioned(hs, fs)
  }

  /** Grouping the faces of a linked arena leaves it built. */
  lemma BuiltAfterFaces(vs: seq<Vertex>, linked: seq<HalfEdge>, hs: seq<HalfEdge>, fs: seq<Face>, atan2: (real, real) -> real)
    requires Indexed(|vs|, linked) && Linked(vs, linked, AngleKey(Ends(vs, linked), atan2))
    requires |hs| == |linked| && Partitioned(hs, fs)
    requires forall h {:trigger hs[h]} :: 0 <= h < |hs| ==> hs[h] == linked[h].(face := hs[h].face)
    ensures Built(vs, hs, fs, atan2)
  {
    var key := AngleKey(Ends(vs, linked), atan2);
    LinkedIgnoresFaces(vs, linked, hs, key);
    LinkedIndexed(vs, hs, key);
    EndsSameShape(vs, linked, vs, hs);
  }

  /** The half-edges from position n0 on are the pairs of the first e edges, in order. */
  predicate EdgeOrigins(hs: seq<HalfEdge>, n0: nat, edges: seq<(nat, nat)>, e: nat)
  {
    && e <= |edges| && |hs| == n0 + 2 * e
    && forall d :: 0 <= d < e ==> hs[n0 + 2 * d].origin == edges[d].0 && hs[n0 + 2 * d + 1].origin == edges[d].1
  }

  /** add_edge raised at pair e: every pair before it was in range and was added, in order,
      and pair e names an index that is not a vertex. */
  predicate StoppedAtEdge(nv: nat, hs: seq<HalfEdge>, n0: nat, edges: seq<(nat, nat)>, e: nat)
  {
    && e < |edges|
    && (forall d :: 0 <= d < e ==> edges[d].0 < nv && edges[d].1 < nv)
    && !(edges[e].0 < nv && edges[e].1 < nv)
    && EdgeOrigins(hs, n0, edges, e)
  }

  /** Appending the pair of edge e extends EdgeOrigins by one edge. */
  lemma EdgeOriginsStep(hs: seq<HalfEdge>, n0: nat, edges: seq<(nat, nat)>, e: nat, a: HalfEdge, b: HalfEdge)
    requires EdgeOrigins(hs, n0, edges, e) && e < |edges|
    requires a.origin == edges[e].0 && b.origin == edges[e].1
    ensures EdgeOrigins(hs + [a, b], n0, edges, e + 1)
  {
    var gs := hs + [a, b];
    forall d | 0 <= d < e + 1 ensures gs[n0 + 2 * d].origin == edges[d].0 && gs[n0 + 2 * d + 1].origin == edges[d].1 {
      if d < e {
        assert gs[n0 + 2 * d] == hs[n0 + 2 * d] && gs[n0 + 2 * d + 1] == hs[n0 + 2 * d + 1];
      }
    }
  }

  /** Linking and grouping keep the origins, so they keep EdgeOrigins. */
  lemma EdgeOriginsSameShape(hs: seq<HalfEdge>, gs: seq<HalfEdge>, n0: nat, edges: seq<(nat, nat)>)
    requires EdgeOrigins(hs, n0, edges, |edges|) && SameShape(hs, gs)
    ensures EdgeOrigins(gs, n0, edges, |edges|)
  {
    forall d | 0 <= d < |edges| ensures gs[n0 + 2 * d].origin == edges[d].0 && gs[n0 + 2 * d + 1].origin == edges[d].1 {
      assert gs[n0 + 2 * d].origin == hs[n0 + 2 * d].origin;
      assert gs[n0 + 2 * d + 1].origin == hs[n0 + 2 * d + 1].origin;
    }
  }

  /** The vertices after vs0 are at the first p points, in order, and vs0 is kept. */
  predicate VertexPoints(vs0: seq<Vertex>, vs: seq<Vertex>, points: seq<(real, real)>, p: nat)
  {
    && p <= |points| && |vs| == |vs0| + p && vs[..|vs0|] == vs0
    && forall q :: 0 <= q < p ==> vs[|vs0| + q].point == Point(points[q].0, points[q].1)
  }

  /** Appending the vertex of point p extends VertexPoints by one point. */
  lemma VertexPointsStep(vs0: seq<Vertex>, vs: seq<Vertex>, points: seq<(real, real)>, p: nat, w: Vertex)
    requires VertexPoints(vs0, vs, points, p) && p < |points| && w.point == Point(points[p].0, points[p].1)
    ensures VertexPoints(vs0, vs + [w], points, p + 1)
  {
    var ws := vs + [w];
    assert ws[..|vs0|] == vs[..|vs0|];
    forall q | 0 <= q < p + 1 ensures ws[|vs0| + q].point == Point(points[q].0, points[q].1) {
      if q < p {
        assert ws[|vs0| + q] == vs[|vs0| + q];
      }
    }
  }

  /** add_vertex keeps the bookkeeping: the new vertex has no half-edges and knows its index. */
  lemma UnlinkedAfterVertex(vs: seq<Vertex>, hs: seq<HalfEdge>, w: Vertex)
    requires Unlinked(vs, hs) && w.hedgelist == [] && w.index == Some(|vs|)
    ensures Unlinked(vs + [w], hs)
  {
    var ws := vs + [w];
    assert Paired(ws, hs) by {
      forall v | 0 <= v < |ws| ensures ws[v].index == Some(v) {
        if v < |vs| {
          assert ws[v] == vs[v];
        }
      }
    }
    forall v | 0 <= v < |ws| ensures ws[v].hedgelist == Incident(hs, v) {
      if v < |vs| {
        assert ws[v] == vs[v];
      } else {
        IncidentNone(hs, |vs|);
      }
    }
  }

  /** The two list updates of add_edge, one after the other, append n to the list of i and
      n + 1 to the list of j, also when i == j. */
  lemma AppendedToLists(vs: seq<Vertex>, i: nat, j: nat, n: nat)
    requires i < |vs| && j < |vs|
    ensures var vs1 := vs[i := vs[i].(hedgelist := vs[i].hedgelist + [n])];
      var ws := vs1[j := vs1[j].(hedgelist := vs1[j].hedgelist + [n + 1])];
      && |ws| == |vs|
      && forall v :: 0 <= v < |vs| ==>
           ws[v] == vs[v].(hedgelist := vs[v].hedgelist + (if v == i then [n] else []) + (if v == j then [n + 1] else []))
  {
    var vs1 := vs[i := vs[i].(hedgelist := vs[i].hedgelist + [n])];
    var ws := vs1[j := vs1[j].(hedgelist := vs1[j].hedgelist + [n + 1])];
    forall v | 0 <= v < |vs|
      ensures ws[v] == vs[v].(hedgelist := vs[v].hedgelist + (if v == i then [n] else []) + (if v == j then [n + 1] else []))
    {
      if v == i && v == j {
        assert ws[v].hedgelist == vs[v].hedgelist + [n] + [n + 1];
      }
    }
  }

  /** add_edge keeps the bookkeeping: the new pair are each other's twins, and each new
      half-edge joins the end of its origin's list, which is where Incident puts it. */
  lemma UnlinkedAfterEdge(vs: seq<Vertex>, hs: seq<HalfEdge>, ws: seq<Vertex>, gs: seq<HalfEdge>, i: nat, j: nat)
    requires Unlinked(vs, hs) && i < |vs| && j < |vs|
    requires gs == hs + [HalfEdge(i, Some(|hs| + 1), None, None, None, j), HalfEdge(j, Some(|hs|), None, None, None, i)]
    requires |ws| == |vs| && forall v :: 0 <= v < |vs| ==> ws[v].index == vs[v].index
    requires forall v :: 0 <= v < |vs| ==>
      ws[v].hedgelist == vs[v].hedgelist + (if v == i then [|hs|] else []) + (if v == j then [|hs| + 1] else [])
    ensures Unlinked(ws, gs)
  {
    PairedAfterEdge(vs, hs, ws, gs, i, j);
    forall v | 0 <= v < |ws| ensures ws[v].hedgelist == Incident(gs, v) {
      ListAfterEdge(hs, gs, vs[v].hedgelist, ws[v].hedgelist, i, j, v);
    }
    forall h | 0 <= h < |gs| ensures gs[h].next.None? && gs[h].prev.None? && gs[h].face.None? {
      if h < |hs| {
        assert gs[h] == hs[h];
      }
    }
  }

  lemma ListAfterEdge(hs: seq<HalfEdge>, gs: seq<HalfEdge>, l: seq<nat>, l': seq<nat>, i: nat, j: nat, v: nat)
    requires gs == hs + [HalfEdge(i, Some(|hs| + 1), None, None, None, j), HalfEdge(j, Some(|hs|), None, None, None, i)]
    requires l == Incident(hs, v) && l' == l + (if v == i then [|hs|] else []) + (if v == j then [|hs| + 1] else [])
    ensures l' == Incident(gs, v)
  {
    IncidentAppend(hs, gs[|hs|], gs[|hs| + 1], v);
  }

  lemma PairedAfterEdge(vs: seq<Vertex>, hs: seq<HalfEdge>, ws: seq<Vertex>, gs: seq<HalfEdge>, i: nat, j: nat)
    requires Paired(vs, hs) && i < |vs| && j < |vs|
    requires gs == hs + [HalfEdge(i, Some(|hs| + 1), None, None, None, j), HalfEdge(j, Some(|hs|), None, None, None, i)]
    requires |ws| == |vs| && forall v :: 0 <= v < |vs| ==> ws[v].index == vs[v].index
    ensures Paired(ws, gs)
  {
    forall h | 0 <= h < |gs| ensures gs[h].origin < |ws| && gs[h].twin == Some(Twin(h)) && Twin(h) < |gs| {
      if h < |hs| {
        assert gs[h] == hs[h];
      }
    }
    forall h | 0 <= h < |gs| ensures gs[h].givenDestination == gs[Twin(h)].origin {
      NewPairDestination(hs, gs, i, j, h);
    }
  }

  lemma NewPairDestination(hs: seq<HalfEdge>, gs: seq<HalfEdge>, i: nat, j: nat, h: nat)
    requires |hs| % 2 == 0 && h < |gs|
    requires forall g {:trigger hs[g].givenDestination} :: 0 <= g < |hs| ==> hs[g].givenDestination == hs[Twin(g)].origin
    requires gs == hs + [HalfEdge(i, Some(|hs| + 1), None, None, None, j), HalfEdge(j, Some(|hs|), None, None, None, i)]
    ensures Twin(h) < |gs| && gs[h].givenDestination == gs[Twin(h)].origin
  {
    if h < |hs| {
      TwinInvolution(h, |hs|);
      assert gs[h] == hs[h] && gs[Twin(h)] == hs[Twin(h)];
      assert hs[h].givenDestination == hs[Twin(h)].origin;
    }
  }

  /** The two arenas differ at most in the links and faces set after add_edge. */
  predicate SameShape(hs: seq<HalfEdge>, gs: seq<HalfEdge>)
  {
    && |hs| == |gs|
    && forall h :: 0 <= h < |hs| ==>
         gs[h].origin == hs[h].origin && gs[h].twin == hs[h].twin && gs[h].givenDestination == hs[h].givenDestination
  }

  /** The two vertex lists differ at most in the incident lists. */
  predicate SamePoints(vs: seq<Vertex>, ws: seq<Vertex>)
  {
    && |vs| == |ws|
    && forall v :: 0 <= v < |vs| ==> ws[v].point == vs[v].point && ws[v].index == vs[v].index
  }

  lemma SamePointsTrans(us: seq<Vertex>, vs: seq<Vertex>, ws: seq<Vertex>)
    requires SamePoints(us, vs) && SamePoints(vs, ws)
    ensures SamePoints(us, ws)
  {
  }

  // ---------------------------------------------------------------------------
  // The sort key: HalfEdge.angle
  // ---------------------------------------------------------------------------

  /** The location of each half-edge's origin and destination. */
  function Ends(vs: seq<Vertex>, hs: seq<HalfEdge>): (r: seq<Segment>)
    requires Indexed(|vs|, hs)
    ensures |r| == |hs|
    ensures forall h :: 0 <= h < |hs| ==> r[h] == (vs[hs[h].origin].point, vs[Destination(|vs|, hs, h)].point)
  {
    seq(|hs|, h requires 0 <= h < |hs| => (vs[hs[h].origin].point, vs[Destination(|vs|, hs, h)].point))
  }

  /** The key sortincident sorts by: the angle of each half-edge. */
  function AngleKey(ends: seq<Segment>, atan2: (real, real) -> real): (key: nat -> real)
    ensures forall h :: 0 <= h < |ends| ==> key(h) == Angle(ends[h].0, ends[h].1, atan2)
  {
    (h: nat) => if h < |ends| then Angle(ends[h].0, ends[h].1, atan2) else 0.0
  }

  /** Linking changes neither locations, origins nor twins, so neither the angles. */
  lemma EndsSameShape(vs: seq<Vertex>, hs: seq<HalfEdge>, ws: seq<Vertex>, gs: seq<HalfEdge>)
    requires Indexed(|vs|, hs) && Indexed(|ws|, gs) && SamePoints(vs, ws) && SameShape(hs, gs)
    ensures Ends(ws, gs) == Ends(vs, hs)
  {
    assert forall h :: 0 <= h < |hs| ==> Destination(|ws|, gs, h) == Destination(|vs|, hs, h);
  }

  // ---------------------------------------------------------------------------
  // Facts about the linked state
  // ---------------------------------------------------------------------------

  /** A vertex's sorted list holds each half-edge leaving it, once, and nothing else. */
  lemma SortedIncident(hs: seq<HalfEdge>, v: nat, key: nat -> real)
    ensures Distinct(SortDesc(Incident(hs, v), key))
    ensures forall x: nat :: x in SortDesc(Incident(hs, v), key) <==> x < |hs| && hs[x].origin == v
  {
    var inc := Incident(hs, v);
    forall h: nat | h < |hs| && hs[h].origin == v ensures h in inc {
      IncidentComplete(hs, v, h);
    }
    var l := SortDesc(inc, key);
    SortDescPermutes(inc, key);
    IncreasingDistinct(inc);
    DistinctPermutation(l, inc);
    forall x: nat ensures x in l <==> x in inc {
      assert x in l <==> x in multiset(l);
    }
  }

  /** Each half-edge sits in its origin's list. */
  lemma PositionOf(vs: seq<Vertex>, hs: seq<HalfEdge>, key: nat -> real, h: nat) returns (k: nat)
    requires Linked(vs, hs, key) && h < |hs|
    ensures var l := vs[hs[h].origin].hedgelist; k < |l| && l[k] == h
  {
    SortedIncident(hs, hs[h].origin, key);
    var l := vs[hs[h].origin].hedgelist;
    k :| 0 <= k < |l| && l[k] == h;
  }

  /** The two links build_dcel sets on h, in terms of its origin's sorted list. */
  lemma LinksOf(vs: seq<Vertex>, hs: seq<HalfEdge>, key: nat -> real, h: nat) returns (k: nat)
    requires Linked(vs, hs, key) && h < |hs|
    ensures var l := vs[hs[h].origin].hedgelist;
      && k < |l| && l[k] == h
      && hs[h].next == Some(Twin(l[NextIndex(k, |l|)]))
      && hs[h].prev == Some(l[PrevIndex(k, |l|)])
      && hs[l[NextIndex(k, |l|)]].origin == hs[h].origin
      && hs[l[PrevIndex(k, |l|)]].origin == hs[h].origin
  {
    k := PositionOf(vs, hs, key, h);
    var v := hs[h].origin;
    var l := vs[v].hedgelist;
    SortedIncident(hs, v, key);
    assert l[NextIndex(k, |l|)] in l && l[PrevIndex(k, |l|)] in l;
  }

  /** In the linked state every stored index is in range. */
  lemma LinkedIndexed(vs: seq<Vertex>, hs: seq<HalfEdge>, key: nat -> real)
    requires Linked(vs, hs, key)
    ensures Indexed(|vs|, hs)
  {
    forall h | 0 <= h < |hs|
      ensures hs[h].next.Some? && hs[h].next.value < |hs| && hs[h].prev.Some? && hs[h].prev.value < |hs|
    {
      var k := LinksOf(vs, hs, key, h);
      var l := vs[hs[h].origin].hedgelist;
      TwinInvolution(l[NextIndex(k, |l|)], |hs|);
    }
  }

  /** prev undoes next after twin: prev(twin(next(h))) == h, so next is a bijection. */
  lemma LinkedPermuting(vs: seq<Vertex>, hs: seq<HalfEdge>, key: nat -> real)
    requires Linked(vs, hs, key)
    ensures Permuting(hs)
  {
    forall h | 0 <= h < |hs|
      ensures hs[h].next.Some? && hs[h].next.value < |hs| && Twin(hs[h].next.value) < |hs|
      ensures hs[Twin(hs[h].next.value)].prev == Some(h)
    {
      PrevUndoesNext(vs, hs, key, h);
    }
  }

  /** For one half-edge h: the twin of its next has h as prev. */
  lemma PrevUndoesNext(vs: seq<Vertex>, hs: seq<HalfEdge>, key: nat -> real, h: nat)
    requires Linked(vs, hs, key) && h < |hs|
    ensures hs[h].next.Some? && hs[h].next.value < |hs| && Twin(hs[h].next.value) < |hs|
    ensures hs[Twin(hs[h].next.value)].prev == Some(h)
  {
    var v := hs[h].origin;
    var l := vs[v].hedgelist;
    var k := LinksOf(vs, hs, key, h);
    var j := NextIndex(k, |l|);
    var g := l[j];
    TwinInvolution(g, |hs|);
    var i := LinksOf(vs, hs, key, g);
    assert i == j by {
      assert Distinct(l) by {
        assert v < |vs|;
        SortedIncident(hs, v, key);
      }
    }
    assert PrevIndex(j, |l|) == k;
  }

  /** Every half-edge is the next of exactly one half-edge. */
  lemma NextOnto(vs: seq<Vertex>, hs: seq<HalfEdge>, key: nat -> real, g: nat) returns (h: nat)
    requires Linked(vs, hs, key) && g < |hs|
    ensures h < |hs| && hs[h].next == Some(g)
    ensures forall h' :: 0 <= h' < |hs| && hs[h'].next == Some(g) ==> h' == h
  {
    TwinInvolution(g, |hs|);
    var t := Twin(g);
    var k := LinksOf(vs, hs, key, t);
    var l := vs[hs[t].origin].hedgelist;
    h := l[PrevIndex(k, |l|)];
    SortedIncident(hs, hs[t].origin, key);
    assert h in l;
    var i := LinksOf(vs, hs, key, h);
    assert i == PrevIndex(k, |l|);
    LinkedPermuting(vs, hs, key);
  }

  /** build_dcel's next of h is the twin of the next half-edge around h's origin, so it
      ends where h starts; prev(h) starts there too. */
  lemma LinkedEnds(vs: seq<Vertex>, hs: seq<HalfEdge>, key: nat -> real, h: nat)
    requires Linked(vs, hs, key) && h < |hs|
    ensures Indexed(|vs|, hs) && hs[h].next.Some? && hs[h].prev.Some?
    ensures Destination(|vs|, hs, hs[h].next.value) == hs[h].origin
    ensures hs[hs[h].prev.value].origin == hs[h].origin
  {
    LinkedIndexed(vs, hs, key);
    var k := LinksOf(vs, hs, key, h);
    var l := vs[hs[h].origin].hedgelist;
    var g := l[NextIndex(k, |l|)];
    TwinInvolution(g, |hs|);
    assert hs[h].next.value == Twin(g);
    assert hs[Twin(g)].twin == Some(g);
  }

  /** A vertex's degree is the number of half-edges leaving it. */
  lemma DegreeCountsIncident(vs: seq<Vertex>, hs: seq<HalfEdge>, key: nat -> real, v: nat)
    requires Linked(vs, hs, key) && v < |vs|
    ensures Degree(vs[v]) == |Incident(hs, v)|
    ensures multiset(vs[v].hedgelist) == multiset(Incident(hs, v))
  {
    SortDescPermutes(Incident(hs, v), key);
  }

  /** Part way through the linking of one vertex whose sorted list is l: the first k
      entries of l are linked, and nothing but their next and prev has changed. */
  ghost predicate LinkingAround(hs0: seq<HalfEdge>, hs: seq<HalfEdge>, l: seq<nat>, k: nat)
  {
    && |hs| == |hs0| && Within(hs0, l) && Distinct(l) && k <= |l|
    && (forall h :: 0 <= h < |hs0| ==> hs0[h].twin == Some(Twin(h)))
    && (forall h {:trigger hs[h]} :: 0 <= h < |hs| ==> hs[h] == hs0[h].(next := hs[h].next, prev := hs[h].prev))
    && (forall h {:trigger hs[h]} :: 0 <= h < |hs| && h !in l[..k] ==> hs[h] == hs0[h])
    && (forall j {:trigger hs[l[j]]} :: 0 <= j < k ==>
          hs[l[j]].next == Some(Twin(l[NextIndex(j, |l|)])) && hs[l[j]].prev == Some(l[PrevIndex(j, |l|)]))
  }

  /** The linking loop of a vertex starts from its sorted incident list. */
  lemma LinkingStarts(vs: seq<Vertex>, hs: seq<HalfEdge>, v: nat, key: nat -> real)
    requires Paired(vs, hs)
    ensures LinkingAround(hs, hs, SortDesc(Incident(hs, v), key), 0)
  {
    var l := SortDesc(Incident(hs, v), key);
    SortedIncident(hs, v, key);
    forall k | 0 <= k < |l| ensures l[k] < |hs| {
      assert l[k] in l;
    }
  }

  /** One step of the linking loop: the twin read for next is the twin of the following
      entry, and linking entry k keeps the rest. */
  lemma LinkingStep(hs0: seq<HalfEdge>, hs: seq<HalfEdge>, l: seq<nat>, k: nat)
    requires LinkingAround(hs0, hs, l, k) && k < |l|
    ensures l[k] < |hs| && l[NextIndex(k, |l|)] < |hs|
    ensures hs[l[NextIndex(k, |l|)]].twin == Some(Twin(l[NextIndex(k, |l|)]))
    ensures LinkingAround(hs0, hs[l[k] := hs[l[k]].(next := Some(Twin(l[NextIndex(k, |l|)])), prev := Some(l[PrevIndex(k, |l|)]))], l, k + 1)
  {
    var m := |l|;
    var h := l[k];
    var hs' := hs[h := hs[h].(next := Some(Twin(l[NextIndex(k, m)])), prev := Some(l[PrevIndex(k, m)]))];
    assert l[..k + 1] == l[..k] + [h];
    forall g {:trigger hs'[g]} | 0 <= g < |hs'|
      ensures hs'[g] == hs0[g].(next := hs'[g].next, prev := hs'[g].prev)
      ensures g !in l[..k + 1] ==> hs'[g] == hs0[g]
    {
      if g != h {
        assert hs'[g] == hs[g];
      }
    }
    forall j {:trigger hs'[l[j]]} | 0 <= j < k
      ensures hs'[l[j]].next == Some(Twin(l[NextIndex(j, m)])) && hs'[l[j]].prev == Some(l[PrevIndex(j, m)])
    {
      assert l[j] != h;
    }
  }

  /** When the linking loop is done, the list is linked around and only its entries changed. */
  lemma LinkingDone(hs0: seq<HalfEdge>, hs: seq<HalfEdge>, l: seq<nat>)
    requires LinkingAround(hs0, hs, l, |l|)
    ensures |hs| == |hs0| && LinkedAround(hs, l)
    ensures forall h {:trigger hs[h]} :: 0 <= h < |hs| ==> hs[h] == hs0[h].(next := hs[h].next, prev := hs[h].prev)
    ensures forall h {:trigger hs[h]} :: 0 <= h < |hs| && h !in l ==> hs[h] == hs0[h]
  {
    assert l[..|l|] == l;
  }

  /** Part way through the linking loop of build_dcel, over the arena as it was before it:
      the first v vertices are sorted and linked, the others still hold their creation-order
      lists, and nothing but lists, next and prev has changed. */
  ghost predicate LinkingAll(vs0: seq<Vertex>, hs0: seq<HalfEdge>, vs: seq<Vertex>, hs: seq<HalfEdge>,
                             key: nat -> real, v: nat)
  {
    && SamePoints(vs0, vs) && SameShape(hs0, hs) && Paired(vs, hs) && v <= |vs|
    && (forall h :: 0 <= h < |hs| ==> hs[h].face.None?)
    && (forall u {:trigger SortedAndLinked(vs, hs, key, u)} :: 0 <= u < v ==> SortedAndLinked(vs, hs, key, u))
    && (forall u :: v <= u < |vs| ==> vs[u].hedgelist == Incident(hs, u))
  }

  /** Vertex u holds its incident half-edges in sorted order and is linked around them. */
  ghost predicate SortedAndLinked(vs: seq<Vertex>, hs: seq<HalfEdge>, key: nat -> real, u: nat)
  {
    u < |vs| && vs[u].hedgelist == SortDesc(Incident(hs, u), key) && LinkedAround(hs, vs[u].hedgelist)
  }

  lemma LinkingAllStarts(vs: seq<Vertex>, hs: seq<HalfEdge>, key: nat -> real)
    requires Unlinked(vs, hs)
    ensures LinkingAll(vs, hs, vs, hs, key, 0)
  {
  }

  /** Linking vertex v, which touches only next and prev of the half-edges in its list,
      keeps the vertices linked before it linked. */
  lemma LinkingAllStep(vs0: seq<Vertex>, hs0: seq<HalfEdge>, vs: seq<Vertex>, hs: seq<HalfEdge>,
                       ws: seq<Vertex>, gs: seq<HalfEdge>, key: nat -> real, v: nat)
    requires LinkingAll(vs0, hs0, vs, hs, key, v) && v < |vs|
    requires ws == vs[v := vs[v].(hedgelist := SortDesc(vs[v].hedgelist, key))]
    requires |gs| == |hs|
    requires forall h {:trigger gs[h]} :: 0 <= h < |gs| ==> gs[h] == hs[h].(next := gs[h].next, prev := gs[h].prev)
    requires forall h {:trigger gs[h]} :: 0 <= h < |gs| && h !in ws[v].hedgelist ==> gs[h] == hs[h]
    requires LinkedAround(gs, ws[v].hedgelist)
    ensures LinkingAll(vs0, hs0, ws, gs, key, v + 1)
  {
    LinksKeepShape(vs, hs, ws, gs);
    assert SamePoints(vs0, ws) && SameShape(hs0, gs);
    forall u | 0 <= u < v + 1 ensures SortedAndLinked(ws, gs, key, u) {
      LinkedAfterStep(vs, hs, ws, gs, key, v, u);
    }
    forall u | v + 1 <= u < |ws| ensures ws[u].hedgelist == Incident(gs, u) {
      IncidentSameOrigins(hs, gs, u);
    }
  }

  /** After vertex v is linked, each vertex up to v holds its sorted list and is linked
      around it. */
  lemma LinkedAfterStep(vs: seq<Vertex>, hs: seq<HalfEdge>, ws: seq<Vertex>, gs: seq<HalfEdge>,
                        key: nat -> real, v: nat, u: nat)
    requires u <= v < |vs| && |gs| == |hs|
    requires u < v ==> SortedAndLinked(vs, hs, key, u)
    requires vs[v].hedgelist == Incident(hs, v)
    requires ws == vs[v := vs[v].(hedgelist := SortDesc(vs[v].hedgelist, key))]
    requires forall h :: 0 <= h < |hs| ==> gs[h].origin == hs[h].origin
    requires forall h {:trigger gs[h]} :: 0 <= h < |gs| && h !in ws[v].hedgelist ==> gs[h] == hs[h]
    requires LinkedAround(gs, ws[v].hedgelist)
    ensures SortedAndLinked(ws, gs, key, u)
  {
    IncidentSameOrigins(hs, gs, u);
    if u < v {
      OtherVertexKeepsLinks(hs, gs, key, u, v);
    }
  }

  /** Setting next and prev and re-ordering one incident list keeps the pairing, the
      points and the faces. */
  lemma LinksKeepShape(vs: seq<Vertex>, hs: seq<HalfEdge>, ws: seq<Vertex>, gs: seq<HalfEdge>)
    requires Paired(vs, hs) && |ws| == |vs| && |gs| == |hs|
    requires forall u :: 0 <= u < |vs| ==> ws[u].point == vs[u].point && ws[u].index == vs[u].index
    requires forall h {:trigger gs[h]} :: 0 <= h < |gs| ==> gs[h] == hs[h].(next := gs[h].next, prev := gs[h].prev)
    ensures Paired(ws, gs) && SameShape(hs, gs) && SamePoints(vs, ws)
    ensures forall h :: 0 <= h < |gs| ==> gs[h].face == hs[h].face
  {
    forall h | 0 <= h < |gs| ensures gs[h].givenDestination == gs[Twin(h)].origin {
      assert gs[Twin(h)].origin == hs[Twin(h)].origin;
    }
  }

  /** Linking vertex v leaves the links around any other vertex u as they were: their
      lists share no half-edge. */
  lemma OtherVertexKeepsLinks(hs: seq<HalfEdge>, gs: seq<HalfEdge>, key: nat -> real, u: nat, v: nat)
    requires u != v && |gs| == |hs|
    requires LinkedAround(hs, SortDesc(Incident(hs, u), key))
    requires forall h {:trigger gs[h]} :: 0 <= h < |gs| && h !in SortDesc(Incident(hs, v), key) ==> gs[h] == hs[h]
    ensures LinkedAround(gs, SortDesc(Incident(hs, u), key))
  {
    var l := SortDesc(Incident(hs, u), key);
    SortedIncident(hs, u, key);
    SortedIncident(hs, v, key);
    forall k {:trigger l[k]} | 0 <= k < |l| ensures gs[l[k]].next == hs[l[k]].next && gs[l[k]].prev == hs[l[k]].prev {
      assert l[k] in l;
    }
    AroundSameLinks(hs, gs, l);
  }

  /** When every vertex is linked, the arena is linked. */
  lemma LinkingAllDone(vs0: seq<Vertex>, hs0: seq<HalfEdge>, vs: seq<Vertex>, hs: seq<HalfEdge>, key: nat -> real)
    requires LinkingAll(vs0, hs0, vs, hs, key, |vs|)
    ensures Linked(vs, hs, key)
  {
    forall u | 0 <= u < |vs|
      ensures vs[u].hedgelist == SortDesc(Incident(hs, u), key) && LinkedAround(hs, vs[u].hedgelist)
    {
      assert SortedAndLinked(vs, hs, key, u);
    }
  }

  /** Setting faces leaves the links as they were. */
  lemma LinkedIgnoresFaces(vs: seq<Vertex>, hs: seq<HalfEdge>, gs: seq<HalfEdge>, key: nat -> real)
    requires Linked(vs, hs, key) && |gs| == |hs|
    requires forall h {:trigger gs[h]} :: 0 <= h < |hs| ==> gs[h] == hs[h].(face := gs[h].face)
    ensures Linked(vs, gs, key)
  {
    assert Paired(vs, gs);
    forall v | 0 <= v < |vs|
      ensures vs[v].hedgelist == SortDesc(Incident(gs, v), key) && LinkedAround(gs, vs[v].hedgelist)
    {
      IncidentSameOrigins(hs, gs, v);
      AroundSameLinks(hs, gs, vs[v].hedgelist);
    }
  }

  /** LinkedAround reads only next and prev. */
  lemma AroundSameLinks(hs: seq<HalfEdge>, gs: seq<HalfEdge>, l: seq<nat>)
    requires LinkedAround(hs, l) && |gs| == |hs|
    requires forall k {:trigger l[k]} :: 0 <= k < |l| ==> gs[l[k]].next == hs[l[k]].next && gs[l[k]].prev == hs[l[k]].prev
    ensures LinkedAround(gs, l)
  {
  }

  // ---------------------------------------------------------------------------
  // Faces
  // ---------------------------------------------------------------------------

  /** The anchor of a face lies on it. */
  lemma WedgeCarriesFace(hs: seq<HalfEdge>, fs: seq<Face>, f: nat)
    requires Partitioned(hs, fs) && f < |fs|
    ensures fs[f].wedge.value < |hs| && hs[fs[f].wedge.value].face == Some(f)
  {
    assert Edges(hs, fs[f])[0] == fs[f].wedge.value;
  }

  /** Every half-edge lies on the boundary of exactly one face: its own. */
  lemma ExactlyOneFace(hs: seq<HalfEdge>, fs: seq<Face>, h: nat)
    requires Partitioned(hs, fs) && h < |hs|
    ensures h in Edges(hs, fs[hs[h].face.value])
    ensures forall f :: 0 <= f < |fs| && h in Edges(hs, fs[f]) ==> f == hs[h].face.value
  {
  }

  /** The entries of a list, as a set. */
  ghost function Elements(s: seq<nat>): set<nat>
  {
    set k | k in s
  }

  /** The half-edges on the next-cycle through h. */
  ghost function CycleOf(hs: seq<HalfEdge>, h: nat): set<nat>
    requires NextInRange(hs) && h < |hs|
  {
    Elements(Trace(hs, h, h, |hs|))
  }

  /** The cycle of face f, and nothing for an index that is not a face with a wedge. */
  ghost function FaceCycle(hs: seq<HalfEdge>, fs: seq<Face>, f: nat): set<nat>
  {
    if NextInRange(hs) && f < |fs| && fs[f].wedge.Some? && fs[f].wedge.value < |hs|
    then CycleOf(hs, fs[f].wedge.value) else {}
  }

  /** A closed walk of distinct half-edges, started at its i-th entry instead, is the walk
      from that entry. */
  lemma RotatedCycle(hs: seq<HalfEdge>, w: seq<nat>, i: nat)
    requires NextInRange(hs) && |w| > 0 && Distinct(w) && i < |w|
    requires forall k :: 0 <= k < |w| ==> w[k] < |hs|
    requires forall k :: 0 <= k < |w| - 1 ==> hs[w[k]].next == Some(w[k + 1])
    requires hs[w[|w| - 1]].next == Some(w[0])
    ensures Trace(hs, w[i], w[i], |hs|) == w[i..] + w[..i]
  {
    RotatedDistinct(w, i);
    RotatedWalk(hs, w, i);
    TraceOfCycle(hs, w[i..] + w[..i]);
  }

  lemma RotatedDistinct(w: seq<nat>, i: nat)
    requires Distinct(w) && i < |w|
    ensures Distinct(w[i..] + w[..i])
  {
    var r := w[i..] + w[..i];
    var m := |w| - i;
    forall a, b | 0 <= a < b < |r| ensures r[a] != r[b] {
      var ia := if a < m then i + a else a - m;
      var ib := if b < m then i + b else b - m;
      assert r[a] == w[ia] && r[b] == w[ib];
    }
  }

  /** The rotated walk still follows next and closes. */
  lemma RotatedWalk(hs: seq<HalfEdge>, w: seq<nat>, i: nat)
    requires |w| > 0 && i < |w|
    requires forall k :: 0 <= k < |w| ==> w[k] < |hs|
    requires forall k :: 0 <= k < |w| - 1 ==> hs[w[k]].next == Some(w[k + 1])
    requires hs[w[|w| - 1]].next == Some(w[0])
    ensures var r := w[i..] + w[..i];
      && |r| > 0 && r[0] == w[i]
      && (forall k :: 0 <= k < |r| ==> r[k] < |hs|)
      && (forall k :: 0 <= k < |r| - 1 ==> hs[r[k]].next == Some(r[k + 1]))
      && hs[r[|r| - 1]].next == Some(r[0])
  {
    var r := w[i..] + w[..i];
    var m := |w| - i;
    forall k | 0 <= k < |r| ensures r[k] < |hs| {
      if k < m {
        assert r[k] == w[i + k];
      } else {
        assert r[k] == w[k - m];
      }
    }
    forall k | 0 <= k < |r| - 1 ensures hs[r[k]].next == Some(r[k + 1]) {
      if k < m - 1 {
        assert r[k] == w[i + k] && r[k + 1] == w[i + k + 1];
      } else if k == m - 1 {
        assert r[k] == w[|w| - 1] && r[k + 1] == w[0];
      } else {
        assert r[k] == w[k - m] && r[k + 1] == w[k - m + 1];
      }
    }
    if i == 0 {
      assert r[|r| - 1] == w[|w| - 1];
    } else {
      assert r[|r| - 1] == w[i - 1];
    }
  }

  /** The next-cycle through any half-edge of a face's boundary is the face's own cycle. */
  lemma CycleOfFaceMember(hs: seq<HalfEdge>, face: Face, h: nat)
    requires NextInRange(hs) && Walkable(hs, face) && h in Edges(hs, face)
    ensures face.wedge.Some? && face.wedge.value < |hs| && h < |hs|
    ensures CycleOf(hs, h) == CycleOf(hs, face.wedge.value)
  {
    var w := Edges(hs, face);
    var i :| 0 <= i < |w| && w[i] == h;
    ClosedWalkDistinct(hs, w);
    CycleOfRotation(hs, w, i);
  }

  /** The cycle through any entry of a closed walk of distinct half-edges is the walk's. */
  lemma CycleOfRotation(hs: seq<HalfEdge>, w: seq<nat>, i: nat)
    requires NextInRange(hs) && |w| > 0 && Distinct(w) && i < |w| && w[0] < |hs|
    requires forall k :: 0 <= k < |w| ==> w[k] < |hs|
    requires forall k :: 0 <= k < |w| - 1 ==> hs[w[k]].next == Some(w[k + 1])
    requires hs[w[|w| - 1]].next == Some(w[0])
    requires Trace(hs, w[0], w[0], |hs|) == w
    ensures CycleOf(hs, w[i]) == CycleOf(hs, w[0])
  {
    RotatedCycle(hs, w, i);
    ElementsRotated(w, i);
  }

  lemma ElementsRotated(w: seq<nat>, i: nat)
    requires i <= |w|
    ensures Elements(w[i..] + w[..i]) == Elements(w)
  {
    assert w == w[..i] + w[i..];
    forall k ensures k in Elements(w[i..] + w[..i]) <==> k in Elements(w) {
      assert k in w[i..] + w[..i] <==> k in w[..i] + w[i..];
    }
  }

  /** Distinct faces have distinct cycles: each face's cycle holds its own wedge, and the
      wedge lies on no other face. */
  lemma DistinctFaceCycles(hs: seq<HalfEdge>, fs: seq<Face>, f: nat, g: nat)
    requires NextInRange(hs) && Partitioned(hs, fs) && f < |fs| && g < |fs| && f != g
    ensures FaceCycle(hs, fs, f) != FaceCycle(hs, fs, g)
  {
    var w := fs[f].wedge.value;
    assert w in Edges(hs, fs[f]);
    assert w !in Edges(hs, fs[g]);
    FaceCycleIsEdges(hs, fs, f);
    FaceCycleIsEdges(hs, fs, g);
  }

  lemma FaceCycleIsEdges(hs: seq<HalfEdge>, fs: seq<Face>, f: nat)
    requires NextInRange(hs) && f < |fs| && fs[f].wedge.Some? && Walkable(hs, fs[f])
    ensures fs[f].wedge.value < |hs|
    ensures forall k :: k in FaceCycle(hs, fs, f) <==> k in Edges(hs, fs[f])
  {
  }

  /** Distinct faces have distinct cycles. */
  lemma FaceCyclesInjective(hs: seq<HalfEdge>, fs: seq<Face>)
    requires NextInRange(hs) && Partitioned(hs, fs)
    ensures forall f, g :: 0 <= f < g < |fs| ==> FaceCycle(hs, fs, f) != FaceCycle(hs, fs, g)
  {
    forall f, g | 0 <= f < g < |fs| ensures FaceCycle(hs, fs, f) != FaceCycle(hs, fs, g) {
      DistinctFaceCycles(hs, fs, f, g);
    }
  }

  /** A map that is one-to-one on the first n indices has n values there. */
  lemma {:induction false} ImageCount(F: nat -> set<nat>, n: nat)
    requires forall f, g :: 0 <= f < g < n ==> F(f) != F(g)
    ensures |set f | 0 <= f < n :: F(f)| == n
  {
    if n > 0 {
      ImageCount(F, n - 1);
      var before := set f | 0 <= f < n - 1 :: F(f);
      assert (set f | 0 <= f < n :: F(f)) == before + {F(n - 1)};
      assert F(n - 1) !in before;
    }
  }

  /** After _create_faces there is one face per next-cycle: the cycles through the
      half-edges are exactly the faces' cycles, and there are as many as there are faces. */
  lemma FacesAreCycles(hs: seq<HalfEdge>, fs: seq<Face>)
    requires NextInRange(hs) && Partitioned(hs, fs)
    ensures (set h | 0 <= h < |hs| :: CycleOf(hs, h)) == (set f | 0 <= f < |fs| :: FaceCycle(hs, fs, f))
    ensures |set h | 0 <= h < |hs| :: CycleOf(hs, h)| == |fs|
  {
    forall h | 0 <= h < |hs| ensures OnFaceCycle(hs, fs, h) {
      ExactlyOneFace(hs, fs, h);
      FaceOfCycle(hs, fs, h, hs[h].face.value);
    }
    FaceCyclesInjective(hs, fs);
    CyclesCount(hs, fs);
  }

  /** The cycle through h is the cycle of some face. */
  ghost predicate OnFaceCycle(hs: seq<HalfEdge>, fs: seq<Face>, h: nat)
    requires NextInRange(hs) && h < |hs|
  {
    exists f :: 0 <= f < |fs| && CycleOf(hs, h) == FaceCycle(hs, fs, f)
  }

  lemma FaceOfCycle(hs: seq<HalfEdge>, fs: seq<Face>, h: nat, f: nat)
    requires NextInRange(hs) && h < |hs| && f < |fs| && Walkable(hs, fs[f]) && h in Edges(hs, fs[f])
    ensures OnFaceCycle(hs, fs, h)
  {
    CycleOfFaceMember(hs, fs[f], h);
    assert CycleOf(hs, h) == FaceCycle(hs, fs, f);
  }

  /** The counting behind FacesAreCycles, from its three facts. */
  lemma CyclesCount(hs: seq<HalfEdge>, fs: seq<Face>)
    requires NextInRange(hs)
    requires forall h :: 0 <= h < |hs| ==> OnFaceCycle(hs, fs, h)
    requires forall f :: 0 <= f < |fs| ==> fs[f].wedge.Some? && fs[f].wedge.value < |hs|
    requires forall f, g :: 0 <= f < g < |fs| ==> FaceCycle(hs, fs, f) != FaceCycle(hs, fs, g)
    ensures (set h | 0 <= h < |hs| :: CycleOf(hs, h)) == (set f | 0 <= f < |fs| :: FaceCycle(hs, fs, f))
    ensures |set h | 0 <= h < |hs| :: CycleOf(hs, h)| == |fs|
  {
    var cycles := set h | 0 <= h < |hs| :: CycleOf(hs, h);
    var faceCycles := set f | 0 <= f < |fs| :: FaceCycle(hs, fs, f);
    forall c | c in cycles ensures c in faceCycles {
      var h :| 0 <= h < |hs| && c == CycleOf(hs, h);
      assert OnFaceCycle(hs, fs, h);
    }
    forall c | c in faceCycles ensures c in cycles {
      var f :| 0 <= f < |fs| && c == FaceCycle(hs, fs, f);
      assert c == CycleOf(hs, fs[f].wedge.value);
    }
    var F := (f: nat) => FaceCycle(hs, fs, f);
    ImageCount(F, |fs|);
    SameImage(hs, fs, F);
  }

  lemma SameImage(hs: seq<HalfEdge>, fs: seq<Face>, F: nat -> set<nat>)
    requires forall f: nat :: F(f) == FaceCycle(hs, fs, f)
    ensures (set f | 0 <= f < |fs| :: F(f)) == (set f | 0 <= f < |fs| :: FaceCycle(hs, fs, f))
  {
    var a := set f | 0 <= f < |fs| :: F(f);
    var b := set f | 0 <= f < |fs| :: FaceCycle(hs, fs, f);
    forall c | c in a ensures c in b {
      var f :| 0 <= f < |fs| && c == F(f);
      assert c == FaceCycle(hs, fs, f);
    }
    forall c | c in b ensures c in a {
      var f :| 0 <= f < |fs| && c == FaceCycle(hs, fs, f);
      assert c == F(f);
    }
  }

  /** The faces not marked external (the `internal_faces` statistic). */
  function InternalFaces(fs: seq<Face>): (n: nat)
    ensures n <= |fs|
  {
    if fs == [] then 0 else InternalFaces(fs[..|fs| - 1]) + if fs[|fs| - 1].external then 0 else 1
  }

  /** With no face marked external, every face counts as internal. */
  lemma {:induction false} NoneExternal(fs: seq<Face>)
    requires forall f :: 0 <= f < |fs| ==> !fs[f].external
    ensures InternalFaces(fs) == |fs|
  {
    if fs != [] {
      NoneExternal(fs[..|fs| - 1]);
    }
  }
}
