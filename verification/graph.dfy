/** The graph container: two growable vectors of vertex and edge records that
    refer to each other only by index. Vertices and edges are appended and
    never removed, so every index handed out stays valid. */
module Graphs {
  import opened Vertices
  import opened Edges

  datatype Result<R, E> = Ok(value: R) | Err(error: E)

  /** The failures the graph reports (as formatted strings in the source). */
  datatype GraphError =
    | VertexNotFound(headIndex: nat, tailIndex: nat)  // insert_edge: an endpoint does not exist
    | NotIncident(edgeIndex: nat, vertexIndex: nat)   // opposite: the edge does not touch the vertex

  /* ---------- The structural invariant, on the two vectors as values ---------- */

  /** Every record's stored index is its position in its vector. */
  ghost predicate IndicesArePositions<T>(vs: seq<Vertex<T>>, es: seq<Edge>) {
    && (forall i :: 0 <= i < |vs| ==> vs[i].index == i)
    && (forall j :: 0 <= j < |es| ==> es[j].index == j)
  }

  /** Every edge's endpoints are existing vertices. */
  ghost predicate EndpointsExist<T>(vs: seq<Vertex<T>>, es: seq<Edge>) {
    forall j :: 0 <= j < |es| ==> es[j].head < |vs| && es[j].tail < |vs|
  }

  /** Every entry of every incidence list is an existing edge. */
  ghost predicate IncidenceBounded<T>(vs: seq<Vertex<T>>, es: seq<Edge>) {
    forall v, i :: 0 <= v < |vs| && 0 <= i < |vs[v].incidentEdges| ==> vs[v].incidentEdges[i] < |es|
  }

  /** Edge `e` is listed in vertex `v`'s incidence list exactly as often as `v`
      is an endpoint of `e`: once for an ordinary edge, twice for a self-loop. */
  ghost predicate IncidenceAgrees<T>(vs: seq<Vertex<T>>, es: seq<Edge>) {
    forall v, e :: 0 <= v < |vs| && 0 <= e < |es| ==>
      multiset(vs[v].incidentEdges)[e] == Multiplicity(es[e], v)
  }

  /** Incidence lists are in insertion order, that is, in ascending edge index. */
  ghost predicate IncidenceInOrder<T>(vs: seq<Vertex<T>>) {
    forall v, i, j :: 0 <= v < |vs| && 0 <= i < j < |vs[v].incidentEdges| ==>
      vs[v].incidentEdges[i] <= vs[v].incidentEdges[j]
  }

  ghost predicate WellFormed<T>(vs: seq<Vertex<T>>, es: seq<Edge>) {
    && IndicesArePositions(vs, es)
    && EndpointsExist(vs, es)
    && IncidenceBounded(vs, es)
    && IncidenceAgrees(vs, es)
    && IncidenceInOrder(vs)
  }

  /** Pushing edge index `e` onto the incidence list of vertex `v`. */
  function Attach<T>(vs: seq<Vertex<T>>, v: nat, e: nat): seq<Vertex<T>>
    requires v < |vs|
  {
    vs[v := vs[v].(incidentEdges := vs[v].incidentEdges + [e])]
  }

  /* ---------- The mutators preserve the invariant ---------- */

  lemma EmptyIsWellFormed<T>()
    ensures WellFormed<T>([], [])
  {
  }

  /** Appending a vertex whose index is the old count and whose incidence list
      is empty keeps the graph well formed. */
  lemma PushVertexPreserves<T>(vs: seq<Vertex<T>>, es: seq<Edge>, x: T)
    requires WellFormed(vs, es)
    ensures WellFormed(vs + [Vertex(|vs|, x, [])], es)
  {
    var vs' := vs + [Vertex(|vs|, x, [])];
    forall v, e | 0 <= v < |vs'| && 0 <= e < |es|
      ensures multiset(vs'[v].incidentEdges)[e] == Multiplicity(es[e], v)
    {
      if v == |vs| {
        assert es[e].head < |vs| && es[e].tail < |vs|;
      }
    }
  }

  /** Pushing the new edge index `n` onto the head's list and then onto the
      tail's list leaves every vertex's index and payload alone and extends
      each list by as many copies of `n` as the vertex has endpoint slots. */
  lemma AttachBoth<T>(vs: seq<Vertex<T>>, h: nat, t: nat, n: nat)
    requires h < |vs| && t < |vs|
    ensures var r := Attach(Attach(vs, h, n), t, n);
      && |r| == |vs|
      && forall v :: 0 <= v < |vs| ==>
           && r[v].index == vs[v].index
           && r[v].element == vs[v].element
           && r[v].incidentEdges == vs[v].incidentEdges + (if v == h && v == t then [n, n]
                                                           else if v == h || v == t then [n]
                                                           else [])
  {
  }

  /** The incidence lists after recording edge `n` (the new edge count) on
      both endpoints still agree with the edge vector extended by that edge. */
  lemma PushEdgeAgrees<T>(vs: seq<Vertex<T>>, es: seq<Edge>, h: nat, t: nat)
    requires IncidenceBounded(vs, es) && IncidenceAgrees(vs, es)
    requires h < |vs| && t < |vs|
    ensures IncidenceAgrees(Attach(Attach(vs, h, |es|), t, |es|), es + [Edge(|es|, h, t)])
  {
    var n := |es|;
    var es' := es + [Edge(n, h, t)];
    var vs' := Attach(Attach(vs, h, n), t, n);
    AttachBoth(vs, h, t, n);
    forall v, e | 0 <= v < |vs'| && 0 <= e < |es'|
      ensures multiset(vs'[v].incidentEdges)[e] == Multiplicity(es'[e], v)
    {
      var before := vs[v].incidentEdges;
      var added := if v == h && v == t then [n, n] else if v == h || v == t then [n] else [];
      assert vs'[v].incidentEdges == before + added;
      assert multiset(vs'[v].incidentEdges) == multiset(before) + multiset(added);
      if e < n {
        assert es'[e] == es[e];
        assert multiset(added)[e] == 0;
      } else {
        assert n !in before by {
          forall i | 0 <= i < |before| ensures before[i] != n {
            assert before[i] < n;
          }
        }
        assert multiset(before)[n] == 0;
      }
    }
  }

  /** Recording the new edge count on both endpoints keeps every incidence
      list in ascending order, since every earlier entry is below it. */
  lemma PushEdgeInOrder<T>(vs: seq<Vertex<T>>, es: seq<Edge>, h: nat, t: nat)
    requires IncidenceBounded(vs, es) && IncidenceInOrder(vs)
    requires h < |vs| && t < |vs|
    ensures IncidenceInOrder(Attach(Attach(vs, h, |es|), t, |es|))
  {
    var n := |es|;
    var vs' := Attach(Attach(vs, h, n), t, n);
    AttachBoth(vs, h, t, n);
    forall v, i, j | 0 <= v < |vs'| && 0 <= i < j < |vs'[v].incidentEdges|
      ensures vs'[v].incidentEdges[i] <= vs'[v].incidentEdges[j]
    {
      var before := vs[v].incidentEdges;
      if i < |before| {
        assert vs'[v].incidentEdges[i] == before[i];
        if j < |before| {
          assert vs'[v].incidentEdges[j] == before[j];
        } else {
          assert before[i] < n;
        }
      }
    }
  }

  /** Appending an edge between two existing vertices, and recording its index
      on both endpoints, keeps the graph well formed. */
  lemma PushEdgePreserves<T>(vs: seq<Vertex<T>>, es: seq<Edge>, h: nat, t: nat)
    requires WellFormed(vs, es)
    requires h < |vs| && t < |vs|
    ensures WellFormed(Attach(Attach(vs, h, |es|), t, |es|), es + [Edge(|es|, h, t)])
  {
    var n := |es|;
    var vs' := Attach(Attach(vs, h, n), t, n);
    AttachBoth(vs, h, t, n);
    PushEdgeAgrees(vs, es, h, t);
    PushEdgeInOrder(vs, es, h, t);
    forall v, i | 0 <= v < |vs'| && 0 <= i < |vs'[v].incidentEdges|
      ensures vs'[v].incidentEdges[i] < n + 1
    {
      if i < |vs[v].incidentEdges| {
        assert vs'[v].incidentEdges[i] == vs[v].incidentEdges[i];
      }
    }
  }

  /** Overwriting one vertex's payload keeps the graph well formed. */
  lemma SetElementPreserves<T>(vs: seq<Vertex<T>>, es: seq<Edge>, v: nat, x: T)
    requires WellFormed(vs, es)
    requires v < |vs|
    ensures WellFormed(vs[v := vs[v].(element := x)], es)
  {
  }

  /* ---------- The container ---------- */

  class Graph<T> {
    var vertices: seq<Vertex<T>>
    var edges: seq<Edge>

    ghost predicate Valid()
      reads this
    {
      WellFormed(vertices, edges)
    }

    /** Graph::new: an empty graph. */
    constructor ()
      ensures Valid()
      ensures vertices == [] && edges == []
    {
      vertices := [];
      edges := [];
      EmptyIsWellFormed<T>();
    }

    /** The two endpoints (head, tail) of an existing edge; in a valid graph
        both are existing vertices that list the edge as incident. */
    function EndVertices(edgeIndex: nat): (r: (nat, nat))
      reads this
      requires edgeIndex < |edges|
      ensures Valid() ==> r.0 < |vertices| && r.1 < |vertices|
      ensures Valid() ==> edgeIndex in vertices[r.0].incidentEdges && edgeIndex in vertices[r.1].incidentEdges
    {
      (edges[edgeIndex].head, edges[edgeIndex].tail)
    }

    /** The endpoint of the edge other than `vertexIndex`; a self-loop gives
        back the vertex itself; a vertex the edge does not touch is an error. */
    function Opposite(vertexIndex: nat, edgeIndex: nat): (r: Result<nat, GraphError>)
      reads this
      requires edgeIndex < |edges|
      ensures r.Ok? <==> vertexIndex == edges[edgeIndex].head || vertexIndex == edges[edgeIndex].tail
      ensures r.Ok? ==> (vertexIndex == edges[edgeIndex].head && r.value == edges[edgeIndex].tail) ||
                        (vertexIndex == edges[edgeIndex].tail && r.value == edges[edgeIndex].head)
      ensures r.Err? ==> r.error == NotIncident(edgeIndex, vertexIndex)
    {
      var (head, tail) := EndVertices(edgeIndex);
      if vertexIndex == head then Ok(tail)
      else if vertexIndex == tail then Ok(head)
      else Err(NotIncident(edgeIndex, vertexIndex))
    }

    /** Number of entries in a vertex's incidence list. */
    function Degree(vertexIndex: nat): nat
      reads this
      requires vertexIndex < |vertices|
    {
      |vertices[vertexIndex].incidentEdges|
    }

    /** `list.iter().any(|e| opposite(from, e) == Ok(target))`. */
    function AnyOppositeIs(list: seq<nat>, from: nat, target: nat): (r: bool)
      reads this
      requires forall i :: 0 <= i < |list| ==> list[i] < |edges|
      ensures r <==> exists i :: 0 <= i < |list| && Opposite(from, list[i]) == Ok(target)
    {
      if list == [] then false
      else Opposite(from, list[0]) == Ok(target) || AnyOppositeIs(list[1..], from, target)
    }

    /** are_adjacent as written: it scans the shorter incidence list, but it
        always asks for the opposite of `vertexIndex1`, and compares against
        the vertex whose list it is not scanning. */
    function AreAdjacent(vertexIndex1: nat, vertexIndex2: nat): (r: bool)
      reads this
      requires vertexIndex1 < |vertices| && vertexIndex2 < |vertices|
      requires IncidenceBounded(vertices, edges)
      ensures Degree(vertexIndex1) <= Degree(vertexIndex2) ==>
        (r <==> exists i :: 0 <= i < Degree(vertexIndex1) &&
                  Opposite(vertexIndex1, vertices[vertexIndex1].incidentEdges[i]) == Ok(vertexIndex2))
      ensures Degree(vertexIndex1) > Degree(vertexIndex2) ==>
        (r <==> exists i :: 0 <= i < Degree(vertexIndex2) &&
                  Opposite(vertexIndex1, vertices[vertexIndex2].incidentEdges[i]) == Ok(vertexIndex1))
    {
      var (smallest, other) :=
        if Degree(vertexIndex1) <= Degree(vertexIndex2) then (vertexIndex1, vertexIndex2)
        else (vertexIndex2, vertexIndex1);
      AnyOppositeIs(vertices[smallest].incidentEdges, vertexIndex1, other)
    }

    /** are_adjacent as evidently intended: the opposite is taken relative to
        the vertex whose incidence list is scanned, so the answer is whether
        some edge joins the two vertices. */
    function AreAdjacentIntended(vertexIndex1: nat, vertexIndex2: nat): (r: bool)
      reads this
      requires Valid()
      requires vertexIndex1 < |vertices| && vertexIndex2 < |vertices|
      ensures r <==> Joined(vertexIndex1, vertexIndex2)
    {
      var (smallest, other) :=
        if Degree(vertexIndex1) <= Degree(vertexIndex2) then (vertexIndex1, vertexIndex2)
        else (vertexIndex2, vertexIndex1);
      var incident := vertices[smallest].incidentEdges;
      ScanSound(this, incident, smallest, other);
      ScanComplete(this, smallest, other);
      assert Joined(smallest, other) == Joined(vertexIndex1, vertexIndex2);
      AnyOppositeIs(incident, smallest, other)
    }

    /** The incidence list of a vertex: in a valid graph it lists every edge
        touching the vertex, as often as the vertex is its endpoint, and
        nothing else, in ascending (insertion) order. */
    function IncidentEdges(vertexIndex: nat): (r: seq<nat>)
      reads this
      requires vertexIndex < |vertices|
      ensures Valid() ==> forall i :: 0 <= i < |r| ==> r[i] < |edges|
      ensures Valid() ==> forall e :: 0 <= e < |edges| ==> multiset(r)[e] == Multiplicity(edges[e], vertexIndex)
      ensures Valid() ==> forall i, j :: 0 <= i < j < |r| ==> r[i] <= r[j]
    {
      vertices[vertexIndex].incidentEdges
    }

    /** Some edge joins `a` and `b`, in either orientation. */
    ghost predicate Joined(a: nat, b: nat)
      reads this
    {
      exists e :: 0 <= e < |edges| &&
        ((edges[e].head == a && edges[e].tail == b) || (edges[e].head == b && edges[e].tail == a))
    }

    ghost predicate HasSelfLoop(v: nat)
      reads this
    {
      exists e :: 0 <= e < |edges| && edges[e].head == v && edges[e].tail == v
    }

    /** insert_vertex: appends a vertex with the given payload and no incident
        edges, and returns its index, the old vertex count. */
    method InsertVertex(element: T) returns (index: nat)
      requires Valid()
      modifies this
      ensures Valid()
      ensures index == old(|vertices|)
      ensures vertices == old(vertices) + [Vertex(index, element, [])]
      ensures edges == old(edges)
    {
      index := |vertices|;
      PushVertexPreserves(vertices, edges, element);
      vertices := vertices + [Vertex(index, element, [])];
    }

    /** insert_edge: fails without changing anything when an endpoint does not
        exist; otherwise appends the edge, records its index on the head's and
        then the tail's incidence list, and returns it (the old edge count). */
    method InsertEdge(headIndex: nat, tailIndex: nat) returns (r: Result<nat, GraphError>)
      requires Valid()
      modifies this
      ensures Valid()
      ensures r.Ok? <==> headIndex < old(|vertices|) && tailIndex < old(|vertices|)
      ensures r.Err? ==> r.error == VertexNotFound(headIndex, tailIndex)
      ensures r.Err? ==> vertices == old(vertices) && edges == old(edges)
      ensures r.Ok? ==> r.value == old(|edges|)
      ensures r.Ok? ==> edges == old(edges) + [Edge(r.value, headIndex, tailIndex)]
      ensures r.Ok? ==> |vertices| == old(|vertices|)
      ensures r.Ok? ==> forall v :: 0 <= v < |vertices| ==>
        && vertices[v].index == old(vertices[v].index)
        && vertices[v].element == old(vertices[v].element)
        && vertices[v].incidentEdges ==
             old(vertices[v].incidentEdges) + (if v == headIndex && v == tailIndex then [r.value, r.value]
                                               else if v == headIndex || v == tailIndex then [r.value]
                                               else [])
      ensures r.Ok? ==> EndVertices(r.value) == (headIndex, tailIndex)
      ensures r.Ok? ==> Opposite(headIndex, r.value) == Ok(tailIndex) && Opposite(tailIndex, r.value) == Ok(headIndex)
    {
      var nextIndex := |edges|;
      if !(headIndex < |vertices|) || !(tailIndex < |vertices|) {
        return Err(VertexNotFound(headIndex, tailIndex));
      }
      PushEdgePreserves(vertices, edges, headIndex, tailIndex);
      AttachBoth(vertices, headIndex, tailIndex, nextIndex);
      edges := edges + [Edge(nextIndex, headIndex, tailIndex)];
      vertices := Attach(vertices, headIndex, nextIndex);
      vertices := Attach(vertices, tailIndex, nextIndex);
      r := Ok(nextIndex);
    }

    /** replace: overwrites the payload of an existing vertex; nothing else changes. */
    method Replace(vertexIndex: nat, element: T)
      requires Valid()
      requires vertexIndex < |vertices|
      modifies this
      ensures Valid()
      ensures vertices == old(vertices)[vertexIndex := old(vertices[vertexIndex]).(element := element)]
      ensures edges == old(edges)
    {
      SetElementPreserves(vertices, edges, vertexIndex, element);
      vertices := vertices[vertexIndex := vertices[vertexIndex].(element := element)];
    }
  }

  /* ---------- Properties of the queries ---------- */

  /** In a valid graph, edge `e` is on vertex `v`'s incidence list exactly when
      `v` is one of the edge's endpoints. */
  lemma IncidentIffEndpoint<T>(g: Graph<T>, v: nat, e: nat)
    requires g.Valid()
    requires v < |g.vertices| && e < |g.edges|
    ensures e in g.vertices[v].incidentEdges <==> g.edges[e].head == v || g.edges[e].tail == v
  {
    assert multiset(g.vertices[v].incidentEdges)[e] == Multiplicity(g.edges[e], v);
  }

  /** `opposite` is an involution on an edge's endpoints. */
  lemma OppositeInvolution<T>(g: Graph<T>, v: nat, e: nat)
    requires e < |g.edges|
    requires g.Opposite(v, e).Ok?
    ensures g.Opposite(g.Opposite(v, e).value, e) == Ok(v)
  {
  }

  /** A scan that finds an edge leading from `s` to `o` proves the two joined. */
  lemma ScanSound<T>(g: Graph<T>, list: seq<nat>, s: nat, o: nat)
    requires forall i :: 0 <= i < |list| ==> list[i] < |g.edges|
    ensures g.AnyOppositeIs(list, s, o) ==> g.Joined(s, o)
  {
    if g.AnyOppositeIs(list, s, o) {
      var i :| 0 <= i < |list| && g.Opposite(s, list[i]) == Ok(o);
      var e := list[i];
      assert (g.edges[e].head == s && g.edges[e].tail == o) || (g.edges[e].head == o && g.edges[e].tail == s);
    }
  }

  /** In a valid graph, scanning `s`'s own incidence list for an edge leading
      to `o` finds one whenever the two are joined. */
  lemma ScanComplete<T>(g: Graph<T>, s: nat, o: nat)
    requires g.Valid()
    requires s < |g.vertices|
    ensures g.Joined(s, o) ==> g.AnyOppositeIs(g.vertices[s].incidentEdges, s, o)
  {
    if g.Joined(s, o) {
      var inc := g.vertices[s].incidentEdges;
      var e :| 0 <= e < |g.edges| &&
        ((g.edges[e].head == s && g.edges[e].tail == o) || (g.edges[e].head == o && g.edges[e].tail == s));
      IncidentIffEndpoint(g, s, e);
      var i :| 0 <= i < |inc| && inc[i] == e;
      assert g.Opposite(s, inc[i]) == Ok(o);
    }
  }

  /** When the first vertex's incidence list is no longer than the second's,
      are_adjacent answers whether some edge joins the two. */
  lemma AreAdjacentShorterFirst<T>(g: Graph<T>, v1: nat, v2: nat)
    requires g.Valid()
    requires v1 < |g.vertices| && v2 < |g.vertices|
    requires g.Degree(v1) <= g.Degree(v2)
    ensures g.AreAdjacent(v1, v2) <==> g.Joined(v1, v2)
  {
    var inc := g.vertices[v1].incidentEdges;
    assert g.AreAdjacent(v1, v2) == g.AnyOppositeIs(inc, v1, v2);
    ScanSound(g, inc, v1, v2);
    ScanComplete(g, v1, v2);
  }

  /** When the first vertex's incidence list is longer than the second's,
      are_adjacent is false whatever the edges are: it would need an edge on
      `v2` whose opposite from `v1` is `v1`, i.e. a self-loop on `v1` that
      also touches `v2`, which forces `v1 == v2`. */
  lemma AreAdjacentLongerFirst<T>(g: Graph<T>, v1: nat, v2: nat)
    requires g.Valid()
    requires v1 < |g.vertices| && v2 < |g.vertices|
    requires g.Degree(v1) > g.Degree(v2)
    ensures !g.AreAdjacent(v1, v2)
  {
    var inc := g.vertices[v2].incidentEdges;
    forall i | 0 <= i < |inc|
      ensures g.Opposite(v1, inc[i]) != Ok(v1)
    {
      IncidentIffEndpoint(g, v2, inc[i]);
    }
  }

  /** A vertex is adjacent to itself exactly when it carries a self-loop. */
  lemma AreAdjacentSelf<T>(g: Graph<T>, v: nat)
    requires g.Valid()
    requires v < |g.vertices|
    ensures g.AreAdjacent(v, v) <==> g.HasSelfLoop(v)
  {
    AreAdjacentShorterFirst(g, v, v);
  }

  /** The defect of are_adjacent as written: for joined vertices of different
      degrees, asking from the busier vertex says "not adjacent" while asking
      from the other one says "adjacent". */
  lemma AreAdjacentMissesEdge<T>(g: Graph<T>, v1: nat, v2: nat)
    requires g.Valid()
    requires v1 < |g.vertices| && v2 < |g.vertices|
    requires g.Joined(v1, v2)
    requires g.Degree(v1) > g.Degree(v2)
    ensures !g.AreAdjacent(v1, v2)
    ensures g.AreAdjacent(v2, v1)
  {
    AreAdjacentLongerFirst(g, v1, v2);
    AreAdjacentShorterFirst(g, v2, v1);
  }

  /** The corrected adjacency test is symmetric. */
  lemma AreAdjacentIntendedSymmetric<T>(g: Graph<T>, v1: nat, v2: nat)
    requires g.Valid()
    requires v1 < |g.vertices| && v2 < |g.vertices|
    ensures g.AreAdjacentIntended(v1, v2) == g.AreAdjacentIntended(v2, v1)
  {
    assert g.Joined(v1, v2) == g.Joined(v2, v1);
  }
}
