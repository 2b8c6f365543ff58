/** The repository's own test scenario, and a small graph that exhibits the
    asymmetry of are_adjacent. */
module GraphTests {
  import opened Edges
  import opened Graphs

  /** `graph.insert_edge(head, tail).unwrap()`, as the tests call it: with both
      endpoints existing the insertion succeeds, and each vertex's degree
      grows by the number of endpoint slots it fills. */
  method InsertEdgeUnwrap(graph: Graph<nat>, head: nat, tail: nat) returns (edge: nat)
    requires graph.Valid()
    requires head < |graph.vertices| && tail < |graph.vertices|
    modifies graph
    ensures graph.Valid()
    ensures edge == old(|graph.edges|)
    ensures graph.edges == old(graph.edges) + [Edge(edge, head, tail)]
    ensures |graph.vertices| == old(|graph.vertices|)
    ensures forall v :: 0 <= v < |graph.vertices| ==>
      graph.Degree(v) == old(graph.Degree(v)) + Multiplicity(Edge(edge, head, tail), v)
  {
    var r := graph.InsertEdge(head, tail);
    edge := r.value;
  }

  /** The graph test1 builds: vertices 0..3 (payloads 5, 10, 15, 9) and
      edges 0 = (0,1), 1 = (0,2), 2 = (1,3). */
  method BuildTest1Graph() returns (graph: Graph<nat>)
    ensures fresh(graph) && graph.Valid()
    ensures |graph.vertices| == 4
    ensures graph.edges == [Edge(0, 0, 1), Edge(1, 0, 2), Edge(2, 1, 3)]
    ensures graph.Degree(0) == 2 && graph.Degree(1) == 2 && graph.Degree(3) == 1
  {
    graph := new Graph<nat>();
    var vertex0 := graph.InsertVertex(5);
    var vertex1 := graph.InsertVertex(10);
    var vertex2 := graph.InsertVertex(15);
    var vertex3 := graph.InsertVertex(9);
    assert graph.edges == [] && |graph.vertices| == 4;
    assert graph.Degree(0) == 0 && graph.Degree(1) == 0 && graph.Degree(3) == 0;
    var edge0 := InsertEdgeUnwrap(graph, vertex0, vertex1);
    assert graph.edges == [Edge(0, 0, 1)];
    var edge1 := InsertEdgeUnwrap(graph, vertex0, vertex2);
    assert graph.edges == [Edge(0, 0, 1), Edge(1, 0, 2)];
    var edge2 := InsertEdgeUnwrap(graph, vertex1, vertex3);
  }

  /** test1: the answers the repository's test expects from end_vertices,
      opposite and are_adjacent on that graph. */
  method Test1() returns (ends0: (nat, nat), ends1: (nat, nat),
                          opposite32: Result<nat, GraphError>, opposite30: Result<nat, GraphError>,
                          adjacent01: bool, adjacent10: bool, adjacent00: bool, adjacent03: bool)
    ensures ends0 == (0, 1) && ends1 != (0, 1)
    ensures opposite32 == Ok(1)
    ensures opposite30 == Err(NotIncident(0, 3))
    ensures adjacent01 && adjacent10
    ensures !adjacent00 && !adjacent03
  {
    var graph := BuildTest1Graph();
    assert !graph.HasSelfLoop(0) by {
      forall e | 0 <= e < |graph.edges| ensures !(graph.edges[e].head == 0 && graph.edges[e].tail == 0) {
        assert e == 0 || e == 1 || e == 2;
      }
    }
    var vertex0, vertex1, vertex3 := 0, 1, 3;
    var edge0, edge1, edge2 := 0, 1, 2;  // the indices the insertions returned

    ends0 := graph.EndVertices(edge0);
    ends1 := graph.EndVertices(edge1);
    opposite32 := graph.Opposite(vertex3, edge2);
    opposite30 := graph.Opposite(vertex3, edge0);

    AreAdjacentShorterFirst(graph, vertex0, vertex1);
    AreAdjacentShorterFirst(graph, vertex1, vertex0);
    assert graph.Joined(0, 1) by { assert graph.edges[0] == Edge(0, 0, 1); }
    adjacent01 := graph.AreAdjacent(vertex0, vertex1);
    adjacent10 := graph.AreAdjacent(vertex1, vertex0);

    AreAdjacentSelf(graph, vertex0);
    adjacent00 := graph.AreAdjacent(vertex0, vertex0);

    AreAdjacentLongerFirst(graph, vertex0, vertex3);
    adjacent03 := graph.AreAdjacent(vertex0, vertex3);
  }

  /** Vertices 0, 1, 2 with edges (0,1) and (0,2): vertex 0 has the longer
      incidence list, so are_adjacent(0, 1) is false although
      are_adjacent(1, 0) is true; the corrected test says true both ways. */
  method AreAdjacentAsymmetryWitness() returns (forward: bool, backward: bool,
                                                 intendedForward: bool, intendedBackward: bool)
    ensures !forward && backward
    ensures intendedForward && intendedBackward
  {
    var graph := new Graph<nat>();
    var vertex0 := graph.InsertVertex(0);
    var vertex1 := graph.InsertVertex(1);
    var vertex2 := graph.InsertVertex(2);
    assert vertex0 == 0 && vertex1 == 1 && vertex2 == 2;
    assert graph.Degree(0) == 0 && graph.Degree(1) == 0;
    var r0 := graph.InsertEdge(vertex0, vertex1);
    assert graph.Degree(0) == 1 && graph.Degree(1) == 1;
    assert r0.Ok? && r0.value == 0;
    var r1 := graph.InsertEdge(vertex0, vertex2);
    assert graph.Degree(0) == 2 && graph.Degree(1) == 1;
    assert graph.edges[0] == Edge(0, 0, 1);

    AreAdjacentMissesEdge(graph, vertex0, vertex1);
    forward := graph.AreAdjacent(vertex0, vertex1);
    backward := graph.AreAdjacent(vertex1, vertex0);

    AreAdjacentIntendedSymmetric(graph, vertex0, vertex1);
    intendedForward := graph.AreAdjacentIntended(vertex0, vertex1);
    intendedBackward := graph.AreAdjacentIntended(vertex1, vertex0);
  }
}
