# rs-graph in Dafny

A model of `Graph<T>`, the in-memory graph container that makes up the whole
rs-graph crate. It has two vectors, one of vertex records and one of edge records. They refer to each other only by
index:

- a vertex (`Vertices.Vertex<T>`) holds its index, the caller's payload `T`
  and the list of incident edge indices, which is only ever appended to;
- an edge (`Edges.Edge`) holds its index and the indices of its head and tail vertices.

`Graphs.Graph<T>` is a class whose fields `vertices: seq<Vertex<T>>` and
`edges: seq<Edge>` stand for the two `Vec`s. The mutators `insert_vertex`,
`insert_edge` and `replace` are methods that reassign those fields. The read-only queries
`end_vertices`, `opposite`, `are_adjacent` and `incident_edges` are functions.
The structural invariant `Valid()` (`Graphs.WellFormed` on the two vectors)
says:

- every record's stored index is its position in its vector;
- every edge's endpoints exist;
- every incidence entry is an existing edge;
- edge `e` is listed on vertex `v` exactly as often as `v` is an endpoint of
  `e` (`Edges.Multiplicity`: twice for a self-loop);
- incidence lists are in ascending, that is insertion, order.

The constructor establishes it and every mutator preserves it.

Index-out-of-range panics of the Rust code become `requires` clauses. The two
`Err(String)` results become a tagged `GraphError`:

- `VertexNotFound(head, tail)` from `insert_edge`;
- `NotIncident(edge, vertex)` from `opposite`.

`are_adjacent` is modelled as the code is written. It scans the shorter
incidence list, but it always asks for the opposite endpoint of
`vertex_index1`. So it answers "is there an edge joining them" only when
`vertex_index1` has the shorter or equal list. Otherwise it answers false (see
Findings). The module `GraphTests` replays the crate's `test1` scenario.

Where the code differs from the crate's intended design, the model follows
the code:

- `end_vertices`, `opposite`, `are_adjacent` and `incident_edges` panic on a
  bad index instead of returning an absent value;
- `replace` panics instead of reporting `VertexNotFound`;
- `insert_edge` takes no edge payload;
- a self-loop's incidence list holds its index twice, so the lists are not
  free of duplicates;
- there is no `outgoing_edges` and there are no element getters.

`src/edge.rs:3` declares an edge payload `element`, and `Edge` there is
generic. But `src/lib.rs:10` uses `Edge` without a type argument, and
`src/lib.rs:67-71` builds edges without `element`. The crate as written
therefore does not compile. The model follows `src/lib.rs`: an edge has only
`index`, `head` and `tail`.

## Model

| member | source | states |
|---|---|---|
| `Edges.Multiplicity` | src/lib.rs:72-73 | how many incidence entries an edge gives a vertex: at most 2, zero exactly when the vertex is neither endpoint, 2 exactly for a self-loop on it |
| `Graphs.EmptyIsWellFormed` | src/lib.rs:17-22 | the empty graph satisfies the structural invariant |
| `Graphs.PushVertexPreserves` | src/lib.rs:51-59 | appending a vertex whose index is the old count and whose incidence list is empty preserves the invariant |
| `Graphs.AttachBoth` | src/lib.rs:72-73 | pushing edge `n` onto the head's list and then the tail's list keeps every index and payload; it extends a self-loop vertex's list by `[n, n]`, an endpoint's by `[n]` and leaves all others alone |
| `Graphs.PushEdgeAgrees` | src/lib.rs:67-73 | after appending edge `n` and recording it on both endpoints, every vertex lists every edge exactly as often as it is that edge's endpoint |
| `Graphs.PushEdgeInOrder` | src/lib.rs:72-73 | recording the new edge count keeps every incidence list ascending |
| `Graphs.PushEdgePreserves` | src/lib.rs:61-75 | a successful edge insertion preserves the whole invariant |
| `Graphs.SetElementPreserves` | src/lib.rs:46-49 | overwriting a vertex payload preserves the invariant |
| `Graphs.Graph.constructor` | src/lib.rs:17-22 | `new` gives a valid graph with no vertices and no edges |
| `Graphs.Graph.EndVertices` | src/lib.rs:24-26 | for an existing edge, in a valid graph both returned endpoints exist and list the edge among their incident edges |
| `Graphs.Graph.Opposite` | src/lib.rs:28-33 | succeeds exactly when the vertex is the edge's head or tail, and then returns the other endpoint (the vertex itself for a self-loop); otherwise fails with `NotIncident(edge, vertex)` |
| `Graphs.Graph.AnyOppositeIs` | src/lib.rs:41-43 | the `iter().any(...)` scan: true exactly when some list entry's opposite from `from` is `target` |
| `Graphs.Graph.AreAdjacent` | src/lib.rs:35-44 | branch by branch: with `deg(v1) <= deg(v2)` it scans `v1`'s list for an edge whose opposite from `v1` is `v2`; otherwise it scans `v2`'s list for an edge whose opposite from `v1` is `v1` |
| `Graphs.Graph.AreAdjacentIntended` | src/lib.rs:35-44 | corrected `are_adjacent`: in a valid graph, true exactly when some edge joins the two vertices |
| `Graphs.Graph.IncidentEdges` | src/lib.rs:89-91 | in a valid graph the list names only existing edges, each as often as the vertex is its endpoint, in ascending order |
| `Graphs.Graph.InsertVertex` | src/lib.rs:51-59 | returns the old vertex count and appends exactly one vertex with that index, the payload and no incident edges; edges and earlier vertices unchanged; invariant kept |
| `Graphs.Graph.InsertEdge` | src/lib.rs:61-75 | fails with `VertexNotFound(head, tail)` and changes nothing exactly when an endpoint does not exist. Otherwise it returns the old edge count `n` and appends edge `(n, head, tail)`. It appends `n` to the head's and the tail's lists (twice on a self-loop) and changes nothing else. Afterwards `end_vertices(n) == (head, tail)`, `opposite(head, n) == Ok(tail)` and `opposite(tail, n) == Ok(head)`. The invariant is kept |
| `Graphs.Graph.Replace` | src/lib.rs:46-49 | sets only the payload of an existing vertex; its index, its incidence list, the other vertices and the edges are unchanged; invariant kept |
| `Graphs.IncidentIffEndpoint` | src/lib.rs:72-73 | in a valid graph an edge is on a vertex's incidence list exactly when the vertex is one of its endpoints |
| `Graphs.OppositeInvolution` | src/lib.rs:28-33 | taking the opposite twice returns the starting vertex |
| `Graphs.ScanSound` | src/lib.rs:41-43 | a successful scan from `s` for `o` means some edge joins `s` and `o` |
| `Graphs.ScanComplete` | src/lib.rs:41-43 | in a valid graph, scanning `s`'s own list finds `o` whenever some edge joins them |
| `Graphs.AreAdjacentShorterFirst` | src/lib.rs:36-43 | when `deg(v1) <= deg(v2)`, `are_adjacent(v1, v2)` is true exactly when some edge joins `v1` and `v2` |
| `Graphs.AreAdjacentLongerFirst` | src/lib.rs:39-43 | when `deg(v1) > deg(v2)`, `are_adjacent(v1, v2)` is false in every valid graph |
| `Graphs.AreAdjacentSelf` | src/lib.rs:35-44 | `are_adjacent(v, v)` holds exactly when `v` has a self-loop |
| `Graphs.AreAdjacentMissesEdge` | src/lib.rs:35-44 | for joined vertices with `deg(v1) > deg(v2)`: `are_adjacent(v1, v2)` is false while `are_adjacent(v2, v1)` is true |
| `Graphs.AreAdjacentIntendedSymmetric` | src/lib.rs:35-44 | the corrected adjacency test is symmetric |
| `GraphTests.InsertEdgeUnwrap` | src/lib.rs:108-110 | `insert_edge(..).unwrap()` on existing endpoints returns the old edge count, appends the edge and raises each vertex's degree by its endpoint multiplicity |
| `GraphTests.BuildTest1Graph` | src/lib.rs:103-110 | the test graph has 4 vertices, edges `(0,1)`, `(0,2)`, `(1,3)` with indices 0..2; vertices 0, 1 and 3 have degrees 2, 2 and 1 |
| `GraphTests.Test1` | src/lib.rs:111-118 | `end_vertices(0) == (0,1)`, `end_vertices(1) != (0,1)`, `opposite(3, 2) == Ok(1)`, `opposite(3, 0)` is the not-incident error; `are_adjacent` is true for (0,1) and (1,0), false for (0,0) and (0,3) |
| `GraphTests.AreAdjacentAsymmetryWitness` | src/lib.rs:35-44 | on vertices 0..2 with edges (0,1), (0,2): `are_adjacent(0,1)` is false, `are_adjacent(1,0)` is true, and the corrected test is true both ways |

## Left out

- Error message text: `Err(String)` values are modelled as the tagged `GraphError` carrying the indices the messages print.
- Panics on out-of-range indices in `end_vertices`, `opposite`, `are_adjacent`, `replace` and `incident_edges` are preconditions, not modelled crashes.
- `usize` bounds: indices are unbounded `nat`; a vector can never hold more than `usize::MAX` records, so no wrap-around can occur.
- `vertices()` and `edges()` (src/lib.rs:81-87) return references to the two vectors; they are the class's public fields `vertices` and `edges`, read directly, and borrowing and aliasing are not modelled.
- `remove_vertex` and `remove_edge` exist only as comments (src/lib.rs:77-79), and the payload-cloning question at src/lib.rs:47 has no code; neither is modelled.
- The edge payload declared at src/edge.rs:3 is never set by the graph, so edges carry no payload.

## Findings

| source | as written | input that shows it | evidently intended | confidence | as-written member | corrected member |
|---|---|---|---|---|---|---|
| src/lib.rs:43 | the scan always calls `opposite(vertex_index1, e)`; when `vertex_index2`'s list is the shorter one, `other_index` is `vertex_index1`, so only a self-loop on `vertex_index1` could match and the result is always false | vertices 0, 1, 2 with edges (0,1) and (0,2): `are_adjacent(0, 1)` is false, `are_adjacent(1, 0)` is true | take the opposite relative to the vertex whose list is scanned, so that the test is true exactly when an edge joins the two vertices, in either order | high (proved on the model; not executed) | `Graphs.AreAdjacentMissesEdge` | `Graphs.Graph.AreAdjacentIntended` |
