/** An edge record: its position in the graph's edge vector and the indices
    of its two endpoint vertices. Edges carry no payload in the graph. */
module Edges {

  datatype Edge = Edge(index: nat, head: nat, tail: nat)

  /** How many of the edge's two endpoint slots the vertex `v` fills:
      2 for a self-loop on `v`, 1 for an ordinary edge touching `v`, else 0.
      This is how often the edge's index is listed among `v`'s incident edges. */
  function Multiplicity(e: Edge, v: nat): (k: nat)
    ensures k <= 2
    ensures k == 0 <==> v != e.head && v != e.tail
    ensures k == 2 <==> v == e.head && v == e.tail
  {
    (if e.head == v then 1 else 0) + (if e.tail == v then 1 else 0)
  }
}
