/** A vertex record: its position in the graph's vertex vector, the caller's
    payload and the indices of the edges that touch it, in insertion order. */
module Vertices {

  datatype Vertex<T> = Vertex(index: nat, element: T, incidentEdges: seq<nat>)
}
