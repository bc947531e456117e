/**
 The edge capability of the graph: an edge exposes the node it starts at and the
 node it ends at, both read-only (SimpleDirectedGraph/IEdge.cs).
 */
module Edges {

  /** An edge from `origin` to `destination`. The graph compares edges with the
      edge type's own equality; `id` stands for the identity of an edge object, so
      that two distinct edges with the same endpoints are two different values,
      as with reference equality on edge classes that do not override `Equals`. */
  datatype Edge<N> = Edge(id: nat, origin: N, destination: N)
}
