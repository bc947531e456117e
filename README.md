# Digraph — a verified model of a generic adjacency-list directed graph

This project models `Digraph<TNode, TEdge>` from SimpleDirectedGraph. It is a
mutable directed-graph container. Its only state is a dictionary from each node
to the list of that node's outgoing edges. Callers supply the edges. An edge
exposes an `Origin` and a `Destination` node.

The model has four modules:

- `Edges` (`Edges.dfy`): the edge type. It folds the `IEdge` accessors into a
  datatype `Edge(id, origin, destination)`. `id` stands for the identity of an
  edge object. Two distinct edges with the same endpoints are then different
  values, as with the reference equality of edge classes that do not override
  `Equals`.
- `EdgeLists` (`EdgeLists.dfy`): the two in-place edits of one outgoing list,
  written as functions. `Purge` is `RemoveAll(x => x.Destination.Equals(n))`.
  `RemoveFirst` is `List.Remove(e)`.
- `Adjacency` (`Adjacency.dfy`): the adjacency map as a value. It holds:
  - the effect of every mutator on the map (`WithNode`, `WithEdge`,
    `WithoutNode`, `WithoutEdge`);
  - the two structural invariants (`WellFormed`): every edge listed under a key
    starts at that key, and every edge ends at a key;
  - the edge total (`TotalEdges`, the sum of all list lengths);
  - lemmas about what each operation changes, keeps and counts.
- `Digraphs` (`Digraph.dfy`): the class `Digraph` with the field
  `adj: map<N, seq<Edge<N>>>`. Its methods update `adj` in place, with the
  source's loops. Each mutator is proved to leave `adj` equal to the matching
  `Adjacency` function of the old map, and to keep `Valid()`. Two client
  methods replay the scenarios "one edge A→B in an empty graph" and "remove the
  hub of A→B, A→C, A→D".

`AddNode` has no `Valid()` precondition. `AddEdge` calls it on an
intermediate map whose destination may still be missing. It promises that a
valid graph stays valid.

Policy on duplicate edges: there is no duplicate check. Adding the same edge
value twice stores it twice (`AddEdgeTwice`). `TryRemoveEdge` removes only the
first equal edge.

Where the tests or doc comments and the code differ, the model follows the
code. The model has no null values, so the cases below have no counterpart in
it:

- The test at SimpleDirectedGraphTests/DigraphReferenceNodeTests.cs:14-22
  expects `AddEdge` to reject an edge with a null endpoint. The code has no
  check of its own for the endpoints (SimpleDirectedGraph/Digraph.cs:54).
  A null `Origin` is still rejected before anything changes: the dictionary
  lookup at line 58 throws `ArgumentNullException`. A null `Destination` gets
  through. The edge is appended to the origin's list, and only then does the
  lookup at line 69 throw.
- The test at SimpleDirectedGraphTests/DigraphReferenceNodeTests.cs:113-121
  expects `TryRemoveEdge` to reject an edge with a null endpoint. A null
  `Origin` throws `ArgumentNullException` at the lookup at
  SimpleDirectedGraph/Digraph.cs:97. A null `Destination` does not throw at
  all: the scan runs and removes an equal edge if there is one.
- The doc comment at SimpleDirectedGraph/Digraph.cs:92 says `TryRemoveEdge`
  matches edges by their Origin and Destination. The code compares with the
  edge type's `Equals` (line 102), which is reference equality for the test
  edge classes. The model uses the datatype's equality, including `id`.

## Model

| member | source | states |
|---|---|---|
| `EdgeLists.Purge` | SimpleDirectedGraph/Digraph.cs:87 | the purged list is no longer than the old one; every survivor comes from the old list and does not end at the removed node |
| `EdgeLists.PurgeMultiset` | SimpleDirectedGraph/Digraph.cs:87 | every edge not ending at the removed node keeps all of its copies |
| `EdgeLists.PurgeAppend` | SimpleDirectedGraph/Digraph.cs:87 | purging distributes over concatenation, so surviving edges keep their relative order |
| `EdgeLists.PurgeNoMatch` | SimpleDirectedGraph/Digraph.cs:87 | a list with no edge into the removed node is left exactly as it was |
| `EdgeLists.RemoveFirst` | SimpleDirectedGraph/Digraph.cs:100-106 | with a match the length drops by exactly one; with no match the list is unchanged |
| `EdgeLists.RemoveFirstMultiset` | SimpleDirectedGraph/Digraph.cs:100-106 | the removal takes out exactly one copy of the edge, if present, and keeps the count of every other edge |
| `EdgeLists.RemoveFirstAt` | SimpleDirectedGraph/Digraph.cs:100-106 | when position i holds the first equal edge, the removal takes out exactly position i and keeps the rest in order |
| `Adjacency.SumLengthsPick` | SimpleDirectedGraph/Digraph.cs:28-35 | the sum of list lengths does not depend on the order in which the dictionary's entries are visited |
| `Adjacency.TotalEdgesUpdate` | SimpleDirectedGraph/Digraph.cs:24-37 | replacing one node's list changes the edge total by the difference in length |
| `Adjacency.TotalEdgesZero` | SimpleDirectedGraph/Digraph.cs:24-37 | the edge total is zero exactly when every outgoing list is empty |
| `Adjacency.AddNodeSpec` | SimpleDirectedGraph/Digraph.cs:42-46 | afterwards the node is a key; an existing node's list is not reset and the map is unchanged; a new node gets an empty list and adds one to the node count; other lists, the edge total and both invariants are kept |
| `Adjacency.AddEdgeShape` | SimpleDirectedGraph/Digraph.cs:58-70 | keys become the old keys plus origin and destination; the edge is appended at the end of the origin's list, or forms a singleton list; an existing destination list is kept and a new one is empty; other lists are unchanged; afterwards an edge from origin to destination exists |
| `Adjacency.AddEdgeCounts` | SimpleDirectedGraph/Digraph.cs:52-71 | the edge total grows by exactly one; the node count grows by at most two, and by at most one for a self-loop, which is accepted |
| `Adjacency.AddEdgeWellFormed` | SimpleDirectedGraph/Digraph.cs:52-71 | adding an edge keeps both invariants |
| `Adjacency.AddEdgeTwice` | SimpleDirectedGraph/Digraph.cs:58-61 | no duplicate check: adding the same edge twice leaves it twice at the end of the origin's list |
| `Adjacency.RemoveNodeShape` | SimpleDirectedGraph/Digraph.cs:80-88 | a present node stops being a key and its list is gone; all other keys remain; no edge into it remains anywhere; a list that had no edge into the node is unchanged |
| `Adjacency.RemoveNodeKeepsEdges` | SimpleDirectedGraph/Digraph.cs:85-88 | in every other list, each edge into the removed node loses all its copies and every other edge keeps all of its copies |
| `Adjacency.RemoveNodeCounts` | SimpleDirectedGraph/Digraph.cs:80-88 | removing a present node removes at least its own outgoing edges from the edge total |
| `Adjacency.RemoveNodeWellFormed` | SimpleDirectedGraph/Digraph.cs:76-89 | removing a node keeps both invariants |
| `Adjacency.RemoveEdgeShape` | SimpleDirectedGraph/Digraph.cs:94-109 | keys are unchanged; only the origin's list changes, and it loses exactly one copy of the edge; without a match, including an absent origin, the map is unchanged; an edge stored once is gone afterwards |
| `Adjacency.RemoveEdgeCounts` | SimpleDirectedGraph/Digraph.cs:94-109 | the edge total drops by exactly one when a match exists and is unchanged otherwise; the node count never changes |
| `Adjacency.RemoveEdgeWellFormed` | SimpleDirectedGraph/Digraph.cs:94-109 | removing an edge keeps both invariants |
| `Digraphs.Digraph.constructor` | SimpleDirectedGraph/Digraph.cs:13 | a new graph is empty and valid |
| `Digraphs.Digraph.NodeCount` | SimpleDirectedGraph/Digraph.cs:18-19 | the node count is the number of nodes `GetNodes` yields, and zero exactly for the empty graph |
| `Digraphs.Digraph.EdgeCount` | SimpleDirectedGraph/Digraph.cs:24-37 | the accumulating loop returns the sum of all list lengths, which is zero exactly when every list is empty |
| `Digraphs.Digraph.AddNode` | SimpleDirectedGraph/Digraph.cs:42-46 | the new map is `WithNode` of the old one: the node becomes a key, an existing node leaves the map unchanged, and the invariants are kept |
| `Digraphs.Digraph.AddEdge` | SimpleDirectedGraph/Digraph.cs:52-71 | the new map is `WithEdge` of the old one: the edge ends the origin's list, the destination is a key, other lists are unchanged, and the invariants are kept |
| `Digraphs.Digraph.TryRemoveNode` | SimpleDirectedGraph/Digraph.cs:76-89 | the new map is `WithoutNode` of the old one: the node is gone, all other keys remain, every list is purged of edges into it, an absent node is a no-op, and the invariants are kept |
| `Digraphs.Digraph.TryRemoveEdge` | SimpleDirectedGraph/Digraph.cs:94-109 | the new map is `WithoutEdge` of the old one: the early-exit scan removes the first equal edge, keys are unchanged, no match is a no-op, and the invariants are kept |
| `Digraphs.Digraph.ContainsNode` | SimpleDirectedGraph/Digraph.cs:114-115 | true exactly for the nodes `GetNodes` yields; a node that is not contained has no outgoing edges |
| `Digraphs.Digraph.ContainsEdge` | SimpleDirectedGraph/Digraph.cs:120-134 | true exactly when the origin is a node and one of its edges ends at the destination; false, not an error, for an absent origin |
| `Digraphs.Digraph.GetNodes` | SimpleDirectedGraph/Digraph.cs:139-140 | yields the key set; in a valid graph this includes both endpoints of every stored edge |
| `Digraphs.Digraph.GetOutgoingEdges` | SimpleDirectedGraph/Digraph.cs:145-153 | yields the node's list in stored order, or nothing for an absent node; in a valid graph each yielded edge starts at the node and ends at a node |

## Left out

- Null checks and the `ArgumentNullException` / `ArgumentException` throws (SimpleDirectedGraph/Digraph.cs:44, 56, 78, 96, 122-123, 147): Dafny values are never null, so these paths do not exist in the model.
- `GetNodes` and `GetOutgoingEdges` are lazy, live enumerations in the source; the model returns a snapshot (a set of keys, a copied sequence).
- Dictionary hashing and key iteration order: `GetNodes` is a set with no order, and the loops in `EdgeCount` and `TryRemoveNode` visit keys in an arbitrary order.
- The edge abstraction is a fixed datatype rather than any type implementing `IEdge`; `virtual` dispatch and C# generic constraints are not modelled.
- Digraphs.Digraph.EdgeCount: does not model 32-bit overflow of the `int` counter; counts are unbounded.
- Digraphs.Digraph.NodeCount: does not model the `int` width of the dictionary count.
- Adjacency.RemoveNodeCounts: states only an upper bound on the new edge total (the node's own edges are lost), not the exact number of edges into the node removed from other lists.
