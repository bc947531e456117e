/**
 The directed graph store (SimpleDirectedGraph/Digraph.cs): a class whose only
 state is the adjacency map, updated in place by the mutators. Every mutator is
 proved to leave the map equal to the matching function of `Adjacency` applied
 to the old map, and to keep the two structural invariants.
 */
module Digraphs {
  import opened Edges
  import opened EdgeLists
  import opened Adjacency

  class Digraph<N(==)> {
    /** Each node key with its outgoing edges in insertion order. */
    var adj: map<N, seq<Edge<N>>>

    /** Every listed edge starts at its key and ends at a key. */
    ghost predicate Valid()
      reads this
    {
      WellFormed(adj)
    }

    /** A new graph has no nodes and no edges. */
    constructor ()
      ensures Valid() && adj == map[]
    {
      adj := map[];
    }

    /** The number of nodes; zero exactly when the graph is empty. */
    function NodeCount(): (c: nat)
      reads this
      ensures c == |GetNodes()|
      ensures c == 0 <==> adj == map[]
    {
      |adj|
    }

    /** The number of edges, summed list by list over all nodes. */
    method EdgeCount() returns (count: nat)
      ensures count == TotalEdges(adj)
      ensures count == 0 <==> forall k :: k in adj ==> adj[k] == []
    {
      count := 0;
      var rest := adj.Keys;
      while rest != {}
        invariant rest <= adj.Keys
        invariant count + SumLengths(adj, rest) == TotalEdges(adj)
        decreases rest
      {
        var k :| k in rest;
        SumLengthsPick(adj, rest, k);
        count := count + |adj[k]|;
        rest := rest - {k};
      }
      TotalEdgesZero(adj);
    }

    /** Adds `n` with no outgoing edges unless it is already a node. */
    method AddNode(n: N)
      modifies this
      ensures adj == WithNode(old(adj), n)
      ensures n in adj && adj.Keys == old(adj).Keys + {n}
      ensures n in old(adj) ==> adj == old(adj)
      ensures old(Valid()) ==> Valid()
    {
      if n !in adj {
        adj := adj[n := []];
      }
      AddNodeSpec(old(adj), n);
    }

    /** Appends `e` to its origin's list, creating the origin if needed, then
        adds the destination as a node if it is not one. */
    method AddEdge(e: Edge<N>)
      requires Valid()
      modifies this
      ensures Valid()
      ensures adj == WithEdge(old(adj), e)
      ensures adj[e.origin] == Outgoing(old(adj), e.origin) + [e]
      ensures e.destination in adj
      ensures forall k :: k in old(adj) && k != e.origin ==> adj[k] == old(adj)[k]
    {
      if e.origin in adj {
        adj := adj[e.origin := adj[e.origin] + [e]];
      } else {
        assert Outgoing(adj, e.origin) + [e] == [e];
        adj := adj[e.origin := [e]];
      }
      ghost var appended := adj;
      assert appended == old(adj)[e.origin := Outgoing(old(adj), e.origin) + [e]];
      if e.destination !in adj {
        AddNode(e.destination);
      }
      assert adj == WithNode(appended, e.destination);
      AddEdgeShape(old(adj), e);
      AddEdgeWellFormed(old(adj), e);
    }

    /** Removes `n` and its own list, then removes every edge into `n` from the
        remaining lists; a silent no-op when `n` is not a node. */
    method TryRemoveNode(n: N)
      requires Valid()
      modifies this
      ensures Valid()
      ensures adj == WithoutNode(old(adj), n)
      ensures n !in adj && adj.Keys == old(adj).Keys - {n}
      ensures n !in old(adj) ==> adj == old(adj)
    {
      if n !in adj {
        return;
      }
      adj := adj - {n};
      var rest := adj.Keys;
      while rest != {}
        invariant rest <= adj.Keys
        invariant adj.Keys == old(adj).Keys - {n}
        invariant forall k :: k in adj && k !in rest ==> adj[k] == Purge(old(adj)[k], n)
        invariant forall k :: k in rest ==> adj[k] == old(adj)[k]
        decreases rest
      {
        var k :| k in rest;
        adj := adj[k := Purge(adj[k], n)];
        rest := rest - {k};
      }
      RemoveNodeResult(old(adj), n, adj);
      RemoveNodeWellFormed(old(adj), n);
    }

    /** Removes the first edge equal to `e` from the list of `e`'s origin; a
        silent no-op when there is no such edge or no such origin. */
    method TryRemoveEdge(e: Edge<N>)
      requires Valid()
      modifies this
      ensures Valid()
      ensures adj == WithoutEdge(old(adj), e)
      ensures adj.Keys == old(adj).Keys
      ensures e !in Outgoing(old(adj), e.origin) ==> adj == old(adj)
    {
      if e.origin !in adj {
        return;
      }
      var edges := adj[e.origin];
      var i := 0;
      while i < |edges|
        invariant 0 <= i <= |edges|
        invariant forall j :: 0 <= j < i ==> edges[j] != e
        invariant adj == old(adj)
      {
        if edges[i] == e {
          RemoveFirstAt(edges, e, i);
          RemoveEdgeWellFormed(adj, e);
          adj := adj[e.origin := edges[..i] + edges[i + 1..]];
          return;
        }
        i := i + 1;
      }
      assert e !in edges;
    }

    /** Whether `n` is a node. */
    function ContainsNode(n: N): (b: bool)
      reads this
      ensures b <==> n in GetNodes()
      ensures !b ==> Outgoing(adj, n) == []
    {
      n in adj
    }

    /** Whether `o` is a node with an outgoing edge ending at `d`; false, not an
        error, when `o` is not a node. */
    method ContainsEdge(o: N, d: N) returns (found: bool)
      ensures found <==> HasEdge(adj, o, d)
    {
      if o !in adj {
        return false;
      }
      var edges := adj[o];
      var i := 0;
      while i < |edges|
        invariant 0 <= i <= |edges|
        invariant forall j :: 0 <= j < i ==> edges[j].destination != d
      {
        if edges[i].destination == d {
          return true;
        }
        i := i + 1;
      }
      return false;
    }

    /** All nodes, without an order; in a valid graph this includes every
        endpoint of every stored edge. */
    function GetNodes(): (nodes: set<N>)
      reads this
      ensures nodes == adj.Keys
      ensures Valid() ==> forall k, i :: k in adj && 0 <= i < |adj[k]| ==>
                            adj[k][i].origin in nodes && adj[k][i].destination in nodes
    {
      adj.Keys
    }

    /** A copy of the outgoing edges of `n` in stored order, empty when `n` is
        not a node; in a valid graph each starts at `n` and ends at a node. */
    method GetOutgoingEdges(n: N) returns (edges: seq<Edge<N>>)
      ensures edges == Outgoing(adj, n)
      ensures Valid() ==> forall i :: 0 <= i < |edges| ==>
                            edges[i].origin == n && edges[i].destination in adj
    {
      edges := [];
      if n !in adj {
        return;
      }
      var stored := adj[n];
      var i := 0;
      while i < |stored|
        invariant 0 <= i <= |stored|
        invariant edges == stored[..i]
      {
        edges := edges + [stored[i]];
        i := i + 1;
      }
      assert stored[..i] == stored;
    }
  }

  /** An empty graph given one edge A -> B has two nodes and one edge, an edge
      from A to B and none from B to A. */
  method SingleEdgeExample()
  {
    var g := new Digraph<int>();
    var ab := Edge(0, 1, 2);
    g.AddEdge(ab);
    AddEdgeShape(map[], ab);
    AddEdgeCounts(map[], ab);
    assert g.NodeCount() == 2;
    var count := g.EdgeCount();
    assert count == 1;
    var forward := g.ContainsEdge(1, 2);
    assert forward;
    var backward := g.ContainsEdge(2, 1);
    assert g.adj[2] == [];
    assert !backward;
  }

  /** Edges A -> B, A -> C, A -> D; removing A leaves B, C and D and no edge. */
  method RemoveHubExample()
  {
    var g := new Digraph<int>();
    g.AddEdge(Edge(0, 1, 2));
    g.AddEdge(Edge(1, 1, 3));
    g.AddEdge(Edge(2, 1, 4));
    assert g.adj.Keys == {1, 2, 3, 4};
    g.TryRemoveNode(1);
    assert g.adj.Keys == {2, 3, 4};
    assert g.NodeCount() == 3;
    assert g.adj[2] == [] && g.adj[3] == [] && g.adj[4] == [];
    var count := g.EdgeCount();
    assert count == 0;
  }
}
