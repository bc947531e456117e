/**
 The adjacency map of the graph as a value: each node key maps to the list of
 its outgoing edges. This module gives the abstract effect of every graph
 operation on that map, the graph's two structural invariants, the edge total,
 and what each operation preserves.
 */
module Adjacency {
  import opened Edges
  import opened EdgeLists

  /** Node -> outgoing edges, in insertion order. */
  type AdjacencyMap<N> = map<N, seq<Edge<N>>>

  /** The two invariants of the store: every edge listed under key `k` starts
      at `k`, and every edge ends at a node that is itself a key. */
  ghost predicate WellFormed<N>(m: AdjacencyMap<N>)
  {
    && (forall k, i :: k in m && 0 <= i < |m[k]| ==> m[k][i].origin == k)
    && (forall k, i :: k in m && 0 <= i < |m[k]| ==> m[k][i].destination in m)
  }

  /** The outgoing list of `n`, empty when `n` is not a key. */
  function Outgoing<N>(m: AdjacencyMap<N>, n: N): seq<Edge<N>>
  {
    if n in m then m[n] else []
  }

  /** Some edge in `s` ends at `n`. */
  ghost predicate ListHasEdgeInto<N>(s: seq<Edge<N>>, n: N)
  {
    exists i :: 0 <= i < |s| && s[i].destination == n
  }

  /** Some stored edge ends at `n`. */
  ghost predicate HasEdgeInto<N>(m: AdjacencyMap<N>, n: N)
  {
    exists k :: k in m && ListHasEdgeInto(m[k], n)
  }

  /** `o` is a key and one of its outgoing edges ends at `d`. */
  ghost predicate HasEdge<N>(m: AdjacencyMap<N>, o: N, d: N)
  {
    o in m && ListHasEdgeInto(m[o], d)
  }

  /** Effect of AddNode: insert `n` with no edges unless it is already a key. */
  ghost function WithNode<N>(m: AdjacencyMap<N>, n: N): AdjacencyMap<N>
  {
    if n in m then m else m[n := []]
  }

  /** Effect of AddEdge: append `e` to its origin's list (a new list when the
      origin is absent), then add the destination as a node. */
  ghost function WithEdge<N>(m: AdjacencyMap<N>, e: Edge<N>): AdjacencyMap<N>
  {
    WithNode(m[e.origin := Outgoing(m, e.origin) + [e]], e.destination)
  }

  /** Effect of TryRemoveNode: nothing when `n` is absent; otherwise drop the
      key `n` and purge every remaining list of the edges into `n`. */
  ghost function WithoutNode<N>(m: AdjacencyMap<N>, n: N): AdjacencyMap<N>
  {
    if n !in m then m else map k | k in m && k != n :: Purge(m[k], n)
  }

  /** Effect of TryRemoveEdge: remove the first edge equal to `e` from the list
      of `e`'s origin; nothing when the origin is absent. */
  ghost function WithoutEdge<N>(m: AdjacencyMap<N>, e: Edge<N>): AdjacencyMap<N>
  {
    if e.origin in m then m[e.origin := RemoveFirst(m[e.origin], e)] else m
  }

  /** Sum of the lengths of the lists of the given keys. */
  ghost function SumLengths<N>(m: AdjacencyMap<N>, keys: set<N>): nat
    requires keys <= m.Keys
    decreases keys
  {
    if keys == {} then 0
    else
      var k :| k in keys;
      |m[k]| + SumLengths(m, keys - {k})
  }

  /** The number of edges stored in the graph. */
  ghost function TotalEdges<N>(m: AdjacencyMap<N>): nat
  {
    SumLengths(m, m.Keys)
  }

  // ---------------------------------------------------------------------------
  // The edge total

  /** The sum does not depend on which key is taken out first. */
  lemma {:induction false} SumLengthsPick<N>(m: AdjacencyMap<N>, keys: set<N>, x: N)
    requires keys <= m.Keys && x in keys
    ensures SumLengths(m, keys) == |m[x]| + SumLengths(m, keys - {x})
    decreases keys
  {
    var y :| y in keys && SumLengths(m, keys) == |m[y]| + SumLengths(m, keys - {y});
    if y != x {
      SumLengthsPick(m, keys - {y}, x);
      SumLengthsPick(m, keys - {x}, y);
      assert keys - {y} - {x} == keys - {x} - {y};
    }
  }

  /** Lists that are no longer key by key give a sum that is no larger. */
  lemma {:induction false} SumLengthsMono<N>(m1: AdjacencyMap<N>, m2: AdjacencyMap<N>, keys: set<N>)
    requires keys <= m1.Keys && keys <= m2.Keys
    requires forall k :: k in keys ==> |m1[k]| <= |m2[k]|
    ensures SumLengths(m1, keys) <= SumLengths(m2, keys)
    decreases keys
  {
    if keys != {} {
      var x :| x in keys;
      SumLengthsPick(m1, keys, x);
      SumLengthsPick(m2, keys, x);
      SumLengthsMono(m1, m2, keys - {x});
    }
  }

  /** Replacing one list changes the total by the difference in length. */
  lemma TotalEdgesUpdate<N>(m: AdjacencyMap<N>, k: N, s: seq<Edge<N>>)
    ensures TotalEdges(m[k := s]) == TotalEdges(m) - |Outgoing(m, k)| + |s|
  {
    var m' := m[k := s];
    SumLengthsPick(m', m'.Keys, k);
    assert m'.Keys - {k} == m.Keys - {k};
    SumLengthsMono(m, m', m.Keys - {k});
    SumLengthsMono(m', m, m.Keys - {k});
    if k in m {
      SumLengthsPick(m, m.Keys, k);
    } else {
      assert m.Keys - {k} == m.Keys;
    }
  }

  /** The graph holds no edge exactly when every list is empty. */
  lemma {:induction false} TotalEdgesZero<N>(m: AdjacencyMap<N>)
    ensures TotalEdges(m) == 0 <==> forall k :: k in m ==> m[k] == []
  {
    if k :| k in m && m[k] != [] {
      SumLengthsPick(m, m.Keys, k);
    } else {
      var empty := map k | k in m :: [];
      SumLengthsMono(m, empty, m.Keys);
      EmptyListsSumZero(empty, m.Keys);
    }
  }

  lemma {:induction false} EmptyListsSumZero<N>(m: AdjacencyMap<N>, keys: set<N>)
    requires keys <= m.Keys
    requires forall k :: k in keys ==> m[k] == []
    ensures SumLengths(m, keys) == 0
    decreases keys
  {
    if keys != {} {
      var x :| x in keys;
      SumLengthsPick(m, keys, x);
      EmptyListsSumZero(m, keys - {x});
    }
  }

  // ---------------------------------------------------------------------------
  // AddNode

  /** AddNode makes `n` a key; it is an upsert that never resets an existing
      list, adds no edge and keeps the invariants. */
  lemma AddNodeSpec<N>(m: AdjacencyMap<N>, n: N)
    ensures n in WithNode(m, n) && WithNode(m, n).Keys == m.Keys + {n}
    ensures n in m ==> WithNode(m, n) == m
    ensures n !in m ==> WithNode(m, n)[n] == [] && |WithNode(m, n)| == |m| + 1
    ensures forall k :: k in m ==> WithNode(m, n)[k] == m[k]
    ensures TotalEdges(WithNode(m, n)) == TotalEdges(m)
    ensures WellFormed(m) ==> WellFormed(WithNode(m, n))
  {
    if n !in m {
      TotalEdgesUpdate(m, n, []);
    }
  }

  // ---------------------------------------------------------------------------
  // AddEdge

  /** AddEdge appends `e` to the end of its origin's list (a singleton list for
      a new origin), makes the destination a key without touching an existing
      destination list, and leaves every other list alone. */
  lemma AddEdgeShape<N>(m: AdjacencyMap<N>, e: Edge<N>)
    ensures WithEdge(m, e).Keys == m.Keys + {e.origin, e.destination}
    ensures WithEdge(m, e)[e.origin] == Outgoing(m, e.origin) + [e]
    ensures e.destination != e.origin && e.destination in m ==>
              WithEdge(m, e)[e.destination] == m[e.destination]
    ensures e.destination != e.origin && e.destination !in m ==>
              WithEdge(m, e)[e.destination] == []
    ensures forall k :: k in m && k != e.origin ==> WithEdge(m, e)[k] == m[k]
    ensures HasEdge(WithEdge(m, e), e.origin, e.destination)
  {
    var r: AdjacencyMap<N> := WithEdge(m, e);
    assert r[e.origin][|r[e.origin]| - 1] == e;
  }

  /** AddEdge adds exactly one edge and at most two nodes (one for a self-loop). */
  lemma AddEdgeCounts<N>(m: AdjacencyMap<N>, e: Edge<N>)
    ensures TotalEdges(WithEdge(m, e)) == TotalEdges(m) + 1
    ensures |m| <= |WithEdge(m, e)| <= |m| + 2
    ensures e.origin == e.destination ==> |WithEdge(m, e)| <= |m| + 1
  {
    var m1 := m[e.origin := Outgoing(m, e.origin) + [e]];
    TotalEdgesUpdate(m, e.origin, Outgoing(m, e.origin) + [e]);
    AddNodeSpec(m1, e.destination);
    assert m1.Keys == m.Keys + {e.origin};
    assert |m1| <= |m| + 1 by {
      if e.origin in m { assert m1.Keys == m.Keys; }
    }
  }

  /** AddEdge keeps both invariants. */
  lemma AddEdgeWellFormed<N>(m: AdjacencyMap<N>, e: Edge<N>)
    requires WellFormed(m)
    ensures WellFormed(WithEdge(m, e))
  {
  }

  /** No duplicate check: adding the same edge twice stores it twice. */
  lemma AddEdgeTwice<N>(m: AdjacencyMap<N>, e: Edge<N>)
    ensures WithEdge(WithEdge(m, e), e)[e.origin] == Outgoing(m, e.origin) + [e, e]
  {
  }

  // ---------------------------------------------------------------------------
  // TryRemoveNode

  /** Removing a present node drops it and its own list, keeps every other key
      and leaves no edge into it; a list with no edge into the node is
      unchanged. */
  lemma RemoveNodeShape<N>(m: AdjacencyMap<N>, n: N)
    requires n in m
    ensures WithoutNode(m, n).Keys == m.Keys - {n}
    ensures |WithoutNode(m, n)| == |m| - 1
    ensures !HasEdgeInto(WithoutNode(m, n), n)
    ensures forall k :: k in m && k != n && !ListHasEdgeInto(m[k], n) ==>
              WithoutNode(m, n)[k] == m[k]
  {
    var r := WithoutNode(m, n);
    assert r.Keys == m.Keys - {n};
    forall k | k in m && k != n && !ListHasEdgeInto(m[k], n)
      ensures r[k] == m[k]
    {
      PurgeNoMatch(m[k], n);
    }
  }

  /** In every other list, removing node `n` deletes all copies of the edges
      into `n` and keeps every copy of every other edge. */
  lemma RemoveNodeKeepsEdges<N>(m: AdjacencyMap<N>, n: N, k: N, x: Edge<N>)
    requires n in m && k in m && k != n
    ensures multiset(WithoutNode(m, n)[k])[x]
            == if x.destination == n then 0 else multiset(m[k])[x]
  {
    var r := WithoutNode(m, n)[k];
    if x.destination == n {
      assert x !in r;
    } else {
      PurgeMultiset(m[k], n, x);
    }
  }

  /** Map extensionality for `WithoutNode`, used to close TryRemoveNode's loop. */
  lemma RemoveNodeResult<N>(m: AdjacencyMap<N>, n: N, r: AdjacencyMap<N>)
    requires n in m && r.Keys == m.Keys - {n}
    requires forall k :: k in r ==> r[k] == Purge(m[k], n)
    ensures r == WithoutNode(m, n)
  {
  }

  /** Removing a node loses at least its own outgoing edges. */
  lemma RemoveNodeCounts<N>(m: AdjacencyMap<N>, n: N)
    requires n in m
    ensures TotalEdges(WithoutNode(m, n)) <= TotalEdges(m) - |m[n]|
  {
    var r: AdjacencyMap<N> := WithoutNode(m, n);
    assert r.Keys == m.Keys - {n};
    SumLengthsPick(m, m.Keys, n);
    SumLengthsMono(r, m, m.Keys - {n});
  }

  /** TryRemoveNode keeps both invariants. */
  lemma RemoveNodeWellFormed<N>(m: AdjacencyMap<N>, n: N)
    requires WellFormed(m)
    ensures WellFormed(WithoutNode(m, n))
  {
  }

  // ---------------------------------------------------------------------------
  // TryRemoveEdge

  /** TryRemoveEdge touches only the list of `e`'s origin, where it removes one
      occurrence of `e`: the first, as `RemoveFirstAt` shows. Without a match,
      including when the origin is absent, nothing changes. */
  lemma RemoveEdgeShape<N>(m: AdjacencyMap<N>, e: Edge<N>)
    ensures WithoutEdge(m, e).Keys == m.Keys
    ensures forall k :: k in m && k != e.origin ==> WithoutEdge(m, e)[k] == m[k]
    ensures e !in Outgoing(m, e.origin) ==> WithoutEdge(m, e) == m
    ensures multiset(Outgoing(WithoutEdge(m, e), e.origin))
            == multiset(Outgoing(m, e.origin)) - multiset{e}
    ensures multiset(Outgoing(m, e.origin))[e] <= 1 ==> e !in Outgoing(WithoutEdge(m, e), e.origin)
  {
    if e.origin in m {
      var s := m[e.origin];
      var r := RemoveFirst(s, e);
      RemoveFirstMultiset(s, e);
      if e !in s {
        assert m[e.origin := r] == m;
      }
      if multiset(s)[e] <= 1 {
        assert multiset(r)[e] == 0;
      }
    }
  }

  /** TryRemoveEdge removes exactly one edge when a match exists and none
      otherwise; it never changes the node count. */
  lemma RemoveEdgeCounts<N>(m: AdjacencyMap<N>, e: Edge<N>)
    ensures TotalEdges(WithoutEdge(m, e))
            == TotalEdges(m) - (if e in Outgoing(m, e.origin) then 1 else 0)
    ensures |WithoutEdge(m, e)| == |m|
  {
    if e.origin in m {
      TotalEdgesUpdate(m, e.origin, RemoveFirst(m[e.origin], e));
      assert WithoutEdge(m, e).Keys == m.Keys;
    }
  }

  /** TryRemoveEdge keeps both invariants. */
  lemma RemoveEdgeWellFormed<N>(m: AdjacencyMap<N>, e: Edge<N>)
    requires WellFormed(m)
    ensures WellFormed(WithoutEdge(m, e))
  {
    var r: AdjacencyMap<N> := WithoutEdge(m, e);
    forall k: N, i: int | k in r && 0 <= i < |r[k]|
      ensures r[k][i].origin == k && r[k][i].destination in r
    {
      var x := r[k][i];
      if k == e.origin {
        RemoveFirstMultiset(m[k], e);
        assert x in multiset(r[k]);
      }
      assert x in m[k];
    }
  }
}
