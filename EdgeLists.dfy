/**
 The two in-place edits the graph makes to one outgoing-edge list, as functions
 from the list before to the list after: removing every edge into a node, and
 removing the first edge equal to a given one.
 */
module EdgeLists {
  import opened Edges

  /** `s` without the edges whose destination is `n`, the others kept in their
      order; what `RemoveAll(x => x.Destination.Equals(n))` leaves in the list. */
  function Purge<N(==)>(s: seq<Edge<N>>, n: N): (r: seq<Edge<N>>)
    ensures |r| <= |s|
    ensures forall i :: 0 <= i < |r| ==> r[i] in s && r[i].destination != n
  {
    if s == [] then []
    else
      assert s == [s[0]] + s[1..];
      if s[0].destination == n then Purge(s[1..], n)
      else [s[0]] + Purge(s[1..], n)
  }

  /** Purging keeps every copy of every edge that does not end at `n`. */
  lemma {:induction false} PurgeMultiset<N>(s: seq<Edge<N>>, n: N, x: Edge<N>)
    requires x.destination != n
    ensures multiset(Purge(s, n))[x] == multiset(s)[x]
  {
    if s != [] {
      assert s == [s[0]] + s[1..];
      PurgeMultiset(s[1..], n, x);
    }
  }

  /** Purging distributes over concatenation: the surviving edges keep their
      relative order. */
  lemma {:induction false} PurgeAppend<N>(a: seq<Edge<N>>, b: seq<Edge<N>>, n: N)
    ensures Purge(a + b, n) == Purge(a, n) + Purge(b, n)
  {
    if a == [] {
      assert a + b == b;
    } else {
      assert (a + b)[1..] == a[1..] + b;
      PurgeAppend(a[1..], b, n);
    }
  }

  /** A list with no edge into `n` is left exactly as it was. */
  lemma {:induction false} PurgeNoMatch<N>(s: seq<Edge<N>>, n: N)
    requires forall i :: 0 <= i < |s| ==> s[i].destination != n
    ensures Purge(s, n) == s
  {
    if s != [] {
      PurgeNoMatch(s[1..], n);
    }
  }

  /** `s` without its first element equal to `e`, or `s` itself when no element
      is; what `List.Remove(e)` leaves in the list. */
  function RemoveFirst<N(==)>(s: seq<Edge<N>>, e: Edge<N>): (r: seq<Edge<N>>)
    ensures e in s ==> |r| == |s| - 1
    ensures e !in s ==> r == s
  {
    if s == [] then []
    else
      assert s == [s[0]] + s[1..];
      if s[0] == e then s[1..]
      else [s[0]] + RemoveFirst(s[1..], e)
  }

  /** Removing the first `e` takes exactly one copy of `e` out of the list, if
      there is one, and leaves the count of every other edge unchanged. */
  lemma {:induction false} RemoveFirstMultiset<N>(s: seq<Edge<N>>, e: Edge<N>)
    ensures multiset(RemoveFirst(s, e)) == multiset(s) - multiset{e}
  {
    if s != [] {
      assert s == [s[0]] + s[1..];
      if s[0] != e {
        RemoveFirstMultiset(s[1..], e);
      }
    }
  }

  /** When `i` is the first position holding `e`, removing the first `e` removes
      exactly position `i` and keeps everything else in order. */
  lemma {:induction false} RemoveFirstAt<N>(s: seq<Edge<N>>, e: Edge<N>, i: nat)
    requires i < |s| && s[i] == e
    requires forall j :: 0 <= j < i ==> s[j] != e
    ensures RemoveFirst(s, e) == s[..i] + s[i + 1..]
  {
    if i == 0 {
      assert s[..i] + s[i + 1..] == s[1..];
    } else {
      var t := s[1..];
      assert s[0] != e;
      forall j | 0 <= j < i - 1 ensures t[j] != e {
        assert t[j] == s[j + 1];
      }
      RemoveFirstAt(t, e, i - 1);
      calc {
        RemoveFirst(s, e);
        [s[0]] + RemoveFirst(t, e);
        [s[0]] + (t[..i - 1] + t[i..]);
        { assert s[..i] == [s[0]] + t[..i - 1]; assert s[i + 1..] == t[i..]; }
        s[..i] + s[i + 1..];
      }
    }
  }
}
