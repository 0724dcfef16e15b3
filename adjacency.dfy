/**
  The adjacency lists of PrimSparse.cs's Graph as values. The source keeps,
  for each vertex 1..V, a singly linked list of Node records (vertex, wgt)
  ending at a shared sentinel z; here each list is a sequence of Neighbour
  records, head first, and slot 0 (unused by the source) holds an empty list.
*/
module Adjacency {

  /** One Node of an adjacency list: the vertex at the other end and the edge weight. */
  datatype Neighbour = Neighbour(vertex: int, wgt: int)

  /** One line of the graph file after parsing: an undirected edge u--v of weight wgt. */
  datatype WeightedEdge = WeightedEdge(u: int, v: int, wgt: int)

  /** Every list starts at the sentinel, i.e. empty (PrimSparse.cs:168-170). */
  function EmptyAdj(V: nat): (adj: seq<seq<Neighbour>>)
    ensures |adj| == V + 1
    ensures forall x :: 0 <= x <= V ==> adj[x] == []
  {
    seq(V + 1, _ => [])
  }

  /** Both endpoints of e are vertices that have a list. */
  predicate Fits(adj: seq<seq<Neighbour>>, e: WeightedEdge)
  {
    1 <= e.u < |adj| && 1 <= e.v < |adj|
  }

  /**
    PrimSparse.cs:186-197: the record (u, wgt) is pushed on the front of v's
    list, then (v, wgt) on the front of u's list; every other list is kept.
    A self-loop pushes both records on the same list.
  */
  function AddEdge(adj: seq<seq<Neighbour>>, e: WeightedEdge): (r: seq<seq<Neighbour>>)
    requires Fits(adj, e)
    ensures |r| == |adj|
    ensures forall x :: 0 <= x < |adj| && x != e.u && x != e.v ==> r[x] == adj[x]
    ensures e.u != e.v ==> r[e.v] == [Neighbour(e.u, e.wgt)] + adj[e.v]
    ensures e.u != e.v ==> r[e.u] == [Neighbour(e.v, e.wgt)] + adj[e.u]
    ensures e.u == e.v ==> r[e.u] == [Neighbour(e.u, e.wgt), Neighbour(e.u, e.wgt)] + adj[e.u]
  {
    var a := adj[e.v := [Neighbour(e.u, e.wgt)] + adj[e.v]];
    a[e.u := [Neighbour(e.v, e.wgt)] + a[e.u]]
  }

  /** Every edge joins two vertices of 1..V. */
  predicate EdgesFit(V: nat, edges: seq<WeightedEdge>)
  {
    forall i :: 0 <= i < |edges| ==> 1 <= edges[i].u <= V && 1 <= edges[i].v <= V
  }

  /** The lists after the edges have been read in order (PrimSparse.cs:168-170, 186-197). */
  function BuildAdj(V: nat, edges: seq<WeightedEdge>): (adj: seq<seq<Neighbour>>)
    requires EdgesFit(V, edges)
    ensures |adj| == V + 1
    decreases |edges|
  {
    if |edges| == 0 then EmptyAdj(V)
    else AddEdge(BuildAdj(V, edges[..|edges| - 1]), edges[|edges| - 1])
  }

  /** The number of records over all lists. */
  function TotalSize(adj: seq<seq<Neighbour>>): nat
  {
    if |adj| == 0 then 0 else TotalSize(adj[..|adj| - 1]) + |adj[|adj| - 1]|
  }

  /** Replacing one list changes the total by the difference in that list's length. */
  lemma {:induction false} TotalSizeUpdate(adj: seq<seq<Neighbour>>, x: int, l: seq<Neighbour>)
    requires 0 <= x < |adj|
    ensures TotalSize(adj[x := l]) == TotalSize(adj) - |adj[x]| + |l|
    decreases |adj|
  {
    var n := |adj| - 1;
    if x < n {
      assert adj[x := l][..n] == adj[..n][x := l];
      TotalSizeUpdate(adj[..n], x, l);
    } else {
      assert adj[x := l][..n] == adj[..n];
    }
  }

  /** Lists that are all empty hold no record. */
  lemma {:induction false} TotalSizeEmpty(V: nat)
    ensures TotalSize(EmptyAdj(V)) == 0
  {
    var adj := EmptyAdj(V);
    var k := 0;
    while k < |adj|
      invariant 0 <= k <= |adj|
      invariant TotalSize(adj[..k]) == 0
    {
      assert adj[..k + 1][..k] == adj[..k];
      k := k + 1;
    }
    assert adj[..|adj|] == adj;
  }

  /** After E edges the lists hold exactly 2E records: duplicates are kept, a self-loop adds two. */
  lemma {:induction false} RecordCount(V: nat, edges: seq<WeightedEdge>)
    requires EdgesFit(V, edges)
    ensures TotalSize(BuildAdj(V, edges)) == 2 * |edges|
    decreases |edges|
  {
    if |edges| == 0 {
      TotalSizeEmpty(V);
    } else {
      var prefix := edges[..|edges| - 1];
      var e := edges[|edges| - 1];
      var adj := BuildAdj(V, prefix);
      RecordCount(V, prefix);
      var a := adj[e.v := [Neighbour(e.u, e.wgt)] + adj[e.v]];
      TotalSizeUpdate(adj, e.v, [Neighbour(e.u, e.wgt)] + adj[e.v]);
      TotalSizeUpdate(a, e.u, [Neighbour(e.v, e.wgt)] + a[e.u]);
    }
  }

  /**
    How many records Neighbour(y, w) the edges put on x's list: an edge u--v
    of weight w puts one on v's list for u and one on u's list for v.
  */
  function Count(edges: seq<WeightedEdge>, x: int, y: int, w: int): nat
  {
    if |edges| == 0 then 0
    else
      var e := edges[|edges| - 1];
      Count(edges[..|edges| - 1], x, y, w)
      + (if e.v == x && e.u == y && e.wgt == w then 1 else 0)
      + (if e.u == x && e.v == y && e.wgt == w then 1 else 0)
  }

  /** x's list holds Neighbour(y, w) exactly as many times as the edges say. */
  lemma {:induction false} Multiplicity(V: nat, edges: seq<WeightedEdge>, x: int, y: int, w: int)
    requires EdgesFit(V, edges) && 0 <= x <= V
    ensures multiset(BuildAdj(V, edges)[x])[Neighbour(y, w)] == Count(edges, x, y, w)
    decreases |edges|
  {
    if |edges| > 0 {
      Multiplicity(V, edges[..|edges| - 1], x, y, w);
    }
  }

  /** The lists are symmetric: y appears on x's list with weight w as often as x on y's. */
  lemma LinksAreSymmetric(V: nat, edges: seq<WeightedEdge>, x: int, y: int, w: int)
    requires EdgesFit(V, edges) && 0 <= x <= V && 0 <= y <= V
    ensures multiset(BuildAdj(V, edges)[x])[Neighbour(y, w)] == multiset(BuildAdj(V, edges)[y])[Neighbour(x, w)]
  {
    Multiplicity(V, edges, x, y, w);
    Multiplicity(V, edges, y, x, w);
    CountIsSymmetric(edges, x, y, w);
  }

  /** Count does not depend on the direction of the pair. */
  lemma {:induction false} CountIsSymmetric(edges: seq<WeightedEdge>, x: int, y: int, w: int)
    ensures Count(edges, x, y, w) == Count(edges, y, x, w)
    decreases |edges|
  {
    if |edges| > 0 {
      CountIsSymmetric(edges[..|edges| - 1], x, y, w);
    }
  }
}
