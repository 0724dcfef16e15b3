/**
  The Graph class of PrimSparse.cs: V vertices 1..V, E edges, and one
  adjacency list per vertex, built from the parsed edges; and MST_Prim, which
  grows a tree from s with the indexed heap of IndexedHeap keyed by dist.
*/
module SparseGraph {
  import opened Int32
  import opened Adjacency
  import opened IndexedHeap
  import opened PrimSpec

  class Graph {
    const V: nat
    const E: nat
    /** adj[v] is v's list, head first; adj[0] is unused. */
    const adj: array<seq<Neighbour>>
    /** The edges as they were read, in file order. */
    ghost const Edges: seq<WeightedEdge>

    /** The lists are exactly those the edges build. */
    ghost predicate Valid()
      reads this, adj
    {
      EdgesFit(V, Edges) && E == |Edges| && adj.Length == V + 1 && adj[..] == BuildAdj(V, Edges)
    }

    /**
      PrimSparse.cs:141-199 without the file: the edges arrive already
      parsed. Every list starts empty (168-170), then each edge u--v pushes
      (u, wgt) on v's list and (v, wgt) on u's list (186-197).
    */
    constructor (V: nat, edges: seq<WeightedEdge>)
      requires EdgesFit(V, edges)
      ensures Valid()
      ensures this.V == V && E == |edges| && Edges == edges
    {
      var a := new seq<Neighbour>[V + 1];
      a[0] := [];
      var v := 1;
      while v <= V
        invariant 1 <= v <= V + 1
        invariant forall x :: 0 <= x < v ==> a[x] == []
      {
        a[v] := [];
        v := v + 1;
      }
      assert a[..] == EmptyAdj(V);
      var i := 0;
      while i < |edges|
        invariant 0 <= i <= |edges|
        invariant EdgesFit(V, edges[..i])
        invariant a[..] == BuildAdj(V, edges[..i])
      {
        var e := edges[i];
        assert edges[..i + 1][..i] == edges[..i] && edges[..i + 1][i] == e;
        a[e.v] := [Neighbour(e.u, e.wgt)] + a[e.v];
        a[e.u] := [Neighbour(e.v, e.wgt)] + a[e.u];
        i := i + 1;
      }
      assert edges[..|edges|] == edges;
      this.V := V;
      E := |edges|;
      adj := a;
      Edges := edges;
    }

    /**
      PrimSparse.cs:230-295. Returns parent and the total weight wgt_sum
      (which the source only prints), together with, as ghost results, the
      order in which vertices left the heap, the weight each was attached
      with, and the final dist array. The lists are those the edges build.
    */
    method MstPrim(s: int) returns (parent: array<int>, wgtSum: int, ghost order: seq<int>, ghost weights: seq<int>, ghost finalDist: seq<int>)
      requires Valid() && 1 <= s <= V
      requires forall i :: 0 <= i < |Edges| ==> 0 <= Edges[i].wgt <= MaxValue
      ensures parent.Length == V + 1 && |finalDist| == V + 1 && parent[0] == 0
      ensures |order| == |weights| >= 1 && order[0] == s && weights[0] == 0 && parent[s] == 0
      ensures forall i, j :: 0 <= i < j < |order| ==> order[i] != order[j]
      ensures forall j :: 0 <= j < |order| ==> 1 <= order[j] <= V && finalDist[order[j]] == -weights[j]
      ensures forall u :: 1 <= u <= V ==> (u in order <==> Reachable(BuildAdj(V, Edges), s, u))
      ensures forall u :: 1 <= u <= V && u !in order ==> parent[u] == 0 && finalDist[u] == MaxValue
      ensures forall j :: 1 <= j < |order| ==>
                parent[order[j]] in order[..j] && HasLink(BuildAdj(V, Edges), parent[order[j]], order[j], weights[j])
      ensures var A := BuildAdj(V, Edges);
              forall j, i, k :: 0 <= i < j < |order| && 0 <= k < |A[order[i]]| && A[order[i]][k].vertex !in order[..j] ==>
                weights[j] <= A[order[i]][k].wgt
      ensures wgtSum == Sum(weights)
    {
      ghost var A := BuildAdj(V, Edges);
      BuiltIsGraph(V, Edges);
      var pq, dist, hPos;
      pq, dist, parent, hPos := Setup(V, s, A);
      ghost var p, rank, scanned;
      wgtSum, finalDist, p, order, rank, weights, scanned := Grow(pq, dist, parent, hPos, adj, s, A);
      Outcome(A, s, finalDist, p, {}, order, rank, weights, scanned);
      Report(V, Edges, s, parent, finalDist, p, order, weights);
    }
  }

  /**
    What MstPrim promises, read off the invariant once the heap is empty:
    Outcome's conclusions, restated for the parent array and the lists the
    edges build.
  */
  lemma Report(V: nat, Edges: seq<WeightedEdge>, s: int, parent: array<int>, finalDist: seq<int>, p: seq<int>,
               order: seq<int>, weights: seq<int>)
    requires EdgesFit(V, Edges) && 1 <= s <= V && parent[..] == p && |finalDist| == |p| == V + 1
    requires var A := BuildAdj(V, Edges);
             && |order| == |weights| >= 1 && order[0] == s && weights[0] == 0 && p[s] == 0
             && (forall i, j :: 0 <= i < j < |order| ==> order[i] != order[j])
             && (forall j :: 0 <= j < |order| ==> 1 <= order[j] < |A| && finalDist[order[j]] == -weights[j])
             && (forall u :: 1 <= u < |A| ==> (u in order <==> Reachable(A, s, u)))
             && (forall u :: 1 <= u < |A| && u !in order ==> p[u] == 0 && finalDist[u] == MaxValue)
             && (forall j :: 1 <= j < |order| ==> p[order[j]] in order[..j] && HasLink(A, p[order[j]], order[j], weights[j]))
    ensures parent.Length == V + 1
    ensures |order| == |weights| >= 1 && order[0] == s && weights[0] == 0 && parent[s] == 0
    ensures forall j :: 0 <= j < |order| ==> 1 <= order[j] <= V && finalDist[order[j]] == -weights[j]
    ensures forall u :: 1 <= u <= V ==> (u in order <==> Reachable(BuildAdj(V, Edges), s, u))
    ensures forall u :: 1 <= u <= V && u !in order ==> parent[u] == 0 && finalDist[u] == MaxValue
    ensures forall j :: 1 <= j < |order| ==>
              parent[order[j]] in order[..j] && HasLink(BuildAdj(V, Edges), parent[order[j]], order[j], weights[j])
  {
    assert |BuildAdj(V, Edges)| == V + 1;
    forall j | 1 <= j < |order|
      ensures parent[order[j]] == p[order[j]]
    {
    }
  }

  /** PrimSparse.cs:241-252: dist is int.MaxValue, parent 0 and hPos 0 on every vertex 1..V; parent[0] is 0. */
  method NewArrays(V: nat) returns (dist: array<int>, parent: array<int>, hPos: array<int>)
    ensures fresh(dist) && fresh(parent) && fresh(hPos)
    ensures dist != parent && dist != hPos && parent != hPos
    ensures dist.Length == parent.Length == hPos.Length == V + 1
    ensures parent[0] == 0
    ensures forall u :: 1 <= u <= V ==> dist[u] == MaxValue && parent[u] == 0 && hPos[u] == 0
  {
    dist := new int[V + 1];
    parent := new int[V + 1](_ => 0);
    hPos := new int[V + 1];
    var v := 1;
    while v <= V
      invariant 1 <= v <= V + 1
      invariant forall u :: 1 <= u < v ==> dist[u] == MaxValue && parent[u] == 0 && hPos[u] == 0
      invariant parent[0] == 0
    {
      dist[v] := MaxValue;
      parent[v] := 0;
      hPos[v] := 0;
      v := v + 1;
    }
  }

  /**
    PrimSparse.cs:241-258: the arrays as NewArrays leaves them, then the heap
    over dist and hPos holding s alone, and dist[s] = 0: the state Start
    describes.
  */
  method Setup(V: nat, s: int, ghost A: seq<seq<Neighbour>>) returns (pq: Heap, dist: array<int>, parent: array<int>, hPos: array<int>)
    requires PrimSpec.Graph(A) && |A| == V + 1 && 1 <= s <= V
    ensures fresh(pq) && fresh(pq.h) && fresh(dist) && fresh(parent) && fresh(hPos)
    ensures pq.Valid() && pq.dist == dist && pq.hPos == hPos && pq.h.Length == V + 1
    ensures parent.Length == V + 1 && parent != dist && parent != hPos && parent != pq.h && parent[0] == 0
    ensures pq.Elems == {s} && Inv(A, s, dist[..], parent[..], {s}, [], NoRanks(|A|), [], 0)
  {
    dist, parent, hPos := NewArrays(V);
    pq := new Heap(V, dist, hPos);
    pq.Insert(s);
    Rekey(pq.h[..], hPos[..], dist[..], pq.Elems, pq.N, s, 0);
    dist[s] := 0;
    assert pq.Elems == {s};
    Start(A, s, dist[..], parent[..]);
  }

  /**
    PrimSparse.cs:260-290: the main loop, run until the heap is empty. It
    keeps PrimSpec.Inv; the ghost results are its state at the end, with
    d and p the values of dist and parent.
  */
  method Grow(pq: Heap, dist: array<int>, parent: array<int>, hPos: array<int>, adj: array<seq<Neighbour>>, s: int,
              ghost A: seq<seq<Neighbour>>)
    returns (wgtSum: int, ghost d: seq<int>, ghost p: seq<int>, ghost order: seq<int>, ghost rank: seq<int>,
             ghost weights: seq<int>, ghost scanned: int)
    requires pq.Valid() && pq.dist == dist && pq.hPos == hPos && pq.h.Length == |A|
    requires parent.Length == |A| && parent != dist && parent != hPos && parent != pq.h
    requires adj[..] == A
    requires pq.Elems == {s} && Inv(A, s, dist[..], parent[..], {s}, [], NoRanks(|A|), [], 0)
    requires parent[0] == 0
    modifies pq, pq.h, dist, hPos, parent
    ensures pq.Valid() && pq.Elems == {} && dist[..] == d && parent[..] == p && parent[0] == 0
    ensures Inv(A, s, d, p, {}, order, rank, weights, scanned) && AllScanned(A, order, scanned)
    ensures wgtSum == Sum(weights)
  {
    ghost var gE := pq.Elems;
    d, p := dist[..], parent[..];
    order, rank, weights, scanned := [], NoRanks(|A|), [], 0;
    wgtSum := 0;
    while !pq.IsEmpty()
      invariant pq.Valid() && pq.dist == dist && pq.hPos == hPos && pq.h.Length == |A|
      invariant dist[..] == d && parent[..] == p && pq.Elems == gE
      invariant Inv(A, s, d, p, gE, order, rank, weights, scanned) && AllScanned(A, order, scanned)
      invariant wgtSum == Sum(weights) && |order| < |A| && p[0] == 0
      decreases |A| - |order|
    {
      wgtSum, d, p, gE, order, rank, weights, scanned :=
        Visit(pq, dist, parent, hPos, adj, s, wgtSum, A, d, p, gE, order, rank, weights, scanned);
    }
  }

  /**
    PrimSparse.cs:270-289: every link v -> u in the list of the vertex v
    just taken out is relaxed. When t.wgt < dist[u], dist[u] and parent[u]
    are updated and u is inserted (hPos[u] == 0) or sifted up from hPos[u].
    d0, p0 and E0 are dist, parent and the heap's residents as values.
  */
  method Scan(pq: Heap, dist: array<int>, parent: array<int>, hPos: array<int>, links: seq<Neighbour>, s: int, v: int,
              ghost A: seq<seq<Neighbour>>, ghost d0: seq<int>, ghost p0: seq<int>, ghost E0: set<int>,
              ghost order: seq<int>, ghost rank: seq<int>, ghost weights: seq<int>, ghost scanned: int)
    returns (ghost gd: seq<int>, ghost gp: seq<int>, ghost gE: set<int>)
    requires pq.Valid() && pq.dist == dist && pq.hPos == hPos && pq.h.Length == |A|
    requires parent.Length == |A| && parent != dist && parent != hPos && parent != pq.h
    requires dist[..] == d0 && parent[..] == p0 && pq.Elems == E0
    requires |order| > 0 && v == order[|order| - 1] && 0 <= v < |A| && links == A[v] && scanned == |links|
    requires Inv(A, s, d0, p0, E0, order, rank, weights, 0)
    modifies pq, pq.h, dist, hPos, parent
    ensures pq.Valid() && dist[..] == gd && parent[..] == gp && pq.Elems == gE
    ensures Inv(A, s, gd, gp, gE, order, rank, weights, scanned)
    ensures gp[0] == p0[0]
  {
    gd, gp, gE := d0, p0, E0;
    var i := 0;
    while i < |links|
      invariant 0 <= i <= |links|
      invariant pq.Valid() && dist[..] == gd && parent[..] == gp && pq.Elems == gE
      invariant Inv(A, s, gd, gp, gE, order, rank, weights, i)
      invariant gp[0] == p0[0]
    {
      var t := links[i];
      var u := t.vertex;
      if t.wgt < dist[u] {
        RelaxStep(A, s, gd, gp, gE, order, rank, weights, i, MinValue);
        Capacity(A, s, gE, order, rank, weights, i);
        parent[u] := v;
        LowerKey(pq, u, t.wgt);
        gd, gp, gE := gd[u := t.wgt][0 := MinValue], gp[u := v], gE + {u};
      } else {
        RelaxSkip(A, s, gd, gp, gE, order, rank, weights, i);
      }
      i := i + 1;
    }
  }

  /**
    PrimSparse.cs:260-290, one pass of the main loop: the vertex v of least
    dist leaves the heap with weight w and is finalised, then its links are
    relaxed. The ghost values before and after the pass are those of the
    invariant PrimSpec.Inv, and the pass keeps it.
  */
  method Visit(pq: Heap, dist: array<int>, parent: array<int>, hPos: array<int>, adj: array<seq<Neighbour>>, s: int, wgtSum0: int,
               ghost A: seq<seq<Neighbour>>, ghost d0: seq<int>, ghost p0: seq<int>, ghost E0: set<int>,
               ghost order0: seq<int>, ghost rank0: seq<int>, ghost weights0: seq<int>, ghost scanned0: int)
    returns (wgtSum: int, ghost d: seq<int>, ghost p: seq<int>, ghost E: set<int>,
             ghost order: seq<int>, ghost rank: seq<int>, ghost weights: seq<int>, ghost scanned: int)
    requires pq.Valid() && pq.dist == dist && pq.hPos == hPos && pq.h.Length == |A|
    requires parent.Length == |A| && parent != dist && parent != hPos && parent != pq.h
    requires adj[..] == A
    requires dist[..] == d0 && parent[..] == p0 && pq.Elems == E0 && E0 != {}
    requires Inv(A, s, d0, p0, E0, order0, rank0, weights0, scanned0) && AllScanned(A, order0, scanned0)
    requires wgtSum0 == Sum(weights0)
    modifies pq, pq.h, dist, hPos, parent
    ensures pq.Valid() && dist[..] == d && parent[..] == p && pq.Elems == E
    ensures Inv(A, s, d, p, E, order, rank, weights, scanned) && AllScanned(A, order, scanned)
    ensures wgtSum == Sum(weights) && |order| == |order0| + 1 < |A|
    ensures order == order0 + [order[|order0|]] && weights == weights0 + [weights[|order0|]]
    ensures wgtSum == wgtSum0 + weights[|order0|]
    ensures p[0] == p0[0]
  {
    var v, w;
    ghost var d1;
    v, w, d1 := TakeMin(pq, parent);
    d, E := d1[v := -w], E0 - {v};
    order, rank, weights := order0 + [v], rank0[v := |order0|], weights0 + [w];
    ExtractStep(A, s, d0, d1, p0, E0, order0, rank0, weights0, scanned0, v, d, E, order, rank, weights);
    SumAppend(weights0, w);
    wgtSum := wgtSum0 + w;
    scanned := |A[v]|;
    d, p, E := Scan(pq, dist, parent, hPos, adj[v], s, v, A, d, p0, E, order, rank, weights, scanned);
  }

  /**
    PrimSparse.cs:262-268: v, a vertex of least dist, leaves the heap, its
    dist w is returned, and dist[v] is negated to mark v finalised. d1 is
    dist just before the negation; the heap may have set dist[0] to its guard.
  */
  method TakeMin(pq: Heap, parent: array<int>) returns (v: int, w: int, ghost d1: seq<int>)
    requires pq.Valid() && pq.N >= 1
    requires parent != pq.dist && parent != pq.hPos && parent != pq.h
    modifies pq, pq.h, pq.dist, pq.hPos
    ensures pq.Valid()
    ensures v in old(pq.Elems) && pq.Elems == old(pq.Elems) - {v}
    ensures |d1| == pq.dist.Length && d1 == old(pq.dist[..])[0 := d1[0]] && w == d1[v]
    ensures forall u :: u in old(pq.Elems) ==> d1[v] <= d1[u]
    ensures pq.dist[..] == d1[v := -w]
    ensures parent[..] == old(parent[..])
  {
    v := pq.Remove();
    d1 := pq.dist[..];
    w := pq.dist[v];
    Rekey(pq.h[..], pq.hPos[..], d1, pq.Elems, pq.N, v, -w);
    pq.dist[v] := -w;
  }

  /**
    PrimSparse.cs:276 and 280-287: dist[u] is lowered to w, then u is
    inserted if hPos[u] == 0 (not in the heap) and sifted up from hPos[u]
    otherwise. Either way u ends up in the heap with priority w.
  */
  method LowerKey(pq: Heap, u: int, w: int)
    requires pq.Valid() && 1 <= u < pq.hPos.Length
    requires MinValue <= w <= pq.dist[u]
    requires u !in pq.Elems ==> pq.N + 1 < pq.h.Length
    modifies pq, pq.h, pq.dist, pq.hPos
    ensures pq.Valid()
    ensures pq.Elems == old(pq.Elems) + {u}
    ensures pq.dist[..] == old(pq.dist[..])[u := w][0 := MinValue]
  {
    ghost var d, E := pq.dist[..], pq.Elems;
    if u in E {
      DecreaseOpensRise(pq.h[..], pq.hPos[..], d, E, pq.N, u, w);
    } else {
      Rekey(pq.h[..], pq.hPos[..], d, E, pq.N, u, w);
    }
    pq.dist[u] := w;
    assert pq.hPos[u] == 0 <==> u !in E;
    if pq.hPos[u] == 0 {
      pq.Insert(u);
    } else {
      pq.SiftUp(pq.hPos[u]);
      assert E + {u} == E;
    }
  }

  /**
    Removing v from the heap may have set dist[0] (d0 becomes d1); then v is
    finalised as Extract describes, which gives the state d, E, order, rank
    and weights.
  */
  lemma ExtractStep(adj: seq<seq<Neighbour>>, s: int, d0: seq<int>, d1: seq<int>, p: seq<int>, E0: set<int>,
                    order0: seq<int>, rank0: seq<int>, weights0: seq<int>, scanned: int, v: int,
                    d: seq<int>, E: set<int>, order: seq<int>, rank: seq<int>, weights: seq<int>)
    requires Inv(adj, s, d0, p, E0, order0, rank0, weights0, scanned) && AllScanned(adj, order0, scanned)
    requires |d1| == |d0| && d1 == d0[0 := d1[0]]
    requires v in E0 && forall u :: u in E0 ==> d1[v] <= d1[u]
    requires d == d1[v := -d1[v]] && E == E0 - {v}
    requires order == order0 + [v] && rank == rank0[v := |order0|] && weights == weights0 + [d1[v]]
    ensures Inv(adj, s, d, p, E, order, rank, weights, 0)
    ensures |order| < |adj|
  {
    Capacity(adj, s, E0, order0, rank0, weights0, scanned);
    Guard(adj, s, d0, p, E0, order0, rank0, weights0, scanned, d1[0]);
    Extract(adj, s, d1, p, E0, order0, rank0, weights0, scanned, v);
  }

  /**
    Relaxing a link as Relax describes, followed by the heap operation, which
    sets dist[0] to the guard value x.
  */
  lemma RelaxStep(adj: seq<seq<Neighbour>>, s: int, d: seq<int>, p: seq<int>, E: set<int>, order: seq<int>, rank: seq<int>, weights: seq<int>, scanned: int, x: int)
    requires Inv(adj, s, d, p, E, order, rank, weights, scanned)
    requires |order| > 0 && scanned < |adj[order[|order| - 1]]|
    requires var n := adj[order[|order| - 1]][scanned]; n.wgt < d[n.vertex]
    ensures var v := order[|order| - 1];
            var n := adj[v][scanned];
            && rank[n.vertex] < 0 && n.vertex != s && 0 <= n.wgt < MaxValue
            && (n.vertex !in E ==> d[n.vertex] == MaxValue)
            && Inv(adj, s, d[n.vertex := n.wgt][0 := x], p[n.vertex := v], E + {n.vertex}, order, rank, weights, scanned + 1)
  {
    var v := order[|order| - 1];
    var n := adj[v][scanned];
    Relax(adj, s, d, p, E, order, rank, weights, scanned);
    Guard(adj, s, d[n.vertex := n.wgt], p[n.vertex := v], E + {n.vertex}, order, rank, weights, scanned + 1, x);
  }

  /** The lists built from edges with weights in 0..int.MaxValue form a graph Prim can run on. */
  lemma {:induction false} BuiltIsGraph(V: nat, edges: seq<WeightedEdge>)
    requires 1 <= V && EdgesFit(V, edges)
    requires forall i :: 0 <= i < |edges| ==> 0 <= edges[i].wgt <= MaxValue
    ensures PrimSpec.Graph(BuildAdj(V, edges))
    decreases |edges|
  {
    if |edges| > 0 {
      var m := |edges| - 1;
      var pre, e := edges[..m], edges[m];
      BuiltIsGraph(V, pre);
      var a := BuildAdj(V, pre);
      var r: seq<seq<Neighbour>> := AddEdge(a, e);
      assert r == BuildAdj(V, edges);
      forall x, k | 0 <= x < |r| && 0 <= k < |r[x]|
        ensures 1 <= r[x][k].vertex < |r| && 0 <= r[x][k].wgt <= MaxValue
      {
        if x != e.u && x != e.v {
          assert r[x][k] == a[x][k];
        } else if e.u != e.v {
          if k > 0 {
            assert r[x][k] == a[x][k - 1];
          }
        } else if k > 1 {
          assert r[x][k] == a[x][k - 2];
        }
      }
    }
  }
}
