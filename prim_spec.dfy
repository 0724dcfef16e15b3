/**
  What MST_Prim of PrimSparse.cs keeps true, stated on values: the adjacency
  lists adj (slot 0 unused), the priority array dist, the parent array, the
  set E of vertices waiting in the heap, the sequence order of vertices taken
  out of the heap so far, the weight each was attached with, and how many
  links of the vertex taken out last have been relaxed.

  Each vertex 1..V is in exactly one of three states: finalised (in order,
  with rank its position there, and dist holds minus its attach weight),
  waiting (in E, with a tentative weight and a parent already finalised), or
  untouched (dist = int.MaxValue, parent 0). An edge of weight int.MaxValue can never lower int.MaxValue, so
  reachability only uses edges lighter than that.
*/
module PrimSpec {
  import opened Int32
  import opened Adjacency

  /** The lists name vertices 1..V, with weights in 0..int.MaxValue. */
  ghost predicate Graph(adj: seq<seq<Neighbour>>)
  {
    && |adj| >= 2
    && (forall a, k :: 0 <= a < |adj| && 0 <= k < |adj[a]| ==>
          1 <= adj[a][k].vertex < |adj| && 0 <= adj[a][k].wgt <= MaxValue)
  }

  /** a's list holds the record (b, w). */
  ghost predicate HasLink(adj: seq<seq<Neighbour>>, a: int, b: int, w: int)
  {
    0 <= a < |adj| && exists k :: 0 <= k < |adj[a]| && adj[a][k] == Neighbour(b, w)
  }

  /** a's list names b with a weight below int.MaxValue. */
  ghost predicate Linked(adj: seq<seq<Neighbour>>, a: int, b: int)
  {
    0 <= a < |adj| && exists k :: 0 <= k < |adj[a]| && adj[a][k].vertex == b && adj[a][k].wgt < MaxValue
  }

  /** p is a non-empty walk along links. */
  ghost predicate IsPath(adj: seq<seq<Neighbour>>, p: seq<int>)
  {
    |p| >= 1 && forall i :: 0 <= i < |p| - 1 ==> Linked(adj, p[i], p[i + 1])
  }

  /** Some walk leads from s to u. */
  ghost predicate Reachable(adj: seq<seq<Neighbour>>, s: int, u: int)
  {
    exists p :: IsPath(adj, p) && p[0] == s && p[|p| - 1] == u
  }

  lemma ReachableStart(adj: seq<seq<Neighbour>>, s: int)
    ensures Reachable(adj, s, s)
  {
    assert IsPath(adj, [s]);
  }

  /** A walk to a extends along a link a -> b. */
  lemma ReachableStep(adj: seq<seq<Neighbour>>, s: int, a: int, b: int)
    requires Reachable(adj, s, a) && Linked(adj, a, b)
    ensures Reachable(adj, s, b)
  {
    var p :| IsPath(adj, p) && p[0] == s && p[|p| - 1] == a;
    var q := p + [b];
    forall i | 0 <= i < |q| - 1
      ensures Linked(adj, q[i], q[i + 1])
    {
      if i < |p| - 1 {
        assert q[i] == p[i] && q[i + 1] == p[i + 1];
      }
    }
    assert IsPath(adj, q) && q[0] == s && q[|q| - 1] == b;
  }

  /** A set that holds s and is closed under links holds every vertex reachable from s. */
  lemma {:induction false} ClosedHoldsReachable(adj: seq<seq<Neighbour>>, s: int, F: set<int>, u: int)
    requires s in F
    requires forall a, b :: a in F && Linked(adj, a, b) ==> b in F
    requires Reachable(adj, s, u)
    ensures u in F
  {
    var p :| IsPath(adj, p) && p[0] == s && p[|p| - 1] == u;
    var i := 0;
    while i < |p| - 1
      invariant 0 <= i < |p| && p[i] in F
    {
      assert Linked(adj, p[i], p[i + 1]);
      i := i + 1;
    }
  }

  /** The sum of a sequence of weights, added in order as wgt_sum is. */
  function Sum(ws: seq<int>): int
  {
    if |ws| == 0 then 0 else Sum(ws[..|ws| - 1]) + ws[|ws| - 1]
  }

  lemma SumAppend(ws: seq<int>, x: int)
    ensures Sum(ws + [x]) == Sum(ws) + x
  {
    assert (ws + [x])[..|ws|] == ws;
  }

  /**
    A link is dealt with: its far end is finalised, or its tentative weight
    is no larger than the link's.
  */
  ghost predicate Covered(n: Neighbour, rank: seq<int>, d: seq<int>)
    requires 0 <= n.vertex < |d| && n.vertex < |rank|
  {
    0 <= rank[n.vertex] || d[n.vertex] <= n.wgt
  }

  /**
    Which vertices have been taken out, in which order, and which are
    waiting. rank is the inverse of order: rank[order[j]] == j, and -1 for a
    vertex not taken out yet.
  */
  ghost predicate Progress(adj: seq<seq<Neighbour>>, s: int, E: set<int>, order: seq<int>, rank: seq<int>, weights: seq<int>, scanned: int)
  {
    && 1 <= s < |adj|
    && |weights| == |order| && |rank| == |adj|
    && (forall j :: 0 <= j < |order| ==> 1 <= order[j] < |adj| && rank[order[j]] == j)
    && (forall u {:trigger rank[u]} :: 0 <= u < |adj| ==> -1 <= rank[u] < |order|)
    && (forall u {:trigger order[rank[u]]} :: 0 <= u < |adj| && 0 <= rank[u] ==> order[rank[u]] == u)
    && (forall u {:trigger u in E} :: u in E ==> 1 <= u < |adj| && rank[u] == -1)
    && (|order| == 0 ==> E == {s} && scanned == 0)
    && (|order| > 0 ==> order[0] == s && weights[0] == 0 && 0 <= scanned <= |adj[order[|order| - 1]]|)
  }

  /** dist and parent for finalised, waiting and untouched vertices. */
  ghost predicate Labels(adj: seq<seq<Neighbour>>, s: int, d: seq<int>, p: seq<int>, E: set<int>, order: seq<int>, rank: seq<int>, weights: seq<int>)
    requires 1 <= s < |adj| && |d| == |adj| == |p| == |rank| && |weights| == |order|
    requires forall j :: 0 <= j < |order| ==> 1 <= order[j] < |adj|
    requires forall u :: u in E ==> 1 <= u < |adj|
  {
    && (forall j :: 0 <= j < |order| ==> d[order[j]] == -weights[j] && 0 <= weights[j] < MaxValue)
    && (forall u {:trigger u in E} :: u in E ==> 0 <= d[u] < MaxValue)
    && (s in E ==> d[s] == 0 && p[s] == 0)
    && (forall u {:trigger u in E} :: u in E && u != s ==>
          0 <= p[u] < |adj| && 0 <= rank[p[u]] && HasLink(adj, p[u], u, d[u]))
    && (forall u {:trigger u in E} :: 1 <= u < |adj| && u !in E && rank[u] < 0 ==>
          d[u] == MaxValue && p[u] == 0 && u != s)
    && (forall j {:trigger p[order[j]]} :: 1 <= j < |order| ==>
          0 <= p[order[j]] < |adj| && 0 <= rank[p[order[j]]] < j && HasLink(adj, p[order[j]], order[j], weights[j]))
    && (|order| > 0 ==> p[s] == 0)
  }

  /** The first `scanned` links of one list are covered. */
  ghost predicate LastCovered(links: seq<Neighbour>, rank: seq<int>, d: seq<int>, scanned: int)
    requires forall k :: 0 <= k < |links| ==> 0 <= links[k].vertex < |d| && links[k].vertex < |rank|
    requires 0 <= scanned <= |links|
  {
    forall k :: 0 <= k < scanned ==> Covered(links[k], rank, d)
  }

  /** Every link of a finalised vertex that has been relaxed is covered. */
  ghost predicate Frontier(adj: seq<seq<Neighbour>>, d: seq<int>, order: seq<int>, rank: seq<int>, scanned: int)
    requires Graph(adj) && |d| == |adj| == |rank|
    requires forall j :: 0 <= j < |order| ==> 1 <= order[j] < |adj|
    requires |order| > 0 ==> 0 <= scanned <= |adj[order[|order| - 1]]|
  {
    && (forall i, k :: 0 <= i < |order| - 1 && 0 <= k < |adj[order[i]]| ==> Covered(adj[order[i]][k], rank, d))
    && (|order| > 0 ==> LastCovered(adj[order[|order| - 1]], rank, d, scanned))
  }

  /**
    Each vertex order[j] was attached with a weight no larger than any link
    from a vertex finalised before it to a vertex not finalised before it: a
    lightest edge across that cut.
  */
  ghost predicate LightEdges(adj: seq<seq<Neighbour>>, order: seq<int>, rank: seq<int>, weights: seq<int>)
    requires Graph(adj) && |rank| == |adj| && |weights| == |order|
    requires forall j :: 0 <= j < |order| ==> 1 <= order[j] < |adj|
  {
    forall j, i, k :: 0 <= i < j < |order| && 0 <= k < |adj[order[i]]| && !(0 <= rank[adj[order[i]][k].vertex] < j) ==>
      weights[j] <= adj[order[i]][k].wgt
  }

  /** Every finalised or waiting vertex is reachable from s. */
  ghost predicate Explored(adj: seq<seq<Neighbour>>, s: int, E: set<int>, order: seq<int>)
  {
    && (forall u {:trigger u in E} :: u in E ==> Reachable(adj, s, u))
    && (forall j :: 0 <= j < |order| ==> Reachable(adj, s, order[j]))
  }

  /** The invariant of the main loop of MST_Prim (PrimSparse.cs:258-290). */
  ghost predicate Inv(adj: seq<seq<Neighbour>>, s: int, d: seq<int>, p: seq<int>, E: set<int>, order: seq<int>, rank: seq<int>, weights: seq<int>, scanned: int)
  {
    && Graph(adj) && |d| == |adj| && |p| == |adj|
    && Progress(adj, s, E, order, rank, weights, scanned)
    && Labels(adj, s, d, p, E, order, rank, weights)
    && Frontier(adj, d, order, rank, scanned)
    && LightEdges(adj, order, rank, weights)
    && Explored(adj, s, E, order)
  }

  /** Every link of every finalised vertex has been relaxed. */
  ghost predicate AllScanned(adj: seq<seq<Neighbour>>, order: seq<int>, scanned: int)
    requires forall j :: 0 <= j < |order| ==> 0 <= order[j] < |adj|
  {
    |order| > 0 ==> scanned == |adj[order[|order| - 1]]|
  }

  /** No vertex is ranked before anything has been taken out. */
  function NoRanks(n: nat): (rank: seq<int>)
    ensures |rank| == n && forall u :: 0 <= u < n ==> rank[u] == -1
  {
    seq(n, _ => -1)
  }

  /**
    PrimSparse.cs:246-256: dist = int.MaxValue and parent = 0 for 1..V, s is
    the only vertex in the heap, and then dist[s] = 0.
  */
  lemma Start(adj: seq<seq<Neighbour>>, s: int, d: seq<int>, p: seq<int>)
    requires Graph(adj) && 1 <= s < |adj| && |d| == |adj| && |p| == |adj|
    requires forall u :: 1 <= u < |adj| ==> d[u] == (if u == s then 0 else MaxValue) && p[u] == 0
    ensures Inv(adj, s, d, p, {s}, [], NoRanks(|adj|), [], 0)
  {
    ReachableStart(adj, s);
  }

  /** Inv does not look at dist[0], which the heap uses as its guard. */
  lemma Guard(adj: seq<seq<Neighbour>>, s: int, d: seq<int>, p: seq<int>, E: set<int>, order: seq<int>, rank: seq<int>, weights: seq<int>, scanned: int, x: int)
    requires Inv(adj, s, d, p, E, order, rank, weights, scanned)
    ensures Inv(adj, s, d[0 := x], p, E, order, rank, weights, scanned)
  {
    var d' := d[0 := x];
    forall i, k | 0 <= i < |order| - 1 && 0 <= k < |adj[order[i]]|
      ensures Covered(adj[order[i]][k], rank, d')
    {
      assert Covered(adj[order[i]][k], rank, d);
    }
    if |order| > 0 {
      var last := order[|order| - 1];
      forall k | 0 <= k < scanned
        ensures Covered(adj[last][k], rank, d')
      {
        assert Covered(adj[last][k], rank, d);
      }
    }
    forall j | 0 <= j < |order|
      ensures d'[order[j]] == -weights[j]
    {
    }
    forall u | u in E
      ensures d'[u] == d[u]
    {
    }
    forall u | 1 <= u < |adj| && u !in E && rank[u] < 0
      ensures d'[u] == MaxValue
    {
    }
  }

  /**
    PrimSparse.cs:262-268: the vertex v removed from the heap has the least
    tentative weight of all waiting vertices; it is finalised with that
    weight, and dist[v] is negated. This is where the light-edge property of
    v is established.
  */
  lemma Extract(adj: seq<seq<Neighbour>>, s: int, d: seq<int>, p: seq<int>, E: set<int>, order: seq<int>, rank: seq<int>, weights: seq<int>, scanned: int, v: int)
    requires Inv(adj, s, d, p, E, order, rank, weights, scanned) && AllScanned(adj, order, scanned)
    requires v in E && forall u :: u in E ==> d[v] <= d[u]
    ensures Inv(adj, s, d[v := -d[v]], p, E - {v}, order + [v], rank[v := |order|], weights + [d[v]], 0)
  {
    ExtractProgress(adj, s, d, p, E, order, rank, weights, scanned, v);
    ExtractLabels(adj, s, d, p, E, order, rank, weights, scanned, v);
    ExtractFrontier(adj, s, d, p, E, order, rank, weights, scanned, v);
    ExtractLight(adj, s, d, p, E, order, rank, weights, scanned, v);
    var order' := order + [v];
    forall j | 0 <= j < |order'|
      ensures Reachable(adj, s, order'[j])
    {
      if j < |order| {
        assert order'[j] == order[j];
      }
    }
  }

  lemma ExtractProgress(adj: seq<seq<Neighbour>>, s: int, d: seq<int>, p: seq<int>, E: set<int>, order: seq<int>, rank: seq<int>, weights: seq<int>, scanned: int, v: int)
    requires Graph(adj) && |d| == |adj| && Progress(adj, s, E, order, rank, weights, scanned)
    requires v in E && (s in E ==> d[s] == 0)
    ensures Progress(adj, s, E - {v}, order + [v], rank[v := |order|], weights + [d[v]], 0)
  {
    var E', order', rank' := E - {v}, order + [v], rank[v := |order|];
    forall j | 0 <= j < |order'|
      ensures 1 <= order'[j] < |adj| && rank'[order'[j]] == j
    {
      if j < |order| {
        assert order'[j] == order[j] && order[j] != v;
      }
    }
    forall u | 0 <= u < |adj| && 0 <= rank'[u]
      ensures order'[rank'[u]] == u
    {
      if u != v {
        assert order[rank[u]] == u;
      }
    }
    forall u | u in E'
      ensures 1 <= u < |adj| && rank'[u] == -1
    {
      assert u in E && u != v;
    }
    if |order| == 0 {
      assert v == s;
    } else {
      assert order'[0] == order[0];
    }
  }

  lemma ExtractLabels(adj: seq<seq<Neighbour>>, s: int, d: seq<int>, p: seq<int>, E: set<int>, order: seq<int>, rank: seq<int>, weights: seq<int>, scanned: int, v: int)
    requires Graph(adj) && |d| == |adj| && |p| == |adj|
    requires Progress(adj, s, E, order, rank, weights, scanned)
    requires Labels(adj, s, d, p, E, order, rank, weights)
    requires v in E
    requires Progress(adj, s, E - {v}, order + [v], rank[v := |order|], weights + [d[v]], 0)
    ensures Labels(adj, s, d[v := -d[v]], p, E - {v}, order + [v], rank[v := |order|], weights + [d[v]])
  {
    var d', E', order', rank', weights' := d[v := -d[v]], E - {v}, order + [v], rank[v := |order|], weights + [d[v]];
    var n := |order|;
    forall j | 1 <= j < |order'|
      ensures 0 <= p[order'[j]] < |adj| && 0 <= rank'[p[order'[j]]] < j && HasLink(adj, p[order'[j]], order'[j], weights'[j])
    {
      if j < n {
        assert order'[j] == order[j];
        assert p[order[j]] != v;
      } else {
        assert order[0] == s && rank[s] == 0;
        assert v != s;
        assert p[v] != v;
      }
    }
    forall j | 0 <= j < |order'|
      ensures d'[order'[j]] == -weights'[j] && 0 <= weights'[j] < MaxValue
    {
      if j < n {
        assert order'[j] == order[j] && order[j] != v;
      }
    }
    forall u | u in E' && u != s
      ensures 0 <= p[u] < |adj| && 0 <= rank'[p[u]] && HasLink(adj, p[u], u, d'[u])
    {
      assert u in E && d'[u] == d[u];
    }
    forall u | 1 <= u < |adj| && u !in E' && rank'[u] < 0
      ensures d'[u] == MaxValue && p[u] == 0 && u != s
    {
      assert u != v && u !in E;
    }
    if n == 0 {
      assert v == s;
    }
  }

  lemma ExtractFrontier(adj: seq<seq<Neighbour>>, s: int, d: seq<int>, p: seq<int>, E: set<int>, order: seq<int>, rank: seq<int>, weights: seq<int>, scanned: int, v: int)
    requires Inv(adj, s, d, p, E, order, rank, weights, scanned) && AllScanned(adj, order, scanned)
    requires v in E
    ensures var order' := order + [v];
            && (forall j :: 0 <= j < |order'| ==> 1 <= order'[j] < |adj|)
            && Frontier(adj, d[v := -d[v]], order', rank[v := |order|], 0)
  {
    var d', order', rank' := d[v := -d[v]], order + [v], rank[v := |order|];
    forall i, k | 0 <= i < |order'| - 1 && 0 <= k < |adj[order'[i]]|
      ensures Covered(adj[order'[i]][k], rank', d')
    {
      assert order'[i] == order[i];
      assert Covered(adj[order[i]][k], rank, d);
    }
  }

  lemma ExtractLight(adj: seq<seq<Neighbour>>, s: int, d: seq<int>, p: seq<int>, E: set<int>, order: seq<int>, rank: seq<int>, weights: seq<int>, scanned: int, v: int)
    requires Inv(adj, s, d, p, E, order, rank, weights, scanned) && AllScanned(adj, order, scanned)
    requires v in E && forall u :: u in E ==> d[v] <= d[u]
    ensures var order', weights' := order + [v], weights + [d[v]];
            && (forall j :: 0 <= j < |order'| ==> 1 <= order'[j] < |adj|)
            && LightEdges(adj, order', rank[v := |order|], weights')
  {
    var order', rank', weights' := order + [v], rank[v := |order|], weights + [d[v]];
    var n := |order|;
    forall j, i, k | 0 <= i < j < |order'| && 0 <= k < |adj[order'[i]]| && !(0 <= rank'[adj[order'[i]][k].vertex] < j)
      ensures weights'[j] <= adj[order'[i]][k].wgt
    {
      assert order'[i] == order[i];
      var b := adj[order[i]][k].vertex;
      if j < n {
        assert weights'[j] == weights[j];
        assert b != v ==> rank'[b] == rank[b];
      } else {
        assert Covered(adj[order[i]][k], rank, d);
        if b !in E {
          assert d[b] == MaxValue;
        }
      }
    }
  }

  /** PrimSparse.cs:274-277: a link that does not lower dist (t.wgt >= dist[u]) changes nothing. */
  lemma RelaxSkip(adj: seq<seq<Neighbour>>, s: int, d: seq<int>, p: seq<int>, E: set<int>, order: seq<int>, rank: seq<int>, weights: seq<int>, scanned: int)
    requires Inv(adj, s, d, p, E, order, rank, weights, scanned)
    requires |order| > 0 && scanned < |adj[order[|order| - 1]]|
    requires var n := adj[order[|order| - 1]][scanned]; d[n.vertex] <= n.wgt
    ensures Inv(adj, s, d, p, E, order, rank, weights, scanned + 1)
  {
  }

  /**
    PrimSparse.cs:276-287: a link v -> u of weight w < dist[u] from the vertex v
    finalised last. u is not finalised; dist[u] becomes w and parent[u] becomes
    v; u is waiting afterwards, whether it was waiting or untouched before.
  */
  lemma Relax(adj: seq<seq<Neighbour>>, s: int, d: seq<int>, p: seq<int>, E: set<int>, order: seq<int>, rank: seq<int>, weights: seq<int>, scanned: int)
    requires Inv(adj, s, d, p, E, order, rank, weights, scanned)
    requires |order| > 0 && scanned < |adj[order[|order| - 1]]|
    requires var n := adj[order[|order| - 1]][scanned]; n.wgt < d[n.vertex]
    ensures var v := order[|order| - 1];
            var n := adj[v][scanned];
            && rank[n.vertex] < 0 && n.vertex != s && 0 <= n.wgt < MaxValue
            && (n.vertex !in E ==> d[n.vertex] == MaxValue)
            && Inv(adj, s, d[n.vertex := n.wgt], p[n.vertex := v], E + {n.vertex}, order, rank, weights, scanned + 1)
  {
    var v := order[|order| - 1];
    var n := adj[v][scanned];
    var u, w := n.vertex, n.wgt;
    var d', p', E' := d[u := w], p[u := v], E + {u};
    Finalised(adj, s, d, p, E, order, rank, weights, scanned, u);
    assert u != s by {
      if u in E {
      } else {
        assert u !in E && rank[u] < 0;
      }
    }
    assert adj[v][scanned] == Neighbour(u, w);
    assert HasLink(adj, v, u, w);
    assert Linked(adj, v, u);
    ReachableStep(adj, s, v, u);
    assert rank[v] == |order| - 1;
    RelaxLabels(adj, s, d, p, E, order, rank, weights, scanned, v, u, w);
    assert Frontier(adj, d', order, rank, scanned + 1) by {
      forall i, k | 0 <= i < |order| - 1 && 0 <= k < |adj[order[i]]|
        ensures Covered(adj[order[i]][k], rank, d')
      {
        assert Covered(adj[order[i]][k], rank, d);
      }
      forall k | 0 <= k < scanned + 1
        ensures Covered(adj[v][k], rank, d')
      {
        if k < scanned {
          assert Covered(adj[v][k], rank, d);
        }
      }
    }
  }

  /** A finalised vertex has dist <= 0, the negated weight it was attached with. */
  lemma Finalised(adj: seq<seq<Neighbour>>, s: int, d: seq<int>, p: seq<int>, E: set<int>, order: seq<int>, rank: seq<int>, weights: seq<int>, scanned: int, u: int)
    requires Inv(adj, s, d, p, E, order, rank, weights, scanned) && 0 <= u < |adj|
    ensures 0 <= rank[u] ==> d[u] == -weights[rank[u]] <= 0
  {
    if 0 <= rank[u] {
      assert order[rank[u]] == u;
    }
  }

  lemma RelaxLabels(adj: seq<seq<Neighbour>>, s: int, d: seq<int>, p: seq<int>, E: set<int>, order: seq<int>, rank: seq<int>, weights: seq<int>, scanned: int, v: int, u: int, w: int)
    requires Graph(adj) && |d| == |adj| && |p| == |adj|
    requires Progress(adj, s, E, order, rank, weights, scanned)
    requires Labels(adj, s, d, p, E, order, rank, weights)
    requires 1 <= v < |adj| && 0 <= rank[v] && 1 <= u < |adj| && rank[u] < 0 && u != s
    requires 0 <= w < MaxValue && w < d[u] && HasLink(adj, v, u, w)
    ensures Labels(adj, s, d[u := w], p[u := v], E + {u}, order, rank, weights)
  {
    var d', p', E' := d[u := w], p[u := v], E + {u};
    forall j | 1 <= j < |order|
      ensures 0 <= p'[order[j]] < |adj| && 0 <= rank[p'[order[j]]] < j && HasLink(adj, p'[order[j]], order[j], weights[j])
    {
      assert order[j] != u;
      assert p'[order[j]] == p[order[j]];
    }
    forall x | 0 <= x < |order|
      ensures d'[order[x]] == -weights[x]
    {
      assert order[x] != u;
    }
    forall x | x in E' && x != s
      ensures 0 <= p'[x] < |adj| && 0 <= rank[p'[x]] && HasLink(adj, p'[x], x, d'[x])
    {
      if x != u {
        assert x in E && p'[x] == p[x] && d'[x] == d[x];
      }
    }
    forall x | 1 <= x < |adj| && x !in E' && rank[x] < 0
      ensures d'[x] == MaxValue && p'[x] == 0 && x != s
    {
      assert x != u && x !in E;
    }
  }

  /**
    When the heap is empty and every finalised vertex has been scanned, the
    finalised vertices are exactly those reachable from s: every link out of
    a finalised vertex lighter than int.MaxValue leads to a finalised vertex.
  */
  lemma Finish(adj: seq<seq<Neighbour>>, s: int, d: seq<int>, p: seq<int>, E: set<int>, order: seq<int>, rank: seq<int>, weights: seq<int>, scanned: int)
    requires Inv(adj, s, d, p, E, order, rank, weights, scanned) && AllScanned(adj, order, scanned) && E == {}
    ensures forall u :: 1 <= u < |adj| ==> (0 <= rank[u] <==> Reachable(adj, s, u))
  {
    var F := set x | 1 <= x < |adj| && 0 <= rank[x];
    assert s in F by {
      assert order[0] == s;
    }
    forall a, b | a in F && Linked(adj, a, b)
      ensures b in F
    {
      var i := rank[a];
      assert order[i] == a;
      var k :| 0 <= k < |adj[a]| && adj[a][k].vertex == b && adj[a][k].wgt < MaxValue;
      assert 1 <= b < |adj| && b !in E;
      if i < |order| - 1 {
        assert Covered(adj[order[i]][k], rank, d);
      } else {
        assert Covered(adj[a][k], rank, d);
      }
    }
    forall u | 1 <= u < |adj|
      ensures 0 <= rank[u] <==> Reachable(adj, s, u)
    {
      if Reachable(adj, s, u) {
        ClosedHoldsReachable(adj, s, F, u);
      }
      if 0 <= rank[u] {
        assert order[rank[u]] == u;
      }
    }
  }

  /**
    What MST_Prim delivers once the heap is empty, stated on the extraction
    order: order is a repetition-free list of exactly the vertices reachable
    from s, starting at s; each later vertex hangs from an earlier one by a
    link of its attach weight, which is lightest across the cut between the
    vertices before it and the rest; every other vertex keeps parent 0 and
    dist int.MaxValue.
  */
  lemma Outcome(adj: seq<seq<Neighbour>>, s: int, d: seq<int>, p: seq<int>, E: set<int>, order: seq<int>, rank: seq<int>, weights: seq<int>, scanned: int)
    requires Inv(adj, s, d, p, E, order, rank, weights, scanned) && AllScanned(adj, order, scanned) && E == {}
    ensures |order| == |weights| >= 1 && order[0] == s && weights[0] == 0 && p[s] == 0
    ensures forall i, j :: 0 <= i < j < |order| ==> order[i] != order[j]
    ensures forall j :: 0 <= j < |order| ==> 1 <= order[j] < |adj| && d[order[j]] == -weights[j]
    ensures forall u :: 1 <= u < |adj| ==> (u in order <==> Reachable(adj, s, u))
    ensures forall u :: 1 <= u < |adj| && u !in order ==> p[u] == 0 && d[u] == MaxValue
    ensures forall j :: 1 <= j < |order| ==> p[order[j]] in order[..j] && HasLink(adj, p[order[j]], order[j], weights[j])
    ensures forall j, i, k :: 0 <= i < j < |order| && 0 <= k < |adj[order[i]]| && adj[order[i]][k].vertex !in order[..j] ==>
              weights[j] <= adj[order[i]][k].wgt
  {
    Finish(adj, s, d, p, E, order, rank, weights, scanned);
    assert 0 <= rank[s] by {
      assert Reachable(adj, s, s) by {
        ReachableStart(adj, s);
      }
    }
    assert |order| >= 1;
    forall i, j | 0 <= i < j < |order|
      ensures order[i] != order[j]
    {
      assert rank[order[i]] == i && rank[order[j]] == j;
    }
    forall u | 1 <= u < |adj|
      ensures u in order <==> 0 <= rank[u]
    {
      if 0 <= rank[u] {
        assert order[rank[u]] == u;
      }
      if u in order {
        var j :| 0 <= j < |order| && order[j] == u;
        assert rank[order[j]] == j;
      }
    }
    forall u | 1 <= u < |adj| && u !in order
      ensures p[u] == 0 && d[u] == MaxValue
    {
      assert u !in E && rank[u] < 0;
    }
    forall j | 1 <= j < |order|
      ensures p[order[j]] in order[..j]
    {
      RankedBefore(adj, s, E, order, rank, weights, scanned, p[order[j]], j);
    }
    forall j, i, k | 0 <= i < j < |order| && 0 <= k < |adj[order[i]]| && adj[order[i]][k].vertex !in order[..j]
      ensures weights[j] <= adj[order[i]][k].wgt
    {
      RankedBefore(adj, s, E, order, rank, weights, scanned, adj[order[i]][k].vertex, j);
    }
  }

  /** A vertex ranked below j is among the first j vertices of order. */
  lemma RankedBefore(adj: seq<seq<Neighbour>>, s: int, E: set<int>, order: seq<int>, rank: seq<int>, weights: seq<int>, scanned: int, b: int, j: int)
    requires Progress(adj, s, E, order, rank, weights, scanned) && 0 <= b < |adj| && j <= |order|
    ensures 0 <= rank[b] < j ==> b in order[..j]
  {
    if 0 <= rank[b] < j {
      assert order[rank[b]] == b;
      assert order[..j][rank[b]] == b;
    }
  }

  /** The finalised and the waiting vertices are distinct vertices of 1..V, so together at most V. */
  lemma Capacity(adj: seq<seq<Neighbour>>, s: int, E: set<int>, order: seq<int>, rank: seq<int>, weights: seq<int>, scanned: int)
    requires Progress(adj, s, E, order, rank, weights, scanned)
    ensures |order| + |E| <= |adj| - 1
  {
    var F := set j | 0 <= j < |order| :: order[j];
    RankedCard(order, rank, |adj|);
    assert F !! E by {
      forall j | 0 <= j < |order|
        ensures order[j] !in E
      {
        assert rank[order[j]] == j;
      }
    }
    SubsetOfRange(F + E, |adj| - 1);
  }

  /** A sequence whose entries have distinct ranks has as many elements as its set. */
  lemma {:induction false} RankedCard(order: seq<int>, rank: seq<int>, n: int)
    requires forall j :: 0 <= j < |order| ==> 0 <= order[j] < n && n <= |rank| && rank[order[j]] == j
    ensures |set j | 0 <= j < |order| :: order[j]| == |order|
    decreases |order|
  {
    if |order| > 0 {
      var m := |order| - 1;
      var prefix := order[..m];
      assert |prefix| == m;
      forall j | 0 <= j < |prefix|
        ensures 0 <= prefix[j] < n && n <= |rank| && rank[prefix[j]] == j
      {
        assert prefix[j] == order[j];
      }
      assert forall j :: 0 <= j < |prefix| ==> 0 <= prefix[j] < n && n <= |rank| && rank[prefix[j]] == j;
      RankedCard(prefix, rank, n);
      var A := set j | 0 <= j < m :: prefix[j];
      assert (set j | 0 <= j < |order| :: order[j]) == A + {order[m]};
      assert order[m] !in A by {
        forall j | 0 <= j < m
          ensures prefix[j] != order[m]
        {
          assert rank[order[j]] == j;
        }
      }
    }
  }

  /** A set of vertices drawn from 1..V has at most V elements. */
  lemma {:induction false} SubsetOfRange(S: set<int>, V: int)
    requires 0 <= V
    requires forall x :: x in S ==> 1 <= x <= V
    ensures |S| <= V
    decreases V
  {
    if V == 0 {
      assert forall x :: x !in S;
      assert S == {};
    } else {
      SubsetOfRange(S - {V}, V - 1);
    }
  }
}
