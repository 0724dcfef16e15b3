/**
  The reverse index of the heap as values: h holds vertex ids in slots 1..n,
  pos[u] is the slot of vertex u (0 when u is not resident) and E is the set
  of residents. A "hole" at slot k is the state inside a sift: slot k is
  reserved for vertex v, whose pos entry is stale, and every other resident
  is exactly indexed.
*/
module HeapIndex {

  /** pos is the exact inverse of h[1..n], and E is the set of residents. */
  ghost predicate Indexed(h: seq<int>, n: int, pos: seq<int>, E: set<int>)
  {
    && 0 <= n < |h|
    && (forall i :: 1 <= i <= n ==> 1 <= h[i] < |pos| && pos[h[i]] == i)
    && (forall u :: 1 <= u < |pos| ==> 0 <= pos[u] <= n)
    && (forall u {:trigger h[pos[u]]} :: 1 <= u < |pos| && pos[u] != 0 ==> h[pos[u]] == u)
    && (forall u :: u in E <==> 1 <= u < |pos| && pos[u] != 0)
    && |E| == n
  }

  /** Slot k is reserved for v (a resident with a stale pos entry); everyone else is indexed. */
  ghost predicate IndexedHole(h: seq<int>, n: int, pos: seq<int>, E: set<int>, k: int, v: int)
  {
    && 0 <= n < |h| && 1 <= k <= n && 1 <= v < |pos|
    && (forall i :: 1 <= i <= n ==> 1 <= h[i] < |pos|)
    && (forall i :: 1 <= i <= n && i != k ==> h[i] != v && pos[h[i]] == i)
    && (forall u :: 1 <= u < |pos| && u != v ==> 0 <= pos[u] <= n && pos[u] != k)
    && (forall u {:trigger h[pos[u]]} :: 1 <= u < |pos| && u != v && pos[u] != 0 ==> h[pos[u]] == u)
    && (forall u :: u in E <==> 1 <= u < |pos| && (u == v || pos[u] != 0))
    && |E| == n
  }

  /** In an indexed heap, every resident sits in the slot pos names, and nowhere else. */
  lemma ResidentsAreSlots(h: seq<int>, n: int, pos: seq<int>, E: set<int>, u: int)
    requires Indexed(h, n, pos, E)
    ensures u in E <==> exists i :: 1 <= i <= n && h[i] == u
    ensures u in E ==> 1 <= pos[u] <= n && h[pos[u]] == u
    ensures forall i :: 1 <= i <= n && h[i] == u ==> i == pos[u]
  {
    if u in E {
      assert h[pos[u]] == u;
    }
  }

  /** Any resident's slot can be opened as a hole for that resident. */
  lemma OpenHole(h: seq<int>, n: int, pos: seq<int>, E: set<int>, k: int)
    requires Indexed(h, n, pos, E) && 1 <= k <= n
    ensures IndexedHole(h, n, pos, E, k, h[k])
  {
  }

  /** A non-resident written just past the last slot holds a hole there. */
  lemma AppendOpensHole(h: seq<int>, n: int, pos: seq<int>, E: set<int>, x: int)
    requires Indexed(h, n, pos, E)
    requires n + 1 < |h| && 1 <= x < |pos| && x !in E
    ensures IndexedHole(h[n + 1 := x], n + 1, pos, E + {x}, n + 1, x)
  {
    assert pos[x] == 0;
  }

  /**
    Taking the root r out (pos[r] := 0) and moving the last vertex into the
    root leaves a hole at the root for that vertex, or an empty heap.
  */
  lemma RemoveOpensHole(h: seq<int>, n: int, pos: seq<int>, E: set<int>)
    requires Indexed(h, n, pos, E) && n >= 1
    ensures var r := h[1];
            var h' := h[1 := h[n]][n := 0];
            var pos' := pos[r := 0];
            && r in E
            && (n == 1 ==> Indexed(h', 0, pos', E - {r}))
            && (n >= 2 ==> IndexedHole(h', n - 1, pos', E - {r}, 1, h[n]))
  {
    var r := h[1];
    var h' := h[1 := h[n]][n := 0];
    var pos' := pos[r := 0];
    assert r in E;
    assert |E - {r}| == n - 1;
    if n >= 2 {
      var m := h[n];
      forall u | 1 <= u < |pos'| && u != m
        ensures 0 <= pos'[u] <= n - 1 && (pos'[u] != 0 ==> pos'[u] != 1 && h'[pos'[u]] == u)
      {
        if u != r && pos[u] != 0 {
          assert h[pos[u]] == u;
        }
      }
    }
  }

  /**
    One move of a sift: the vertex in slot j moves into the hole at k and
    records its new slot; the hole moves to j.
  */
  lemma MoveHole(h: seq<int>, n: int, pos: seq<int>, E: set<int>, k: int, v: int, j: int)
    requires IndexedHole(h, n, pos, E, k, v)
    requires 1 <= j <= n && j != k
    ensures IndexedHole(h[k := h[j]], n, pos[h[j] := k], E, j, v)
  {
    var h', pos' := h[k := h[j]], pos[h[j] := k];
    var m := h[j];
    forall i | 1 <= i <= n && i != j
      ensures h'[i] != v && pos'[h'[i]] == i
    {
      if i != k {
        assert h[i] != m;
      }
    }
    forall u | 1 <= u < |pos'| && u != v
      ensures 0 <= pos'[u] <= n && (pos'[u] != 0 ==> pos'[u] != j && h'[pos'[u]] == u)
    {
      if u != m && pos[u] != 0 {
        assert h[pos[u]] == u;
      }
    }
  }

  /** Ending a sift: v goes into the hole and its pos entry is set. */
  lemma FillHole(h: seq<int>, n: int, pos: seq<int>, E: set<int>, k: int, v: int)
    requires IndexedHole(h, n, pos, E, k, v)
    ensures Indexed(h[k := v], n, pos[v := k], E)
  {
  }
}
