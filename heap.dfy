/**
  The indexed binary min-heap of PrimSparse.cs (class Heap): vertex ids live in
  h[1..N], ordered by the caller's priority array dist, with the caller's
  reverse index hPos (hPos[h[k]] == k, and 0 for a vertex not in the heap).
  Slot 0 is a guard: siftUp stores vertex 0 there and dist[0] = int.MinValue.

  The heap does not own dist and hPos; it keeps references to them, and every
  operation lists them in its modifies clause. The ghost field Elems is the
  set of resident vertices; since hPos gives every resident exactly one slot,
  it is also the multiset of h[1..N].
*/
module IndexedHeap {
  import opened Int32
  import opened HeapOrder
  import HeapIndex

  class Heap {
    const h: array<int>
    var N: int
    const dist: array<int>
    const hPos: array<int>
    ghost var Elems: set<int>

    /** The three arrays are distinct, dist and hPos cover the same vertices, and N fits in h. */
    ghost predicate Shape()
      reads this
    {
      h != dist && h != hPos && dist != hPos &&
      dist.Length == hPos.Length >= 1 && 0 <= N < h.Length
    }

    /** The reverse index is exact, and Elems is the set of vertices it marks as resident. */
    ghost predicate Indexed()
      reads this, h, hPos
    {
      Shape() && HeapIndex.Indexed(h[..], N, hPos[..], Elems)
    }

    /** The heap invariant: an exact reverse index and min-heap order on h[1..N]. */
    ghost predicate Valid()
      reads this, h, dist, hPos
    {
      Shape() && HeapState(h[..], hPos[..], dist[..], Elems, N)
    }

    /** PrimSparse.cs:34-40. The caller's hPos must mark every vertex as absent. */
    constructor (maxSize: int, dist: array<int>, hPos: array<int>)
      requires 0 <= maxSize
      requires dist != hPos && dist.Length == hPos.Length >= 1
      requires forall u :: 1 <= u < hPos.Length ==> hPos[u] == 0
      ensures Valid() && fresh(h) && h.Length == maxSize + 1
      ensures N == 0 && Elems == {}
      ensures this.dist == dist && this.hPos == hPos
    {
      N := 0;
      h := new int[maxSize + 1](_ => 0);
      this.dist := dist;
      this.hPos := hPos;
      Elems := {};
    }

    /** PrimSparse.cs:42-45: empty exactly when no vertex is resident. */
    function IsEmpty(): (r: bool)
      reads this, h, hPos
      ensures r <==> N == 0
      ensures Indexed() ==> (r <==> Elems == {})
    {
      N == 0
    }

    /**
      PrimSparse.cs:47-63. The vertex in slot k, whose hPos entry may be stale
      and whose priority may have dropped below its parent's, moves up past
      every strictly larger parent. The guard in slot 0 stops it at the root.
    */
    method SiftUp(k: int)
      requires Shape() && 1 <= k <= N
      requires RiseState(h[..], hPos[..], dist[..], Elems, N, k, h[k])
      requires MinValue <= dist[h[k]]
      modifies h, dist, hPos
      ensures Valid()
      ensures N == old(N) && Elems == old(Elems)
      ensures dist[..] == old(dist[..])[0 := MinValue]
    {
      var v := h[k];
      h[0] := 0;
      dist[0] := MinValue;
      var slot := k;
      ghost var ds, E, n := dist[..], old(Elems), old(N);
      GuardHole(old(h[..]), old(hPos[..]), old(dist[..]), E, n, k, v, h[..], ds);
      while dist[v] < dist[h[Parent(slot)]]
        invariant 1 <= slot <= k && h[0] == 0 && dist[..] == ds
        invariant RiseState(h[..], hPos[..], ds, E, n, slot, v)
        modifies h, hPos
        decreases slot
      {
        ghost var H, P, hole := h[..], hPos[..], slot;
        Put(h[Parent(slot)], slot);
        slot := Parent(slot);
        RiseStep(H, P, ds, E, n, hole, v, h[..], hPos[..], slot);
      }
      ghost var H, P := h[..], hPos[..];
      Put(v, slot);
      RiseDone(H, P, ds, E, n, slot, v, h[..], hPos[..], dist[..], Elems, N);
    }

    /** The child of slot k with the smaller priority (the left one on a tie). */
    function SmallerChild(k: int): (j: int)
      reads this, h, dist
      requires 0 <= N < h.Length && 1 <= k && 2 * k <= N
      requires forall i :: 1 <= i <= N ==> 0 <= h[i] < dist.Length
      ensures j == 2 * k || j == 2 * k + 1
      ensures j <= N
      ensures dist[h[j]] <= dist[h[2 * k]]
      ensures 2 * k + 1 <= N ==> dist[h[j]] <= dist[h[2 * k + 1]]
    {
      if 2 * k + 1 <= N && dist[h[2 * k + 1]] < dist[h[2 * k]] then 2 * k + 1 else 2 * k
    }

    /** Stores vertex x in slot k and records k as its position. */
    method Put(x: int, k: int)
      requires Shape() && 0 <= k <= N && 0 <= x < hPos.Length
      modifies h, hPos
      ensures h[..] == old(h[..])[k := x]
      ensures hPos[..] == old(hPos[..])[x := k]
      ensures dist[..] == old(dist[..])
    {
      h[k] := x;
      hPos[x] := k;
    }

    /**
      PrimSparse.cs:65-92, corrected (see README, Findings): the vertex in
      slot k, whose hPos entry may be stale, moves down into its smaller child
      while that child is strictly smaller, and every vertex moved up gets its
      new slot in hPos.
    */
    method SiftDown(k: int)
      requires Shape() && 1 <= k <= N
      requires SinkState(h[..], hPos[..], dist[..], Elems, N, k, h[k])
      modifies h, dist, hPos
      ensures Valid()
      ensures N == old(N) && Elems == old(Elems)
      ensures dist[..] == old(dist[..])[0 := MinValue]
    {
      var v := h[k];
      var slot := k;
      var j := 2 * slot;
      dist[0] := MinValue;
      ghost var ds, E, n := dist[..], old(Elems), old(N);
      GuardSink(old(h[..]), old(hPos[..]), old(dist[..]), E, n, k, v, h[..], hPos[..], ds);
      while j <= N
        invariant k <= slot <= N && j == 2 * slot && dist[..] == ds && N == n
        invariant SinkState(h[..], hPos[..], ds, E, n, slot, v)
        modifies h, hPos
        decreases N - slot
      {
        j := SmallerChild(slot);
        if dist[v] <= dist[h[j]] {
          break;
        }
        ghost var H, P, hole := h[..], hPos[..], slot;
        Put(h[j], slot);
        slot := j;
        SinkStep(H, P, ds, E, n, hole, v, slot, h[..], hPos[..]);
        j := 2 * slot;
      }
      ghost var H, P := h[..], hPos[..];
      Put(v, slot);
      SinkDone(H, P, ds, E, n, slot, v, h[..], hPos[..], dist[..], Elems, N);
    }

    /** PrimSparse.cs:94-98: x becomes resident and the heap stays ordered. */
    method Insert(x: int)
      requires Valid()
      requires 1 <= x < hPos.Length && x !in Elems
      requires N + 1 < h.Length
      requires MinValue <= dist[x]
      modifies this, h, dist, hPos
      ensures Valid()
      ensures N == old(N) + 1 && Elems == old(Elems) + {x}
      ensures dist[..] == old(dist[..])[0 := MinValue]
    {
      ghost var hs := h[..];
      AppendMakesUpHole(hs, N, dist[..], x);
      HeapIndex.AppendOpensHole(hs, N, hPos[..], Elems, x);
      N := N + 1;
      h[N] := x;
      Elems := Elems + {x};
      assert h[..] == hs[N := x];
      SiftUp(N);
    }

    /**
      PrimSparse.cs:100-114, corrected (see README, Findings): returns a
      resident of least priority, which leaves the heap with hPos 0; the slot
      cleared is the one just vacated, and an emptied heap is not sifted.
    */
    method Remove() returns (v: int)
      requires Valid() && N >= 1
      modifies this, h, dist, hPos
      ensures Valid()
      ensures v == old(h[1]) && v in old(Elems)
      ensures Elems == old(Elems) - {v} && N == old(N) - 1
      ensures hPos[v] == 0
      ensures forall u :: u in old(Elems) ==> dist[v] <= dist[u]
      ensures dist[..] == old(dist[..])[0 := dist[0]]
      ensures dist[0] == old(dist[0]) || dist[0] == MinValue
    {
      ghost var hs, ps, n := h[..], hPos[..], N;
      forall u | u in Elems
        ensures dist[h[1]] <= dist[u]
      {
        HeapIndex.ResidentsAreSlots(hs, N, ps, Elems, u);
        RootIsMinimum(hs, N, dist[..], ps[u]);
      }
      HeapIndex.RemoveOpensHole(hs, N, ps, Elems);
      v := h[1];
      hPos[v] := 0;
      h[1] := h[N];
      N := N - 1;
      h[N + 1] := 0;
      Elems := Elems - {v};
      assert h[..] == hs[1 := hs[n]][n := 0];
      assert hPos[..] == ps[v := 0];
      if N > 0 {
        RemoveMakesDownHole(hs, n, dist[..], h[..], h[1]);
        SiftDown(1);
      }
    }
  }

  /** Inside sift-up: slot k is a hole reserved for v, as HeapIndex and HeapOrder describe it. */
  ghost predicate RiseState(H: seq<int>, P: seq<int>, d: seq<int>, E: set<int>, n: int, k: int, v: int)
  {
    && HeapIndex.IndexedHole(H, n, P, E, k, v)
    && Keyed(H, n, d) && 0 <= v < |d|
    && UpHole(H, n, d, k, v)
  }

  /** Inside sift-down: slot k is a hole reserved for v, as HeapIndex and HeapOrder describe it. */
  ghost predicate SinkState(H: seq<int>, P: seq<int>, d: seq<int>, E: set<int>, n: int, k: int, v: int)
  {
    && HeapIndex.IndexedHole(H, n, P, E, k, v)
    && Keyed(H, n, d) && 0 <= v < |d|
    && DownHole(H, n, d, k, v)
  }

  /** The state an operation leaves behind: exact index, keyed and ordered. */
  ghost predicate HeapState(H: seq<int>, P: seq<int>, d: seq<int>, E: set<int>, n: int)
  {
    HeapIndex.Indexed(H, n, P, E) && Keyed(H, n, d) && Ordered(H, n, d)
  }

  /** Storing the guard in slot 0 and its priority at vertex 0 leaves a sift-up hole as it was. */
  lemma GuardHole(H: seq<int>, P: seq<int>, d: seq<int>, E: set<int>, n: int, k: int, v: int, H': seq<int>, d': seq<int>)
    requires RiseState(H, P, d, E, n, k, v)
    requires H' == H[0 := 0] && d' == d[0 := MinValue]
    ensures RiseState(H', P, d', E, n, k, v)
  {
    assert forall i :: 1 <= i <= n ==> H'[i] == H[i] && d'[H[i]] == d[H[i]];
  }

  /** A sift-up step moves the parent of the hole into it, and the hole to the parent slot. */
  lemma RiseStep(H: seq<int>, P: seq<int>, d: seq<int>, E: set<int>, n: int, k: int, v: int, H': seq<int>, P': seq<int>, k': int)
    requires RiseState(H, P, d, E, n, k, v)
    requires 2 <= k && d[v] < d[H[Parent(k)]]
    requires H' == H[k := H[Parent(k)]] && P' == P[H[Parent(k)] := k] && k' == Parent(k)
    ensures RiseState(H', P', d, E, n, k', v)
  {
    UpStep(H, n, d, k, v);
    HeapIndex.MoveHole(H, n, P, E, k, v, Parent(k));
  }

  /** When v is no smaller than the hole's parent, filling the hole with v restores the heap. */
  lemma RiseDone(H: seq<int>, P: seq<int>, d: seq<int>, E: set<int>, n: int, k: int, v: int,
                 H': seq<int>, P': seq<int>, d': seq<int>, E': set<int>, n': int)
    requires RiseState(H, P, d, E, n, k, v)
    requires k > 1 ==> d[H[Parent(k)]] <= d[v]
    requires H' == H[k := v] && P' == P[v := k] && d' == d && E' == E && n' == n
    ensures HeapState(H', P', d', E', n')
  {
    UpDone(H, n, d, k, v);
    HeapIndex.FillHole(H, n, P, E, k, v);
  }

  /** Storing the guard priority at vertex 0 leaves a sift-down hole as it was. */
  lemma GuardSink(H: seq<int>, P: seq<int>, d: seq<int>, E: set<int>, n: int, k: int, v: int, H': seq<int>, P': seq<int>, d': seq<int>)
    requires SinkState(H, P, d, E, n, k, v)
    requires H' == H && P' == P && d' == d[0 := MinValue]
    ensures SinkState(H', P', d', E, n, k, v)
  {
    assert forall i :: 1 <= i <= n ==> d'[H[i]] == d[H[i]];
  }

  /** A sift-down step moves the smaller child j into the hole, and the hole to j. */
  lemma SinkStep(H: seq<int>, P: seq<int>, d: seq<int>, E: set<int>, n: int, k: int, v: int, j: int, H': seq<int>, P': seq<int>)
    requires SinkState(H, P, d, E, n, k, v)
    requires (j == 2 * k || j == 2 * k + 1) && j <= n
    requires d[H[j]] <= d[H[2 * k]] && (2 * k + 1 <= n ==> d[H[j]] <= d[H[2 * k + 1]])
    requires d[H[j]] < d[v]
    requires H' == H[k := H[j]] && P' == P[H[j] := k]
    ensures SinkState(H', P', d, E, n, j, v)
  {
    DownStep(H, n, d, k, v, j);
    HeapIndex.MoveHole(H, n, P, E, k, v, j);
  }

  /** When v is no larger than the hole's children, filling the hole with v restores the heap. */
  lemma SinkDone(H: seq<int>, P: seq<int>, d: seq<int>, E: set<int>, n: int, k: int, v: int,
                 H': seq<int>, P': seq<int>, d': seq<int>, E': set<int>, n': int)
    requires SinkState(H, P, d, E, n, k, v)
    requires 2 * k <= n ==> d[v] <= d[H[2 * k]]
    requires 2 * k + 1 <= n ==> d[v] <= d[H[2 * k + 1]]
    requires H' == H[k := v] && P' == P[v := k] && d' == d && E' == E && n' == n
    ensures HeapState(H', P', d', E', n')
  {
    DownDone(H, n, d, k, v);
    HeapIndex.FillHole(H, n, P, E, k, v);
  }

  /**
    Lowering the priority of a resident u to w leaves a sift-up hole at u's
    slot: what MST_Prim relies on before it calls siftUp(hPos[u]).
  */
  lemma DecreaseOpensRise(H: seq<int>, P: seq<int>, d: seq<int>, E: set<int>, n: int, u: int, w: int)
    requires HeapState(H, P, d, E, n)
    requires u in E && 0 <= u < |d| && w <= d[u]
    ensures 1 <= P[u] <= n && H[P[u]] == u
    ensures RiseState(H, P, d[u := w], E, n, P[u], u)
  {
    HeapIndex.ResidentsAreSlots(H, n, P, E, u);
    var k := P[u];
    forall i | 1 <= i <= n && i != k
      ensures H[i] != H[k]
    {
      assert P[H[i]] == i;
    }
    DecreaseMakesUpHole(H, n, d, k, w);
    HeapIndex.OpenHole(H, n, P, E, k);
  }

  /**
    Changing the priority of a vertex that is not resident, or of the only
    resident, keeps the heap: MST_Prim negates dist[v] of the vertex just
    removed, and sets dist[s] = 0 with s alone in the heap.
  */
  lemma Rekey(H: seq<int>, P: seq<int>, d: seq<int>, E: set<int>, n: int, u: int, w: int)
    requires HeapState(H, P, d, E, n)
    requires 0 <= u < |d| && (u !in E || n == 1)
    ensures HeapState(H, P, d[u := w], E, n)
  {
    if u !in E {
      forall i | 1 <= i <= n
        ensures H[i] != u
      {
        assert P[H[i]] == i;
      }
      UpdateNonResident(H, n, d, u, w);
    }
  }
}
