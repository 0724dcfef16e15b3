/**
  Heap.siftDown and Heap.remove of PrimSparse.cs as written, on values, to
  exhibit where they go wrong. The class Heap in heap.dfy holds the
  corrected versions, which the rest of the model uses. The functions return
  h, N and hPos; the write of int.MinValue into the caller's dist[0] (line
  71) is used for the comparisons but is not part of the result.

  siftDown as written need not terminate, so it is a function of a fuel
  bound: for SiftDownLoop and SiftDownAsWritten, None means the loop was
  still running when the fuel ran out. RemoveAsWritten also gives None when
  line 108 writes past the end of h.
*/
module HeapAsWritten {
  import opened Int32
  import opened HeapOrder

  datatype Option<T> = None | Some(value: T)

  /** The arrays a call leaves behind: the heap array, its size and the reverse index. */
  datatype HeapArrays = HeapArrays(h: seq<int>, n: int, hPos: seq<int>)

  /**
    The loop of PrimSparse.cs:73-88 with v the vertex taken out of the
    hole and k the hole: the right child is taken when it is larger (line 75),
    and then j is set to 1 (line 77); the loop stops when the vertex id v is
    at least a priority (line 80); the moved vertex's hPos is not updated
    (line 85). Returns the array and the final hole.
  */
  function SiftDownLoop(h: seq<int>, n: int, d: seq<int>, v: int, k: int, j: int, fuel: nat): (r: Option<(seq<int>, int)>)
    requires Keyed(h, n, d) && 1 <= k <= n && j == 2 * k
    ensures r.Some? ==> |r.value.0| == |h| && 1 <= r.value.1 <= n
    decreases fuel
  {
    if j > n then Some((h, k))
    else if fuel == 0 then None
    else
      var j' := if j + 1 <= n && d[h[j + 1]] > d[h[j]] then 1 else j;
      if v >= d[h[j']] then Some((h, k))
      else SiftDownLoop(h[k := h[j']], n, d, v, j', 2 * j', fuel - 1)
  }

  /** PrimSparse.cs:65-92 as written: dist[0] is set to the guard, then the loop, then v fills the hole. */
  function SiftDownAsWritten(h: seq<int>, n: int, d: seq<int>, hPos: seq<int>, k: int, fuel: nat): (r: Option<(seq<int>, seq<int>)>)
    requires Keyed(h, n, d) && 1 <= k <= n && |d| >= 1 && 0 <= h[k] < |hPos|
    ensures r.Some? ==> |r.value.0| == |h| && |r.value.1| == |hPos|
  {
    var v := h[k];
    match SiftDownLoop(h, n, d[0 := MinValue], v, k, 2 * k, fuel)
    case None => None
    case Some((h', k')) => Some((h'[k' := v], hPos[v := k']))
  }

  /**
    PrimSparse.cs:100-114 as written: hPos[v] = 0, then h[N+1] = 0 before N
    is decremented, which indexes past the end of h when the heap is full
    (None), then the last vertex moves to the root and siftDown(1) runs even
    when the heap has just become empty. Returns the removed vertex too.
  */
  function RemoveAsWritten(h: seq<int>, n: int, d: seq<int>, hPos: seq<int>, fuel: nat): (r: Option<(HeapArrays, int)>)
    requires Keyed(h, n, d) && 1 <= n && |d| >= 1
    requires forall i :: 1 <= i <= n ==> h[i] < |hPos|
    ensures r.Some? ==> r.value.1 == h[1] && r.value.0.n == n - 1
  {
    var v := h[1];
    var hPos1 := hPos[v := 0];
    if n + 1 >= |h| then None
    else
      var h1 := h[n + 1 := 0];
      var h2 := h1[1 := h1[n]];
      if n - 1 == 0 then
        // siftDown(1) with N == 0: the loop does not run, and h[1] = v; hPos[v] = 1
        Some((HeapArrays(h2[1 := h2[1]], 0, hPos1[h2[1] := 1]), v))
      else
        match SiftDownAsWritten(h2, n - 1, d, hPos1, 1, fuel)
        case None => None
        case Some((h', hPos')) => Some((HeapArrays(h', n - 1, hPos'), v))
  }

  /** The three-vertex heap on which siftDown(1) as written cycles. */
  const CycleHeap: seq<int> := [0, 1, 2, 3]
  const CycleDist: seq<int> := [MinValue, 5, 6, 7]

  /** From the cycle state, the loop is back at the same state after every step (lines 75-87 with j = 1). */
  lemma {:induction false} CycleNeverEnds(fuel: nat)
    ensures Keyed(CycleHeap, 3, CycleDist)
    ensures SiftDownLoop(CycleHeap, 3, CycleDist, 1, 1, 2, fuel) == None
    decreases fuel
  {
    assert Keyed(CycleHeap, 3, CycleDist);
    if fuel > 0 {
      assert CycleHeap[1 := CycleHeap[1]] == CycleHeap;
      CycleNeverEnds(fuel - 1);
    }
  }

  /**
    PrimSparse.cs:77: on the ordered heap h = [0,1,2,3] with priorities
    [min,5,6,7], siftDown(1) never terminates: with j = 1 it moves h[1] onto
    itself and starts over at j = 2. The corrected sift-down accepts this state.
  */
  lemma SiftDownCycles(fuel: nat)
    ensures Keyed(CycleHeap, 3, CycleDist) && Ordered(CycleHeap, 3, CycleDist)
    ensures SiftDownAsWritten(CycleHeap, 3, CycleDist, [0, 1, 2, 3], 1, fuel) == None
  {
    CycleNeverEnds(fuel);
    assert CycleDist[0 := MinValue] == CycleDist;
    forall c | 2 <= c <= 3
      ensures CycleDist[CycleHeap[Parent(c)]] <= CycleDist[CycleHeap[c]]
    {
    }
  }

  /**
    PrimSparse.cs:80: with vertex 2 (priority 9) moved into the root above
    vertex 1 (priority 1), siftDown(1) compares the id 2 with the priority 1
    and stops at once, leaving the heap out of order.
  */
  lemma SiftDownComparesVertexId()
    ensures var d := [MinValue, 1, 9];
            && Keyed([0, 2, 1], 2, d)
            && SiftDownAsWritten([0, 2, 1], 2, d, [0, 2, 1], 1, 1) == Some(([0, 2, 1], [0, 2, 1]))
            && !Ordered([0, 2, 1], 2, d)
  {
    var d := [MinValue, 1, 9];
    assert Keyed([0, 2, 1], 2, d);
    assert d[0 := MinValue] == d;
    assert SiftDownLoop([0, 2, 1], 2, d, 2, 1, 2, 1) == Some(([0, 2, 1], 1));
    assert [0, 2, 1][1 := 2] == [0, 2, 1];
    assert [0, 2, 1][2 := 1] == [0, 2, 1];
    assert Parent(2) == 1;
  }

  const StaleHeap: seq<int> := [0, 3, 1, 2]
  const StaleDist: seq<int> := [MinValue, 5, 2, 10]
  const StalePos: seq<int> := [0, 2, 3, 1]

  /** The run of siftDown(1) from StaleHeap: vertex 1 moves up, vertex 3 ends in slot 2. */
  lemma StaleRun()
    ensures Keyed(StaleHeap, 3, StaleDist)
    ensures SiftDownAsWritten(StaleHeap, 3, StaleDist, StalePos, 1, 2) == Some(([0, 1, 3, 2], [0, 2, 3, 2]))
  {
    assert Keyed(StaleHeap, 3, StaleDist);
    assert StaleDist[0 := MinValue] == StaleDist;
    assert SiftDownLoop(StaleHeap, 3, StaleDist, 3, 1, 2, 2) == Some(([0, 1, 1, 2], 2)) by {
      assert StaleHeap[1 := 1] == [0, 1, 1, 2];
      assert Keyed([0, 1, 1, 2], 3, StaleDist);
    }
    assert [0, 1, 1, 2][2 := 3] == [0, 1, 3, 2];
    assert StalePos[3 := 2] == [0, 2, 3, 2];
  }

  /**
    PrimSparse.cs:75: in h = [0,3,1,2] with priorities [min,5,2,10], vertex 3
    sinks into the child holding the larger priority (5, not 2), and the
    root ends up above a smaller priority.
  */
  lemma SiftDownPicksLargerChild()
    ensures Keyed(StaleHeap, 3, StaleDist)
    ensures SiftDownAsWritten(StaleHeap, 3, StaleDist, StalePos, 1, 2) == Some(([0, 1, 3, 2], [0, 2, 3, 2]))
    ensures Keyed([0, 1, 3, 2], 3, StaleDist) && !Ordered([0, 1, 3, 2], 3, StaleDist)
  {
    StaleRun();
    assert Keyed([0, 1, 3, 2], 3, StaleDist);
    assert Parent(3) == 1;
  }

  /**
    PrimSparse.cs:85: in the same run vertex 1 moves from slot 2 to slot 1,
    but its hPos entry still says 2.
  */
  lemma SiftDownLeavesStaleIndex()
    ensures SiftDownAsWritten(StaleHeap, 3, StaleDist, StalePos, 1, 2) == Some(([0, 1, 3, 2], [0, 2, 3, 2]))
    ensures var r := [0, 1, 3, 2]; var pos := [0, 2, 3, 2];
            r[1] == 1 && pos[r[1]] != 1
  {
    StaleRun();
  }

  /**
    PrimSparse.cs:108: a heap built with maxSize 1 (as MST_Prim builds it for
    a graph of one vertex) holding that vertex overruns h on the first remove.
  */
  lemma RemoveOverruns(s: int, d: seq<int>, hPos: seq<int>, fuel: nat)
    requires 0 <= s < |d| && s < |hPos|
    ensures Keyed([0, s], 1, d)
    ensures RemoveAsWritten([0, s], 1, d, hPos, fuel) == None
  {
    assert Keyed([0, s], 1, d);
  }

  /**
    PrimSparse.cs:104-111 with 90-91: removing the only resident sets its
    hPos to 0 and then siftDown(1) sets it back to 1, so the removed vertex
    still looks resident.
  */
  lemma RemoveLeavesIndex(d: seq<int>, fuel: nat)
    requires |d| >= 2
    ensures Keyed([0, 1, 0], 1, d)
    ensures var r := RemoveAsWritten([0, 1, 0], 1, d, [0, 1, 0], fuel);
            r.Some? && r.value.1 == 1 && r.value.0.n == 0 && r.value.0.hPos[1] == 1
  {
    assert Keyed([0, 1, 0], 1, d);
  }
}
