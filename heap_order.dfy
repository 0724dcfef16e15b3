/**
  Min-heap order on the slots 1..n of a heap array h whose entries are vertex
  ids keyed by a priority sequence d, and the "hole" states that sift-up and
  sift-down pass through while they move one vertex v towards its final slot.
  Everything here is about values, so that the class Heap only has to take
  snapshots of its arrays and call these lemmas.

  The order is stated slot by slot against Parent(c), and each quantifier
  fires only where a proof names Parent(c), so that the facts stay cheap in
  the methods that carry them around.
*/
module HeapOrder {

  /** The parent of slot c; slot 1 is the root and its parent is the guard slot 0. */
  function Parent(c: int): int
  {
    c / 2
  }

  /** Slots 1..n exist and each holds an id that indexes the priorities. */
  ghost predicate Keyed(h: seq<int>, n: int, d: seq<int>)
  {
    0 <= n < |h| && forall i :: 1 <= i <= n ==> 0 <= h[i] < |d|
  }

  /** No slot has a smaller priority than its parent slot. */
  ghost predicate Ordered(h: seq<int>, n: int, d: seq<int>)
    requires Keyed(h, n, d)
  {
    forall c {:trigger Parent(c)} :: 2 <= c <= n ==> d[h[Parent(c)]] <= d[h[c]]
  }

  /**
    Sift-up with a hole at slot k that will receive v: the order holds
    everywhere except on the edges that touch the hole, v is no larger than
    the hole's children, and the hole's parent is no larger than them either.
  */
  ghost predicate UpHole(h: seq<int>, n: int, d: seq<int>, k: int, v: int)
    requires Keyed(h, n, d) && 1 <= k <= n && 0 <= v < |d|
  {
    && (forall c {:trigger Parent(c)} :: 2 <= c <= n && c != k && Parent(c) != k ==> d[h[Parent(c)]] <= d[h[c]])
    && (forall c {:trigger Parent(c)} :: 2 <= c <= n && Parent(c) == k ==> d[v] <= d[h[c]])
    && (k > 1 ==> forall c {:trigger Parent(c)} :: 2 <= c <= n && Parent(c) == k ==> d[h[Parent(k)]] <= d[h[c]])
  }

  /**
    Sift-down with a hole at slot k that will receive v: the order holds
    everywhere except on the edges that touch the hole, and the hole's
    parent is no larger than v nor than the hole's children.
  */
  ghost predicate DownHole(h: seq<int>, n: int, d: seq<int>, k: int, v: int)
    requires Keyed(h, n, d) && 1 <= k <= n && 0 <= v < |d|
  {
    && (forall c {:trigger Parent(c)} :: 2 <= c <= n && c != k && Parent(c) != k ==> d[h[Parent(c)]] <= d[h[c]])
    && (k > 1 ==> d[h[Parent(k)]] <= d[v])
    && (k > 1 ==> forall c {:trigger Parent(c)} :: 2 <= c <= n && Parent(c) == k ==> d[h[Parent(k)]] <= d[h[c]])
  }

  /** In an ordered heap the root has the least priority of all residents. */
  lemma {:induction false} RootIsMinimum(h: seq<int>, n: int, d: seq<int>, i: int)
    requires Keyed(h, n, d) && Ordered(h, n, d)
    requires 1 <= i <= n
    ensures d[h[1]] <= d[h[i]]
    decreases i
  {
    if i > 1 {
      RootIsMinimum(h, n, d, Parent(i));
    }
  }

  /** Appending v at the first free slot of an ordered heap gives a sift-up hole there. */
  lemma AppendMakesUpHole(h: seq<int>, n: int, d: seq<int>, v: int)
    requires Keyed(h, n, d) && Ordered(h, n, d)
    requires n + 1 < |h| && 0 <= v < |d|
    ensures Keyed(h[n + 1 := v], n + 1, d)
    ensures UpHole(h[n + 1 := v], n + 1, d, n + 1, v)
  {
    var h' := h[n + 1 := v];
    forall c | 2 <= c <= n + 1 && c != n + 1 && Parent(c) != n + 1
      ensures d[h'[Parent(c)]] <= d[h'[c]]
    {
      assert d[h[Parent(c)]] <= d[h[c]];
    }
  }

  /**
    Lowering the priority of the vertex in slot k of an ordered heap (the
    vertex occurs nowhere else) leaves a sift-up hole at k.
  */
  lemma DecreaseMakesUpHole(h: seq<int>, n: int, d: seq<int>, k: int, w: int)
    requires Keyed(h, n, d) && Ordered(h, n, d)
    requires 1 <= k <= n && w <= d[h[k]]
    requires forall i :: 1 <= i <= n && i != k ==> h[i] != h[k]
    ensures Keyed(h, n, d[h[k] := w])
    ensures UpHole(h, n, d[h[k] := w], k, h[k])
  {
    var d' := d[h[k] := w];
    forall c | 2 <= c <= n && c != k && Parent(c) != k
      ensures d'[h[Parent(c)]] <= d'[h[c]]
    {
      assert h[c] != h[k] && h[Parent(c)] != h[k];
      assert d[h[Parent(c)]] <= d[h[c]];
    }
    forall c | 2 <= c <= n && Parent(c) == k
      ensures d'[h[k]] <= d'[h[c]]
    {
      assert h[c] != h[k];
      assert d[h[Parent(c)]] <= d[h[c]];
    }
    if k > 1 {
      assert d[h[Parent(k)]] <= d[h[k]];
      forall c | 2 <= c <= n && Parent(c) == k
        ensures d'[h[Parent(k)]] <= d'[h[c]]
      {
        assert h[c] != h[k] && h[Parent(k)] != h[k];
        assert d[h[Parent(c)]] <= d[h[c]];
      }
    }
  }

  /** Changing the priority of a vertex that is not resident keeps the order. */
  lemma UpdateNonResident(h: seq<int>, n: int, d: seq<int>, u: int, w: int)
    requires Keyed(h, n, d) && Ordered(h, n, d)
    requires 0 <= u < |d|
    requires forall i :: 1 <= i <= n ==> h[i] != u
    ensures Keyed(h, n, d[u := w]) && Ordered(h, n, d[u := w])
  {
    var d' := d[u := w];
    forall c | 2 <= c <= n
      ensures d'[h[Parent(c)]] <= d'[h[c]]
    {
      assert h[c] != u && h[Parent(c)] != u;
      assert d[h[Parent(c)]] <= d[h[c]];
    }
  }

  /** One step of sift-up: the parent's vertex moves down into the hole. */
  lemma UpStep(h: seq<int>, n: int, d: seq<int>, k: int, v: int)
    requires Keyed(h, n, d) && 2 <= k <= n && 0 <= v < |d|
    requires UpHole(h, n, d, k, v)
    requires d[v] < d[h[Parent(k)]]
    ensures Keyed(h[k := h[Parent(k)]], n, d)
    ensures UpHole(h[k := h[Parent(k)]], n, d, Parent(k), v)
  {
    var p := Parent(k);
    var h' := h[k := h[p]];
    forall c | 2 <= c <= n && c != p && Parent(c) != p
      ensures d[h'[Parent(c)]] <= d[h'[c]]
    {
      if Parent(c) == k {
        assert h'[Parent(c)] == h[p];
        assert d[h[Parent(k)]] <= d[h[c]];
      } else {
        assert c != k;
        assert d[h[Parent(c)]] <= d[h[c]];
      }
    }
    forall c | 2 <= c <= n && Parent(c) == p
      ensures d[v] <= d[h'[c]]
    {
      if c != k {
        assert d[h[Parent(c)]] <= d[h[c]];
      }
    }
    if p > 1 {
      assert d[h[Parent(p)]] <= d[h[p]];
      forall c | 2 <= c <= n && Parent(c) == p
        ensures d[h'[Parent(p)]] <= d[h'[c]]
      {
        if c != k {
          assert d[h[Parent(c)]] <= d[h[c]];
        }
      }
    }
  }

  /** Sift-up stops when v is no smaller than the hole's parent: filling the hole orders the heap. */
  lemma UpDone(h: seq<int>, n: int, d: seq<int>, k: int, v: int)
    requires Keyed(h, n, d) && 1 <= k <= n && 0 <= v < |d|
    requires UpHole(h, n, d, k, v)
    requires k > 1 ==> d[h[Parent(k)]] <= d[v]
    ensures Keyed(h[k := v], n, d) && Ordered(h[k := v], n, d)
  {
    var h' := h[k := v];
    forall c | 2 <= c <= n
      ensures d[h'[Parent(c)]] <= d[h'[c]]
    {
      if c == k {
      } else if Parent(c) == k {
        assert d[v] <= d[h[c]];
      } else {
        assert d[h[Parent(c)]] <= d[h[c]];
      }
    }
  }

  /** Moving the last vertex of an ordered heap into the root leaves a sift-down hole at the root. */
  lemma RemoveMakesDownHole(h: seq<int>, n: int, d: seq<int>, h': seq<int>, v: int)
    requires Keyed(h, n, d) && Ordered(h, n, d) && n >= 2
    requires |h'| == |h| && 0 <= v < |d| && h'[1] == v
    requires forall i :: 2 <= i < n ==> h'[i] == h[i]
    ensures Keyed(h', n - 1, d) && DownHole(h', n - 1, d, 1, v)
  {
    forall c | 2 <= c <= n - 1 && c != 1 && Parent(c) != 1
      ensures d[h'[Parent(c)]] <= d[h'[c]]
    {
      assert d[h[Parent(c)]] <= d[h[c]];
    }
  }

  /**
    One step of sift-down: the smaller child j of the hole moves up into it,
    and the hole moves down to j.
  */
  lemma DownStep(h: seq<int>, n: int, d: seq<int>, k: int, v: int, j: int)
    requires Keyed(h, n, d) && 1 <= k && (j == 2 * k || j == 2 * k + 1) && j <= n && 0 <= v < |d|
    requires DownHole(h, n, d, k, v)
    requires d[h[j]] <= d[h[2 * k]] && (2 * k + 1 <= n ==> d[h[j]] <= d[h[2 * k + 1]])
    requires d[h[j]] < d[v]
    ensures Keyed(h[k := h[j]], n, d)
    ensures DownHole(h[k := h[j]], n, d, j, v)
  {
    var h' := h[k := h[j]];
    assert Parent(j) == k;
    forall c | 2 <= c <= n && c != j && Parent(c) != j
      ensures d[h'[Parent(c)]] <= d[h'[c]]
    {
      if c == k {
        assert d[h[Parent(k)]] <= d[h[j]];
      } else if Parent(c) == k {
        assert c == 2 * k || c == 2 * k + 1;
      } else {
        assert d[h[Parent(c)]] <= d[h[c]];
      }
    }
    forall c | 2 <= c <= n && Parent(c) == j
      ensures d[h'[Parent(j)]] <= d[h'[c]]
    {
      assert c != k && Parent(c) != k;
      assert d[h[Parent(c)]] <= d[h[c]];
    }
  }

  /** Sift-down stops when v is no larger than the hole's children: filling the hole orders the heap. */
  lemma DownDone(h: seq<int>, n: int, d: seq<int>, k: int, v: int)
    requires Keyed(h, n, d) && 1 <= k <= n && 0 <= v < |d|
    requires DownHole(h, n, d, k, v)
    requires 2 * k <= n ==> d[v] <= d[h[2 * k]]
    requires 2 * k + 1 <= n ==> d[v] <= d[h[2 * k + 1]]
    ensures Keyed(h[k := v], n, d) && Ordered(h[k := v], n, d)
  {
    var h' := h[k := v];
    forall c | 2 <= c <= n
      ensures d[h'[Parent(c)]] <= d[h'[c]]
    {
      if c == k {
      } else if Parent(c) == k {
        assert c == 2 * k || c == 2 * k + 1;
      } else {
        assert d[h[Parent(c)]] <= d[h[c]];
      }
    }
  }
}
