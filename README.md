# Prim's minimum spanning tree on adjacency lists, with an indexed heap

This project is a Dafny model of PrimSparse.cs. That file builds a weighted undirected graph as one adjacency list per vertex. It then grows a spanning tree from a start vertex `s` with Prim's algorithm. The frontier is kept in a binary min-heap. The heap is indexed: it holds vertex ids ordered by the caller's `dist` array. A reverse index `hPos` records each resident's slot, so that a vertex's priority can be lowered in place.

The model has eight modules:

- `Int32` (int32.dfy) holds C#'s `int.MinValue` and `int.MaxValue`. The source uses them as sentinels: the heap guard and "not yet reached".
- `HeapOrder` (heap_order.dfy) defines heap order on a value snapshot `h[1..n]` of the heap array. It also describes a sift's moving hole, and proves that each sift step keeps it.
- `HeapIndex` (heap_index.dfy) covers the reverse index. `pos[h[i]] == i` for every resident, `pos[u] == 0` for every other vertex, and the set of residents has exactly `n` elements. Its lemmas say how a hole moves through that index.
- `IndexedHeap` (heap.dfy) is class `Heap`. Its methods update `h`, `N` and the caller's `dist` and `hPos` arrays in place, as the source does. `siftDown` and `remove` are the corrected versions (see Findings).
- `HeapAsWritten` (heap_as_written.dfy) models `siftDown` and `remove` as written, as functions on values that return `h`, `N` and `hPos`. Counterexample lemmas show each defect.
- `Adjacency` (adjacency.dfy) holds the adjacency lists as sequences of `Neighbour(vertex, wgt)` records, head first. A list is built by pushing records in front, edge by edge.
- `PrimSpec` (prim_spec.dfy) states the main loop's invariant as a predicate on values. Each vertex is finalised, waiting in the heap, or untouched. The predicate also records the extraction order and each vertex's attach weight. Lemmas show that every step of the loop keeps it, and what it gives once the heap is empty.
- `SparseGraph` (graph.dfy) is class `Graph`: the constructor and `MstPrim`. `MstPrim` is split into methods along the source's own phases: set-up, the main loop, one pass of it, taking the minimum, scanning a list, and lowering a key.

What `MstPrim` is proved to return, for non-negative weights:

- The vertices leave the heap in an order that starts at `s`, and no vertex appears twice.
- A vertex leaves the heap exactly when it is reachable from `s`.
- The parent of every other extracted vertex was extracted before it, and is joined to it by an edge whose weight is the vertex's attach weight.
- Every attach weight is no larger than any edge from an earlier vertex to a vertex not yet extracted. This is the light-edge property.
- `wgt_sum` is the sum of the attach weights.
- Unreachable vertices keep `parent == 0` and `dist == int.MaxValue`, and `parent[s]` stays 0.

## Model

| member | source | states |
|---|---|---|
| IndexedHeap.Heap.constructor | PrimSparse.cs:34-40 | a new heap is empty and valid, with `h` of length `maxSize + 1`, and it refers to the caller's `dist` and `hPos` arrays |
| IndexedHeap.Heap.IsEmpty | PrimSparse.cs:42-45 | true exactly when `N == 0`, which for a valid heap is exactly when no vertex is resident; a function, so it changes nothing |
| IndexedHeap.Heap.SiftUp | PrimSparse.cs:47-63 | when only the vertex in slot k may be out of place upward (its priority was lowered or it was just appended), the heap ends valid: heap order plus an exact `hPos` index. The residents and `N` are kept, and only `dist[0]` changes, to the guard `int.MinValue` |
| IndexedHeap.Heap.SiftDown | PrimSparse.cs:65-92 | corrected: when only the vertex in slot k may be out of place downward, the heap ends valid with the same residents and `N`, and only `dist[0]` changes (to the guard). It terminates because the hole's slot at least doubles each step |
| IndexedHeap.Heap.SmallerChild | PrimSparse.cs:75 | corrected child choice: the child of slot k with the least priority, the left one on a tie |
| IndexedHeap.Heap.Put | PrimSparse.cs:56-57 | storing a vertex in a slot records that slot in `hPos`, and nothing else changes |
| IndexedHeap.Heap.Insert | PrimSparse.cs:94-98 | `N` grows by one, x becomes resident, and the heap stays valid; only `dist[0]` changes |
| IndexedHeap.Heap.Remove | PrimSparse.cs:100-114 | corrected: returns the root, whose priority is least among all residents. The root leaves the heap with `hPos == 0`, every other resident stays, `N` drops by one and the heap stays valid. Only `dist[0]` may change, to the guard |
| HeapOrder.RootIsMinimum | PrimSparse.cs:100-104 | in an ordered heap the root's priority is no larger than any resident's |
| HeapOrder.AppendMakesUpHole | PrimSparse.cs:96 | writing x just past the last slot leaves heap order broken at most at that slot, upward |
| HeapOrder.DecreaseMakesUpHole | PrimSparse.cs:276-286 | lowering one resident's priority leaves heap order broken at most at its slot, upward |
| HeapOrder.UpdateNonResident | PrimSparse.cs:268 | changing the priority of a vertex not in the heap keeps heap order |
| HeapOrder.UpStep | PrimSparse.cs:54-58 | moving the parent's vertex down into the hole, while v is strictly smaller than it, moves the hole up and keeps every other order relation |
| HeapOrder.UpDone | PrimSparse.cs:54-61 | once v is no smaller than the hole's parent, filling the hole with v gives an ordered heap |
| HeapOrder.RemoveMakesDownHole | PrimSparse.cs:110 | moving the last vertex into the root of an ordered heap leaves heap order broken at most at the root, downward |
| HeapOrder.DownStep | PrimSparse.cs:73-87 | moving the smaller child up into the hole, while it is strictly smaller than v, moves the hole down and keeps order |
| HeapOrder.DownDone | PrimSparse.cs:80-90 | once v is no larger than the hole's children, filling the hole with v gives an ordered heap |
| HeapIndex.ResidentsAreSlots | PrimSparse.cs:24 | in an exact index, u is resident exactly when some slot holds it, and that slot is `hPos[u]` and no other |
| HeapIndex.OpenHole | PrimSparse.cs:49 | any resident's slot can serve as the hole for that resident |
| HeapIndex.AppendOpensHole | PrimSparse.cs:96 | a new vertex written past the last slot is a hole with a stale index entry |
| HeapIndex.RemoveOpensHole | PrimSparse.cs:105-110 | after the root is taken out with `hPos` 0 and the last vertex moved to the root, the index is exact except for the root slot |
| HeapIndex.MoveHole | PrimSparse.cs:56-57 | moving a vertex into the hole and recording its new slot keeps the index exact except at the new hole |
| HeapIndex.FillHole | PrimSparse.cs:61-62 | putting v in the hole and recording its slot makes the index exact |
| IndexedHeap.GuardHole | PrimSparse.cs:51-52 | storing the guard vertex 0 in slot 0 with priority `int.MinValue` does not disturb a sift-up in progress |
| IndexedHeap.RiseStep | PrimSparse.cs:54-58 | one iteration of the sift-up loop keeps the sift-up state, on the arrays that result from the iteration |
| IndexedHeap.RiseDone | PrimSparse.cs:61-62 | filling the hole where sift-up stops gives a valid heap |
| IndexedHeap.GuardSink | PrimSparse.cs:71 | setting `dist[0]` to the guard does not disturb a sift-down in progress |
| IndexedHeap.SinkStep | PrimSparse.cs:73-87 | one corrected iteration of the sift-down loop keeps the sift-down state |
| IndexedHeap.SinkDone | PrimSparse.cs:90-91 | filling the hole where sift-down stops gives a valid heap |
| IndexedHeap.DecreaseOpensRise | PrimSparse.cs:276-286 | lowering a resident's priority leaves a valid sift-up start at `hPos[u]`, which holds u |
| IndexedHeap.Rekey | PrimSparse.cs:258-268 | changing the priority of a non-resident, or of the only resident, keeps the heap valid |
| HeapAsWritten.SiftDownLoop | PrimSparse.cs:73-88 | the literal loop, with a step bound: its contract only promises the result's shape (an array of the same length and a hole in 1..n); `None` means the fuel ran out |
| HeapAsWritten.SiftDownAsWritten | PrimSparse.cs:65-92 | the literal `siftDown`: the guard write, the loop, then v into the final hole with `hPos[v]` set; the contract only promises arrays of the original lengths when it finishes |
| HeapAsWritten.RemoveAsWritten | PrimSparse.cs:100-114 | the literal `remove`: when it finishes, it returns the old root and N drops by one; `None` when the write at line 108 falls past the end of `h` or the sift does not finish within the bound |
| HeapAsWritten.CycleNeverEnds | PrimSparse.cs:73-87 | from the state shown, the literal loop never finishes, whatever the step bound |
| HeapAsWritten.SiftDownCycles | PrimSparse.cs:77 | on an already ordered three-vertex heap, `siftDown(1)` as written does not terminate |
| HeapAsWritten.SiftDownComparesVertexId | PrimSparse.cs:80 | as written, sift-down compares the vertex id with a priority, stops early, and leaves the heap out of order |
| HeapAsWritten.StaleRun | PrimSparse.cs:65-92 | the exact arrays `siftDown(1)` as written leaves on the stale-index example |
| HeapAsWritten.SiftDownPicksLargerChild | PrimSparse.cs:75 | as written, sift-down descends into the child with the larger priority and leaves the heap out of order |
| HeapAsWritten.SiftDownLeavesStaleIndex | PrimSparse.cs:85 | as written, a vertex moved up by sift-down keeps its old `hPos` entry |
| HeapAsWritten.RemoveOverruns | PrimSparse.cs:108 | as written, `remove` on a full heap of size 1 indexes past the end of `h` |
| HeapAsWritten.RemoveLeavesIndex | PrimSparse.cs:104-111 | as written, removing the only resident leaves its `hPos` at 1 through lines 90-91, so it still looks resident |
| Adjacency.EmptyAdj | PrimSparse.cs:168-170 | every list of vertices 0..V starts empty |
| Adjacency.AddEdge | PrimSparse.cs:186-197 | edge u--v of weight w puts `(u, w)` in front of v's list and `(v, w)` in front of u's list, and leaves every other list as it was; a self-loop puts both records on one list |
| Adjacency.BuildAdj | PrimSparse.cs:168-197 | reading the edges in order gives V + 1 lists; what they hold is stated by RecordCount and Multiplicity |
| Adjacency.TotalSizeEmpty | PrimSparse.cs:168-170 | the initial lists hold no record |
| Adjacency.RecordCount | PrimSparse.cs:168-197 | after E edges the lists hold exactly 2E records: duplicates are kept, and a self-loop adds two |
| Adjacency.Multiplicity | PrimSparse.cs:186-197 | x's list holds the record `(y, w)` exactly as many times as the edges with endpoints x and y and weight w put it there |
| Adjacency.CountIsSymmetric | PrimSparse.cs:186-197 | the count of such records does not depend on which endpoint is asked about |
| Adjacency.LinksAreSymmetric | PrimSparse.cs:186-197 | y is on x's list with weight w exactly as often as x is on y's list with weight w |
| SparseGraph.Graph.constructor | PrimSparse.cs:141-199 | given edges already parsed, with both ends in 1..V, the lists are exactly those the edges build, and `E` is the number of edges |
| SparseGraph.BuiltIsGraph | PrimSparse.cs:168-197 | with weights in 0..`int.MaxValue`, the lists built from the edges name only vertices 1..V |
| SparseGraph.Graph.MstPrim | PrimSparse.cs:230-295 | the extraction order starts at s, with attach weight 0 and `parent[s] == 0`, and has no repeats. A vertex is extracted exactly when it is reachable from s. Each later vertex's parent was extracted earlier and is joined to it by an edge of its attach weight. Each attach weight is a lightest edge across the cut at its step. `wgt_sum` is the sum of the attach weights. Unreached vertices keep parent 0 and dist `int.MaxValue`, and each extracted vertex's dist is minus its attach weight; `finalDist` is the `dist` array's final contents. `parent[0]` is 0 |
| SparseGraph.Report | PrimSparse.cs:294 | the conclusions about the final parent values hold for the returned parent array and the lists the edges build |
| SparseGraph.NewArrays | PrimSparse.cs:241-252 | three new distinct arrays of length V + 1, with dist `int.MaxValue`, parent 0 and hPos 0 on every vertex 1..V, and `parent[0] == 0` as C#'s zero-filled array has it |
| SparseGraph.Setup | PrimSparse.cs:241-258 | after initialisation, dist is `int.MaxValue` and parent 0 everywhere except `dist[s] == 0`, and `parent[0] == 0`; the heap is valid, holds s alone, and refers to dist and hPos. This is the loop invariant's starting state |
| SparseGraph.Grow | PrimSparse.cs:260-290 | the loop ends with the heap valid and empty; the loop invariant holds of the `dist` and `parent` arrays themselves, with no vertex waiting; every list of a finalised vertex has been scanned; `parent[0]` is still 0; and `wgt_sum` is the sum of the attach weights |
| SparseGraph.Visit | PrimSparse.cs:260-290 | one pass of the main loop keeps the invariant for the `dist` and `parent` arrays and the heap's residents. It appends exactly one vertex to the extraction order and its attach weight to the weights, adds that weight to `wgt_sum`, keeps the count of extracted vertices below V + 1, and leaves `parent[0]` alone |
| SparseGraph.TakeMin | PrimSparse.cs:262-268 | the vertex taken out has the least dist of all residents, leaves the heap, and its dist becomes the negation of its attach weight; parent is unchanged |
| SparseGraph.Scan | PrimSparse.cs:270-289 | relaxing every link of the vertex just finalised keeps the invariant, with all of that vertex's links covered |
| SparseGraph.LowerKey | PrimSparse.cs:276-287 | dist[u] becomes w and u is resident afterwards: inserted when `hPos[u] == 0`, sifted up from `hPos[u]` otherwise; the heap stays valid |
| SparseGraph.ExtractStep | PrimSparse.cs:262-268 | taking out a least-dist resident and negating its dist keeps the invariant, also when the heap set `dist[0]` to its guard |
| SparseGraph.RelaxStep | PrimSparse.cs:274-287 | a relaxation followed by the heap operation, which sets `dist[0]` to the guard, keeps the invariant |
| PrimSpec.ReachableStart | PrimSparse.cs:256 | s is reachable from itself |
| PrimSpec.ReachableStep | PrimSparse.cs:270-278 | a vertex linked to a reachable vertex by an edge lighter than `int.MaxValue` is reachable |
| PrimSpec.ClosedHoldsReachable | PrimSparse.cs:260-290 | a set of vertices that holds s and is closed under such edges holds every reachable vertex |
| PrimSpec.SumAppend | PrimSparse.cs:264 | adding one more attach weight adds it to the sum |
| PrimSpec.Start | PrimSparse.cs:246-258 | dist `int.MaxValue` and parent 0 everywhere, except `dist[s] == 0` with s alone in the heap, satisfies the loop invariant |
| PrimSpec.Guard | PrimSparse.cs:51-52 | the invariant does not depend on `dist[0]`, where the heap keeps its guard |
| PrimSpec.Extract | PrimSparse.cs:262-268 | finalising a least-dist waiting vertex keeps the invariant: it joins the order with its dist as attach weight, and this weight is a lightest edge across the cut |
| PrimSpec.ExtractProgress | PrimSparse.cs:262 | after an extraction the order and the positions stay consistent and the vertex leaves the waiting set |
| PrimSpec.ExtractLabels | PrimSparse.cs:268 | after an extraction, dist and parent still match each vertex's state |
| PrimSpec.ExtractFrontier | PrimSparse.cs:262-268 | after an extraction every link of the earlier vertices is still covered |
| PrimSpec.ExtractLight | PrimSparse.cs:262-268 | the extracted vertex's weight is no larger than any edge leaving the earlier vertices to a vertex not yet extracted |
| PrimSpec.RelaxSkip | PrimSparse.cs:274 | a link with `t.wgt >= dist[u]` changes nothing and keeps the invariant |
| PrimSpec.Relax | PrimSparse.cs:274-287 | a link with `t.wgt < dist[u]` never reaches a finalised vertex or s. It lowers `dist[u]` to the link's weight, makes the vertex just finalised u's parent, makes u a waiting vertex, and keeps the invariant |
| PrimSpec.RelaxLabels | PrimSparse.cs:276-278 | after a relaxation, dist and parent still match each vertex's state |
| PrimSpec.Finalised | PrimSparse.cs:268 | a finalised vertex has dist equal to minus its attach weight, so at most 0 |
| PrimSpec.Finish | PrimSparse.cs:260 | when the heap is empty, a vertex has been extracted exactly when it is reachable from s |
| PrimSpec.Outcome | PrimSparse.cs:260-295 | when the heap is empty: the order has no repeats and starts at s; extraction holds exactly for reachable vertices; parents come earlier and are linked by the attach weight; each attach weight is light; unreached vertices keep parent 0 and dist `int.MaxValue` |
| PrimSpec.Capacity | PrimSparse.cs:254 | extracted and waiting vertices are distinct vertices of 1..V, so there are at most V of them, and an insert never overflows `h` |

## Left out

- File reading and parsing in the Graph constructor (PrimSparse.cs:147-157, 176-182). These are I/O, so the constructor takes the edges already parsed.
- Console output and the routines that only format it. These are `toChar`, `display`, `showMST`, the traces at lines 173, 184, 266 and 292, and `Main`. All of them are I/O.
- The `Node` linked lists and the self-looping sentinel `z` are sequences of `Neighbour` records. The shared sentinel has no counterpart. The source leaves `adj[0]` unset, and the model gives it an empty list.
- The unused `visited` field (line 138) and `seen` array (line 244) are not modelled. Nothing reads them.
- The model uses unbounded integers, so it does not capture 32-bit overflow of `wgt_sum` or of `dist`.
- SparseGraph.Graph.MstPrim: does not state that the tree has least total weight. That needs the cut and exchange arguments. What is proved is the light-edge property at every extraction, which those arguments start from.
- SparseGraph.Graph.MstPrim: requires edge weights in 0..`int.MaxValue`. The negation at line 268 marks a vertex finalised by giving it a dist of at most 0. Only when every weight is non-negative does that keep the strict `<` test at line 274 from relaxing the vertex again. With a negative weight the negated dist can be positive, and a finalised vertex can be relaxed and re-inserted.
- SparseGraph.Graph.MstPrim: reachability counts only edges lighter than `int.MaxValue`. An edge of exactly that weight never passes the strict `<` test against the "unreached" sentinel, so the source does not follow it either.
- IndexedHeap.Heap.constructor: requires the caller's `hPos` to mark every vertex absent. The source relies on this without checking it, and `MST_Prim` zeroes `hPos` just before (lines 246-252).
- IndexedHeap.Heap.SiftUp: the contract says the heap ends ordered and indexed. It does not say that equal priorities never swap. The loop tests the strict `<` of line 54 as the source does.
- IndexedHeap.Heap.SiftUp: requires that only slot k may be out of place. The source's two callers (`insert`, and `MST_Prim` after lowering a key) both establish this, and the source relies on it.
- Extraction order across several `remove` calls is not a separate lemma. It follows from each `Remove` returning a least resident while leaving other priorities unchanged.
- Some helpers have no source counterpart and stand for inline code: `SmallerChild`, `Put`, `NewArrays`, `Setup`, `Grow`, `Visit`, `TakeMin`, `Scan` and `LowerKey`. The extraction order, positions, attach weights, and value copies of dist and parent are ghost results that exist only for the proof.
- HeapAsWritten.SiftDownAsWritten: does not return `dist`. The write of `int.MinValue` into the caller's `dist[0]` at line 71 is used for the loop's comparisons, but it is not part of the result; the same holds for HeapAsWritten.RemoveAsWritten.

## Findings

The source's `siftDown` and `remove` cannot be verified as written. `HeapAsWritten` models them as written (returning `h`, `N` and `hPos`), and each row below names the lemma that exhibits the problem there. `IndexedHeap.Heap.SiftDown` and `IndexedHeap.Heap.Remove` are the corrected definitions that the rest of the model uses. Their contracts state the intended properties. The comment at PrimSparse.cs:104 says the removed vertex is no longer in the heap, which the code as written does not keep when the heap empties.

| source | as written | input that shows it | evidently intended | confidence | as-written member | corrected member |
|---|---|---|---|---|---|---|
| PrimSparse.cs:77 | `j = j = 1` sets the child index to the root | `h = [0,1,2,3]`, `dist = [min,5,6,7]`, `siftDown(1)` | `j = j + 1` (take the right child) | high (not executed) | HeapAsWritten.SiftDownCycles | IndexedHeap.Heap.SiftDown |
| PrimSparse.cs:75 | the right child is taken when its priority is larger | `h = [0,3,1,2]`, `dist = [min,5,2,10]`, `siftDown(1)` | take the right child when its priority is smaller | high (not executed) | HeapAsWritten.SiftDownPicksLargerChild | IndexedHeap.Heap.SiftDown |
| PrimSparse.cs:80 | the loop stops when the vertex id `v` is at least a priority | `h = [0,2,1]`, `dist = [min,1,9]`, `siftDown(1)` | stop when `dist[v] <= dist[h[j]]` | high (not executed) | HeapAsWritten.SiftDownComparesVertexId | IndexedHeap.Heap.SiftDown |
| PrimSparse.cs:85 | a vertex moved up keeps its old `hPos` entry | `h = [0,3,1,2]`, `dist = [min,5,2,10]`, `hPos = [0,2,3,1]`, `siftDown(1)` | also set `hPos[h[k]] = k` | high (not executed) | HeapAsWritten.SiftDownLeavesStaleIndex | IndexedHeap.Heap.SiftDown |
| PrimSparse.cs:108 | `h[N+1] = 0` before the decrement writes one past the end of a full heap | V = 1: `new Heap(1, …)`, `insert(s)`, `remove()` | clear the slot just vacated, `h[N]` before the decrement | high (not executed) | HeapAsWritten.RemoveOverruns | IndexedHeap.Heap.Remove |
| PrimSparse.cs:104-111 | removing the last resident calls `siftDown(1)`, whose lines 90-91 set `hPos[v]` back to 1 | heap holding only vertex 1, `remove()` | skip the sift when the heap has become empty | high (not executed) | HeapAsWritten.RemoveLeavesIndex | IndexedHeap.Heap.Remove |
