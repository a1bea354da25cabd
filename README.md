# Top downloads: the index-tracking priority queue and the top-two selection

The program asks an artifact repository about its artifacts and prints the two
most downloaded jars. Its real logic is a max-priority queue of `Item`s. Each
item holds a `value` (the artifact name), a `priority` (the download count) and
an `index` (the slot it occupies in the queue's slice). The program code
implements `Len`, `Less`, `Swap`, `Push`, `Pop` and `update` on that slice. Go's
`container/heap` uses these through `Init`, `Pop` and `Fix`. `main` does four
steps:

1. It collects the download count of every artifact whose name contains
   `".jar"` into `countMap`. A repeated name keeps its last count.
2. It puts one item per map entry into the queue.
3. It heapifies the queue.
4. It pops at most two items, which come out largest count first.

The project has three modules:

- `HeapOrder` (`heap_order.dfy`): pure facts about a binary max-heap laid out
  in a sequence of priorities. Slot `k > 0` has its parent at `(k - 1) / 2`.
  The facts cover the states a sift-down or sift-up passes through and the
  lemmas that carry those states from one swap to the next.
- `Artifactory` (`artifactory.dfy`): `Item` and `PriorityQueue` as classes. The
  queue is a `seq<Item>` field that the methods reassign, and the methods write
  the items' fields in place. `Valid()` is the index bookkeeping: slot `k`
  holds an item whose `index` is `k`. The heap routines are here too,
  proved against the heap order of the slot priorities: `SiftDown` and
  `SiftUp` (Go's `down` and `up`), `Init`, `HeapPop` and `Fix`. They follow
  the algorithm of Go's `container/heap`:
  - `down` takes the right child only when it is strictly better than the
    left one, and stops as soon as the child is not better than the parent.
  - `up` computes the parent as `(j - 1) / 2` with Go's truncating division,
    and stops at the root.
  - `Pop` swaps the root with the last slot, sifts down over the rest and then
    calls the queue's own `Pop`.
  - `Fix` sifts down and, only if nothing moved, sifts up.
  - `Init` sifts down every parent, the last one first.
- `TopDownloads` (`top_downloads.dfy`): the selection in `main`. The fetched
  counts arrive as an input sequence of `ArtifactCount(name, downloads)`. Go's
  `strings.Contains` is modelled by a recursive function, proved equal to "occurs at some
  position". `countMap` is a fold over the input, with lemmas for which names
  it keeps and for last-write-wins. `TopTwo` runs the whole selection and
  satisfies `IsTop`:
  - the output has `min(2, |countMap|)` (count, name) entries of the map;
  - the names are distinct and the counts do not increase;
  - no entry that was not output has a larger count than any entry that was.

Three facts about the code shape what the model claims:

- The program has no incremental selector with an insert and a top-k query. It
  fills a map, builds the queue from the map in one go, heapifies it and pops
  at most twice.
- Ties between equal counts fall in Go's map iteration order, because the queue
  is filled in that order. The model therefore makes no claim about the order
  of equal counts.
- Counts are any `int`, negative ones included, and so they are in the model.

## Model

| member | source | states |
|---|---|---|
| Artifactory.Item.constructor | top_downloads/src/pkg/artifactory/artifactrepo.go:79-85 | A new item holds exactly the given value, priority and slot index. |
| Artifactory.PriorityQueue.Len | top_downloads/src/pkg/artifactory/artifactrepo.go:16 | The length is the number of slots in the queue. |
| Artifactory.PriorityQueue.Less | top_downloads/src/pkg/artifactory/artifactrepo.go:18-21 | `Less(i, j)` holds exactly when the priority in slot i is greater than the priority in slot j, so the "least" element of the heap is the one with the largest priority. |
| HeapOrder.RootIsMax | top_downloads/src/pkg/artifactory/artifactrepo.go:18-21 | Under this ordering, the root of a heap holds a priority at least as large as any other slot's. This is the max-heap claim. |
| HeapOrder.RootBoundsAll | top_downloads/src/pkg/artifactory/artifactrepo.go:18-21 | Every priority in a heap is at most the root's. |
| Artifactory.PriorityQueue.Swap | top_downloads/src/pkg/artifactory/artifactrepo.go:23-27 | Slots i and j are exchanged and their items record their new slots. Every other slot keeps its item, and that item keeps its index. The index bookkeeping is preserved. |
| Artifactory.PriorityQueue.Push | top_downloads/src/pkg/artifactory/artifactrepo.go:29-34 | The item is appended after the unchanged old slots, and its index becomes the old length. The bookkeeping is preserved. |
| Artifactory.PriorityQueue.Pop | top_downloads/src/pkg/artifactory/artifactrepo.go:36-44 | On a non-empty queue: returns the former last item with index -1. The queue becomes its old slots without the last one, and the bookkeeping is preserved. |
| Artifactory.PriorityQueue.Update | top_downloads/src/pkg/artifactory/artifactrepo.go:47-51 | The item takes the new value and priority. Afterwards the queue is again a max-heap over the same multiset of items with valid indices, and no other item's value or priority changes. For an item already popped (index -1) the queue itself is left exactly as it was. |
| HeapOrder.SetBreaksOnlyAt | top_downloads/src/pkg/artifactory/artifactrepo.go:47-50 | Giving one slot of a heap a new priority can only break the links into and out of that slot. |
| Artifactory.Fix | top_downloads/src/pkg/artifactory/artifactrepo.go:50 | `heap.Fix` at slot i, when only i's links are broken, restores a max-heap over the same items. At slot -1, or at slot 0 of an empty queue, it changes nothing. |
| Artifactory.SiftDown | top_downloads/src/pkg/artifactory/artifactrepo.go:50 | Go's `down` from i0 over the first n slots makes the subtree below i0 heap-ordered. It keeps the multiset of items, leaves unchanged every slot from n on and every slot other than i0 whose parent lies before i0, and reports whether it moved anything. If it moved, the new item at i0 came from a child of i0. |
| Artifactory.SiftUp | top_downloads/src/pkg/artifactory/artifactrepo.go:50 | Go's `up` from j, when only the link entering j is broken, yields a max-heap over the same items. |
| Artifactory.Init | top_downloads/src/pkg/artifactory/artifactrepo.go:157 | `heap.Init` turns any valid queue into a max-heap over the same items, keeping the index bookkeeping. |
| Artifactory.HeapPop | top_downloads/src/pkg/artifactory/artifactrepo.go:162 | `heap.Pop` on a non-empty heap removes and returns the former root, which has the largest priority: no remaining priority exceeds it. The rest is again a max-heap, and the returned item's index is -1. The item leaves the set of items later heap operations may write. |
| TopDownloads.Contains | top_downloads/src/pkg/artifactory/artifactrepo.go:136 | `strings.Contains(s, sub)` holds exactly when sub occurs in s at some position. |
| TopDownloads.CountMapKeys | top_downloads/src/pkg/artifactory/artifactrepo.go:134-145 | A name is in `countMap` exactly when it contains ".jar" and occurs in the input. |
| TopDownloads.CountMapLastWins | top_downloads/src/pkg/artifactory/artifactrepo.go:134-145 | The count kept for a jar name is the one of its last occurrence. |
| TopDownloads.BuildCountMap | top_downloads/src/pkg/artifactory/artifactrepo.go:134-145 | The loop builds exactly the fold `CountMapOf`, to which the two lemmas above apply. |
| TopDownloads.BuildQueue | top_downloads/src/pkg/artifactory/artifactrepo.go:147-156 | One fresh item per map entry: slot k holds an item with index k, a key of the map and that key's value. Keys are pairwise distinct, and there are as many slots as entries. |
| TopDownloads.Covers | top_downloads/src/pkg/artifactory/artifactrepo.go:147-156 | With as many slots as keys and pairwise distinct keys, every key of the map is held by some slot. |
| TopDownloads.PopStep | top_downloads/src/pkg/artifactory/artifactrepo.go:161-165 | One pop keeps the output loop's bookkeeping. Popped and remaining items still make up the initial queue, the popped items are distinct and non-increasing in priority, and each dominates what remains. |
| TopDownloads.PopTop | top_downloads/src/pkg/artifactory/artifactrepo.go:159-165 | The loop emits min(2, length) (priority, value) pairs of distinct items in non-increasing priority. Every priority still in the queue is at most each emitted one, and every popped item still has index -1 at the end. |
| TopDownloads.SelectionSound | top_downloads/src/pkg/artifactory/artifactrepo.go:147-165 | For a queue holding a map's entries, the popped entries are entries of the map with distinct names, largest first, and no entry left behind beats an emitted one. |
| TopDownloads.SelectTop | top_downloads/src/pkg/artifactory/artifactrepo.go:157-165 | Heapifying and popping a queue that holds a map's entries yields `IsTop` of that map. |
| TopDownloads.TopTwo | top_downloads/src/pkg/artifactory/artifactrepo.go:134-165 | The whole selection yields `IsTop(out, CountMapOf(stats), 2)`: min(2, number of jar names) entries, distinct names, non-increasing counts, and nothing left out is larger. |
| TopDownloads.ThreeJarsTop | top_downloads/src/pkg/artifactory/artifactrepo.go:159-165 | For counts a.jar 5, b.jar 9 and c.jar 1, the only top-two output is [(9, b.jar), (5, a.jar)]. |
| TopDownloads.ExampleThreeJars | top_downloads/src/pkg/artifactory/artifactrepo.go:134-165 | On those three inputs the selection outputs [(9, b.jar), (5, a.jar)]. |
| TopDownloads.ExampleOverwrite | top_downloads/src/pkg/artifactory/artifactrepo.go:134-165 | With inputs a.jar 5, a.pom 20 and a.jar 9, the pom is dropped and the second a.jar count overwrites the first, so the output is [(9, a.jar)]. |
| TopDownloads.ExampleNoJar | top_downloads/src/pkg/artifactory/artifactrepo.go:134-165 | With no jar in the input, nothing is output. |

## Left out

- The HTTP search request, the per-artifact statistics request `getRequest` and their headers and credentials (lines 87-132) are network I/O. The counts they produce are the input sequence of `TopTwo`.
- `json.Unmarshal` and the `Artifacts`/`Artifact`/`ArtifactStats` records are decoding in a foreign library. Only the name and the download count play a part in the selection.
- The `fmt.Printf` formatting at line 163 is not modelled. The output is the sequence of (priority, value) pairs in print order.
- Go's map iteration order at line 149 is unspecified. `BuildQueue` picks the next key with an arbitrary choice, so every proof holds for every order, and nothing is claimed about the order of equal counts.
- `make(PriorityQueue, len(countMap))` first creates empty slots, which the loop then fills in slot order. `BuildQueue` appends the items in that same order, which gives the same final queue.
- `old[n-1] = nil` in `Pop` (line 40) only releases memory and has no observable effect.
- Go's `int` is 64 bits wide, while the model's integers are unbounded. Overflow of counts and of `2*i+1` in `container/heap`'s `down` (which guards against it) is not modelled.
- The source of `container/heap` is not part of this model. `SiftDown`, `SiftUp`, `Init`, `HeapPop` and `Fix` follow Go's published algorithm for those routines.
- `heap.Push` is not modelled because the program never calls it. The queue's own `Push` is modelled.
- Artifactory.PriorityQueue.Push requires the item not to be in the queue already. Pushing an item twice would leave it in two slots with a single index, which the index bookkeeping cannot describe.
- Artifactory.PriorityQueue.Update requires the queue to be a heap and the item to be in it or to have index -1. An item with some other index that is not in this queue is excluded; for it Go's `update` would call `heap.Fix` at an unrelated slot. The program never calls `update`.
- Artifactory.PriorityQueue.Pop requires a non-empty queue. Go's `Pop` reads `old[n-1]` with `n == 0` and panics. `heap.Pop` never reaches it on an empty queue, because its `Swap(0, -1)` panics first.
- Artifactory.HeapPop requires a non-empty queue. Go's `heap.Pop` panics on an empty one, and `main` only pops after checking `Len() > 0`.
- Artifactory.Fix requires the slot to be in range, -1, or 0 on an empty queue. In the excluded cases (a slot past the end of a non-empty queue, or below -1) Go's `up` compares with a slot outside the slice and panics.
- Names are modelled as sequences of Unicode characters, while Go's `strings.Contains` compares bytes. The two agree here, because `json.Unmarshal` yields valid UTF-8 and `".jar"` is ASCII.
- Artifactory.SiftDown does not state that every slot outside the subtree of i0 keeps its item. Its frame covers only the slots from n on and the slots other than i0 whose parent lies before i0. That is all `Init`, `HeapPop` and `Fix` need.
