# fibheap in Dafny

This is a Dafny model of the Go package `fibheap`: a mergeable min-priority queue
built as a Fibonacci heap. Every entry is a caller-supplied tag, unique in the
heap, with a float64 priority (its key). The model follows the three core files.

- `types.go`: the heap struct and the node record.
  - The heap struct holds a root list, a tag → node index, the `treeDegrees`
    table, a min pointer and a count.
  - The node record holds the parent, the children list, the mark, the degree
    and the position.
- `internal.go`: the structural operations, each ending in the heap invariant.
  - `insert` files a new single-node tree.
  - `extractMin` promotes the min's children to roots, drops the min and
    consolidates.
  - `consolidate` links roots of equal degree until all root degrees differ.
  - `link`, `cut` and `cascadingCut` restructure the trees.
  - `resetMin` rescans the roots for the minimum.
  - `decreaseKey` and `increaseKey` change one key and repair heap order.
  - `deleteNode` lowers a key to the reserved -inf and then extracts the minimum.
- `fibheap.go`: the public API that the class `FibHeaps.FibHeap` models.
  - `NewFibHeap`, `Num`, `Insert`, `Minimum`, `ExtractMin`, `Union`.
  - `DecreaseKey`, `IncreaseKey`, `Delete`, `GetPriority`, `ExtractPriority`,
    `Extract`.

How the model is laid out:

- Nodes live in an arena, `seq<Node<T>>`, and are named by their position in it.
  - A Go `*list.List` of nodes (the root list, a children list) is a
    `seq<nat>` of arena positions.
  - `parent` and `min` are `Option<nat>`.
  - The tag index is `map<T, nat>`; `treeDegrees` is `map<nat, nat>`, where a
    nil slot is an absent key.
- The abstract contents of a heap is the map from each live tag to its key
  (`Forests.ContentsOf`).
  - Every public operation is specified against that map.
  - The heap invariant (`Internal.HeapOk`) is kept by every operation. It says
    the parent and child links agree. Every node has a larger ghost rank than
    its children, so the trees are acyclic. Children's keys are no smaller than
    their parent's. The count equals the size of the index. Every filled
    degree-table slot names a root that records the slot. `min` is nil exactly
    when the heap is empty, and otherwise a root with the least key.
- Keys are `NegInf | Fin(real) | PosInf`, compared the way Go compares non-NaN
  float64 values. NegInf is the reserved -inf sentinel.
- The internal operations (module `Internal`, with `Consolidation` and
  `Forests`) are methods on the struct's field values. They return the new
  field values. The class methods write those values back to the fields.
- `resetMin`, the children loop of `increaseKey`, the promotion loop of
  `extractMin`, the scan loop of `consolidate` and both loops of `Union` are
  `while`/`for` loops. Each loop carries its own invariants. `cascadingCut` is
  recursive, as in the source.

The files do not agree on names:

- The node struct in `types.go` has fields `data` and `priority`. `internal.go`
  uses `tag`, `key` and a `value` payload.
- `fibheap.go` calls `insert`, `decreaseKey` and `increaseKey` with one argument
  fewer than `internal.go` declares.
- The model follows the code of `internal.go`. A node is a (tag, key) pair plus
  bookkeeping, and the payload is dropped.
- The public methods keep the names in `fibheap.go`. `Extract` returns
  `(data, key)`, where data is the stored tag.

Error values are the datatype `Internal.Error`. The source has eight distinct
error messages; the model has five constructors, one per kind of failure, and
merges messages that differ only in wording or in the function that returns
them:

- `ReservedKey`: the -inf message of `insert` (internal.go:61) and the
  differently worded -inf message of `DecreaseKey` and `IncreaseKey`
  (fibheap.go:84, 98).
- `DuplicateTag`: the duplicate-tag message of `insert` (internal.go:65) and
  the duplicate-data message of `Union` (fibheap.go:69).
- `TagNotFound`: "Value is not found" of `DecreaseKey` and `IncreaseKey`
  (fibheap.go:91, 105) and "Tag is not found" of `Delete` (fibheap.go:112).
- `KeyNotSmaller`: the message of `decreaseKey` (internal.go:133).
- `KeyNotLarger`: the message of `increaseKey` (internal.go:155).

When several entries share the least key, which one `Minimum` and
`ExtractMin` report is fixed by the min pointer. `FibHeaps.FibHeap.MinEntry`
is the entry that `min` names. `Minimum` reports it and `ExtractMin` returns
and removes it. `Insert` and `DecreaseKey` state exactly where it moves, and
`IncreaseKey` states that it stays when another tag is raised. The operations
that rescan the roots leave it only known to be some least entry (see
"## Left out").

## Model

| member | source | states |
|---|---|---|
| FibHeaps.FibHeap.constructor | fibheap.go:13-30 | a new heap satisfies the invariant, is empty, has no min entry, and keeps the given zero tag |
| FibHeaps.FibHeap.Num | fibheap.go:33-35 | the count is the number of entries |
| FibHeaps.FibHeap.Minimum | fibheap.go:45-51 | empty heap: the zero tag and -inf; otherwise a stored tag whose key is the least key, namely the min entry (which of several least entries it is); changes nothing |
| FibHeaps.FibHeap.GetPriority | fibheap.go:122-128 | the tag's key, or -inf when the tag is absent; changes nothing |
| FibHeaps.FibHeap.Insert | fibheap.go:39-41 | -inf is refused first, then a present tag; on success exactly (tag, key) is added, and the min entry becomes (tag, key) only when the heap was empty or key is strictly below the old min entry's key, so an earlier entry keeps a tie; on error nothing changes |
| FibHeaps.FibHeap.ExtractMin | fibheap.go:55-62 | empty heap: (zero, -inf) and nothing changes; otherwise it returns the min entry, whose key is the least, and removes exactly that tag; every key left is at least the key returned |
| FibHeaps.FibHeap.SharesTag | fibheap.go:67-71 | true exactly when some tag of the other heap is already present |
| FibHeaps.FibHeap.InsertEach | fibheap.go:73-75 | inserting every entry of a disjoint, -inf-free arena in any order adds exactly those entries |
| FibHeaps.FibHeap.Union | fibheap.go:66-78 | on a tag collision: an error and no change; otherwise the contents become the union of both heaps; the other heap is never changed |
| FibHeaps.UnionCountAndLeast | fibheap.go:73-77 | after a union of disjoint heaps, the count is the sum of both counts and the least key is the smaller of the two least keys |
| Keys.LeastOfUnion | fibheap.go:73-77 | the least key of two disjoint collections together is the smaller of their least keys |
| FibHeaps.FibHeap.DecreaseKey | fibheap.go:82-92 | -inf, then an absent tag, then a key not strictly smaller are errors that change nothing; otherwise only that tag's key changes, and the min entry becomes (tag, key) exactly when key is strictly below the old min entry's key, otherwise it stays |
| FibHeaps.FibHeap.IncreaseKey | fibheap.go:96-106 | -inf, then an absent tag, then a key not strictly larger are errors that change nothing; otherwise only that tag's key changes, and the min entry is unchanged unless it was the raised tag |
| FibHeaps.FibHeap.Delete | fibheap.go:110-118 | an absent tag is an error that changes nothing; a present tag is removed and nothing else |
| FibHeaps.FibHeap.ExtractPriority | fibheap.go:132-140 | the tag's key before removal, or -inf and no change when absent; the tag is removed |
| FibHeaps.FibHeap.Extract | fibheap.go:144-153 | the tag itself and its key before removal, or the tag and -inf with no change when absent; the tag is removed |
| Keys.SuccessiveLeastNondecreasing | fibheap.go:55-62 | removing a least entry never lowers the least key, so successive ExtractMin results do not decrease |
| Internal.InsertAt | internal.go:59-83 | -inf is refused, then a present tag, and both leave every field as it was; otherwise a parent-less, childless root is appended under a new index entry, the count rises by one, and min moves to it only when the heap was empty or its key is strictly smaller; the invariant holds and the contents gain exactly (tag, key) |
| Internal.InsertKeepsHeap | internal.go:68-80 | filing a fresh single-node tree keeps the heap invariant and adds exactly its entry |
| Internal.InsertMin | internal.go:78-80 | the min rule of insert (empty heap, or a strictly smaller key) keeps min a root with the least key |
| Forests.InsertKeepsForest | internal.go:68-76 | appending a new root under a fresh tag keeps the forest invariant |
| Forests.InsertContents | internal.go:68-75 | appending a node under a fresh tag adds exactly that tag's entry to the contents |
| Internal.Promote | internal.go:88-94 | the min's children, in order, are appended to the root list with their parent cleared; no other node changes and marks are kept |
| Forests.PromoteKeepsForest | internal.go:88-98 | promoting the min's children and removing the min from the roots and the index leaves a valid forest |
| Internal.ExtractSlots | internal.go:97 | clearing the min's slot leaves every other slot naming a root that records it |
| Internal.DetachMin | internal.go:88-99 | after promotion and removal, the forest is valid, the count is the index size, and the contents lose exactly the min's tag |
| Internal.ExtractMinAt | internal.go:85-108 | it returns the old min, which is live and holds the least key; the invariant holds afterwards (min nil exactly when the count reaches 0); the contents lose exactly that tag; the count drops by one |
| Internal.DeleteNodeAt | internal.go:110-113 | lowering the node's key to -inf and then extracting the minimum removes exactly that node's tag and keeps the invariant |
| Internal.ReservedIsMin | internal.go:110-112 | once one key is -inf and no other is, the min pointer is that node |
| Internal.LiveNotReserved | internal.go:60-62 | since insert refuses -inf, every stored key is above -inf |
| Consolidation.Consolidate | internal.go:22-55 | the entries are unchanged and the forest stays valid; afterwards no two roots share a degree, and every root is filed in the slot of its degree with that slot recorded as its position; the root list never grows; the closing `resetMin` (internal.go:56) is done by the caller, ExtractMinAt |
| Consolidation.ClearSlots | internal.go:23-25 | clearing each root's recorded slot empties a table whose entries all name roots |
| Consolidation.ScanStep | internal.go:27-54 | one pass of the outer loop keeps the scan invariant and either shortens the root list or advances the cursor |
| Consolidation.ScanDone | internal.go:27-54 | when the cursor passes the last root, every root is filed under its own degree and the degrees are distinct |
| Consolidation.RecordPosition | internal.go:30 | (also line 53) the root's position names the slot of its degree; no tag, key, link, degree or mark changes, and no other node's position changes |
| Consolidation.Place | internal.go:28-32 | a root whose degree slot is empty is filed there and records it, leaving every other root's filing as it was |
| Consolidation.MergeAll | internal.go:40-51 | the inner loop keeps the scan invariant and removes at least one root |
| Consolidation.Merge | internal.go:40-51 | the root with the smaller key (the scanned root on ties) becomes the parent of the other; the slot is emptied; the forest stays valid |
| Consolidation.Survivor | internal.go:43-50 | the surviving root's key is at most the other's, and the scanned root survives unless the other key is strictly smaller |
| Consolidation.MergeKeepsForest | internal.go:43-50 | linking the larger-keyed root under the smaller-keyed one keeps the forest valid and the entries unchanged |
| Consolidation.AllSlottedDistinctDegrees | internal.go:52-53 | when every root is filed under its own degree, no two roots share a degree |
| Forests.LinkAt | internal.go:115-120 | the child gets the parent and loses its mark, is appended as the parent's last child, and the parent's degree grows by one, so it keeps counting distinct children; no tag or key changes |
| Forests.LinkKeepsForest | internal.go:115-120 | making a root with a key no smaller into a child (mark cleared, appended to the children, degree up by one) keeps the forest valid |
| Internal.ResetMin | internal.go:122-129 | the result is a root whose key is at most every root's key, and no earlier root has an equal key |
| Internal.LeastRootIsLeast | internal.go:122-129 | in a heap-ordered forest, a root whose key is least among the roots has the least key of all live nodes |
| Forests.RootAbove | internal.go:122-129 | every live node has a root whose key is at most its own |
| Internal.MinIsLeast | types.go:12-13 | in a valid heap, the min pointer names a live entry whose key is the least of the contents |
| Internal.DecreaseKeyAt | internal.go:131-151 | a key not strictly smaller is an error that changes nothing; otherwise only the node's key changes and the invariant is restored, with min pointing at a least key; min moves to the node exactly when the new key is strictly below the old min's key |
| Internal.Settle | internal.go:138-144 | a node that is now smaller than its parent is appended to the root list with its parent and mark cleared; otherwise nothing changes; heap order holds afterwards, the entries are unchanged and the old roots stay in order at the front |
| Internal.DecreaseKeyDone | internal.go:146-148 | moving min to the node exactly when it is a root with a strictly smaller key restores the invariant |
| Internal.LowerKeyMin | internal.go:146-148 | the min rule of decreaseKey keeps min a root with the least key |
| Internal.LowerKeyMinRule | internal.go:146-148 | after the cuts, "the node is a root with a key below the min's" holds exactly when the new key is below the old min's key, so min moves only on a strictly smaller key |
| Internal.EntryKept | internal.go:136 | (also line 158) changing one node's key leaves the entry at every other position as it was and gives that node the new key |
| Forests.LowerKeyKeepsForest | internal.go:136 | lowering a key breaks heap order at most between the node and its parent |
| Internal.IncreaseKeyAt | internal.go:153-176 | a key not strictly larger is an error that changes nothing; otherwise only the node's key changes, every child it keeps has a key at least the new one, min is unchanged unless it was the node, and the invariant holds |
| Forests.RaiseKeyKeepsForest | internal.go:158 | raising a key breaks heap order at most between the node and its children |
| Internal.CutSmallerChildren | internal.go:161-169 | heap order holds afterwards everywhere, including between the node and the children it keeps; entries are unchanged and the old roots stay in order at the front |
| Internal.CutIfSmaller | internal.go:165-168 | a child whose key is below its parent's is appended to the root list with its parent and mark cleared; otherwise nothing changes; either way the child's link no longer breaks heap order |
| Internal.ChildrenAbove | internal.go:160-169 | in a heap-ordered forest, every child's key is at least its parent's |
| Internal.IncreaseKeyKept | internal.go:171-173 | when the raised node is not the min, the min pointer stays valid |
| Internal.ResetMinOk | internal.go:171-173 | a root with the least key among the roots is a valid min pointer |
| Forests.CutAt | internal.go:178-184 | the node loses its parent and its mark, its parent no longer lists it and its degree drops by one, so it keeps counting distinct children; no tag or key changes |
| Forests.CutKeepsForest | internal.go:178-184 | cutting a non-root to the end of the root list (parent cleared, mark cleared, parent's degree down by one) keeps the forest valid |
| Internal.CutStep | internal.go:178-184 | a cut keeps the forest and the entries, and changes no node other than the node and its parent |
| Internal.CascadingCut | internal.go:186-196 | a root is left alone; an unmarked non-root is marked; a marked non-root n is appended to the roots with parent and mark cleared, its parent p loses it and one degree, and then p is left as it is if a root, marked if unmarked, and itself appended to the roots with parent and mark cleared if marked; nodes of lower rank than n do not change; the forest and entries are kept |
| Internal.MarkKeepsForest | internal.go:188-189 | marking a node keeps the forest and the entries |
| Keys.Le | internal.go:43 | Go's `<=` on non-NaN float64: finite keys compare as reals, -inf is at most everything and +inf at least everything, and nothing else is at most -inf or at least +inf |
| Keys.Less | internal.go:125 | Go's `<`: exactly Le on distinct keys; finite keys compare with `<` |
| Forests.ContentsFacts | types.go:10-13 | the contents hold exactly the indexed tags, so the count equals the number of entries |

## Left out

- The mutex of the heap struct: it is never locked, and concurrency is not modelled.
- `Stats` and `probeTree`: diagnostic text formatting, with no contract beyond
  the string they print.
- float64 keys are modelled as an ordered datatype with -inf and +inf. NaN and
  float arithmetic are not modelled; the source only compares keys.
- The `self *list.Element` handles and the internals of `container/list`. A
  list is a sequence of arena positions, and a removal is a removal by value.
  Removals and appends are modelled as creating new sequences, not as in-place
  pointer updates.
- The `value` payload of `internal.go`. Its type is not defined in the source,
  and it is only carried along.
- Amortized running time, potential functions and degree bounds are not stated.
- Go's random map iteration order in `Union`: the model picks an arbitrary
  remaining tag at each step, so it covers every order.
- The Go zero value of the tag type, returned by `Minimum` and `ExtractMin` on
  an empty heap, is a value given to the constructor.
- The count `num` is a `uint` in the source. The model does not wrap it, since
  it never exceeds the number of stored entries.
- Tags are restricted to types with equality (`T(==,!new)`). The source's tag
  type parameter is `any` and tags are interface keys of a Go map, so a tag of
  a non-comparable dynamic type makes the index lookup in `insert`
  (internal.go:64) panic; that panic is not modelled.
- Which of several least entries becomes the min entry after a rescan of the
  roots. After `ExtractMin`, `Extract`, `ExtractPriority`, `Delete`, `Union`,
  and `IncreaseKey` on the tag that was the min entry, the contracts say only
  that the new min entry holds a least key. The source picks the first root
  with that key in the root order left by `consolidate` and `resetMin`
  (internal.go:22-57, 122-129). `Union` inserts the other heap's entries in
  Go's random map order (fibheap.go:73-75). The min then stays unless the other
  heap holds a strictly smaller key; if it does, the min becomes whichever of
  the other heap's least entries is inserted first.
- Arena positions of removed nodes are not reused. An extracted node stays in
  the arena, unreachable: it is in no list and absent from the index.
