# Binary heap in Dafny

This project models `BinaryHeap<K, V>` from `@tyriar/binary-heap`: a generic binary
min-heap (priority queue) of key-value nodes, ordered by a three-way comparator that the
caller supplies when the heap is constructed. The heap keeps its nodes in one dense array,
`list`, read as an implicit complete binary tree: the root sits at index 0, and the
children of node `i` sit at `2i+1` and `2i+2`. Every ordering decision goes through
`compare`. The public operations are `buildHeap`, `clear`, `extractMinimum`,
`findMinimum`, `insert`, `isEmpty`, `size` and `union`. They rest on these private helpers:

- `heapify`, the sift-down;
- `buildHeapFromNodeArray`, a bottom-up build that discards the old data;
- `swap`;
- the index arithmetic `getParent`, `getLeft` and `getRight`.

The model has three modules and one client:

- `TreeIndex` (`tree_index.dfy`): the index arithmetic, and the fact that parent and
  child indices are inverses.
- `HeapOrder` (`heap_order.dfy`):
  - the node as the value `Entry(key, value)`;
  - the comparator as a total function into `{-1, 0, 1}`;
  - `TotalPreorder`, the consistency the documentation of `compare` describes. "Greater"
    one way is "less" the other way, and "not greater" is transitive;
  - the heap order `IsHeap`. For every index `j > 0`, `compare(list[Parent(j)], list[j])`
    is not 1;
  - the lemmas that the sift-up, the sift-down and the root removal rest on.
- `MinHeap` (`binary_heap.dfy`): the class `BinaryHeap`.
  - `list` is a `seq` field that the methods reassign. `compare` is a constant fixed by
    the constructor.
  - `Valid()` is the object invariant: the comparator is consistent and `list` is in heap
    order. Every public mutating method (`BuildHeap`, `Clear`, `ExtractMinimum`, `Insert`,
    `Union`) keeps it. The helpers `Heapify` and `Swap` need not: they work on a partly
    ordered `list` while the public operations restore the order.
  - `Contents()` is the multiset of entries. Each method's contract states its effect on
    this multiset and on `Size()`.
  - `Insert` is the sift-up loop. `Heapify` is the sift-down loop. `BuildHeapFromNodeArray`
    runs `Heapify` from the last non-leaf index down to the root. `Union` concatenates
    both lists and rebuilds.
- `Scenarios` (`scenarios.dfy`): a client that uses only the contracts. It drains a heap
  with repeated `ExtractMinimum` calls and gets the former contents back, sorted under
  the comparator.

The source is a TypeScript declaration file. It has signatures and doc comments but no
function bodies, so the behaviour modelled here is the documented one. `buildHeap`'s
documentation requires the value array to have the same size as the key array. The
model handles a mismatch as an `InvalidArgument` error (`Fail(InvalidArgument)`) and
leaves the heap unchanged. It does not treat a mismatch as a precondition.

## Model

| member | source | states |
|---|---|---|
| `TreeIndex.Parent` | index.d.ts:122-129 | a non-root node's parent has a smaller index, and the node is its left (`2p+1`) or right (`2p+2`) child |
| `TreeIndex.Left` | index.d.ts:130-137 | the left child's index is greater than its parent's and is odd |
| `TreeIndex.Right` | index.d.ts:138-145 | the right child is the left child's sibling, one index further |
| `TreeIndex.ChildrenHaveParent` | index.d.ts:122-145 | `getParent(getLeft(i)) == i` and `getParent(getRight(i)) == i` |
| `TreeIndex.ParentHasChild` | index.d.ts:122-145 | for `j > 0`, `getParent(j) == i` holds if and only if `j` is `getLeft(i)` or `getRight(i)` |
| `HeapOrder.Swapped` | index.d.ts:113-121 | exchanging positions `a` and `b` puts each element in the other's place, leaves every other position alone and keeps the multiset of elements |
| `HeapOrder.Pairs` | index.d.ts:20-28 | pairing keys and values of equal length gives one entry per position, holding `keys[i]` and `values[i]` |
| `HeapOrder.RootIsMinimum` | index.d.ts:9-12 | in heap order, the entry at index 0 compares not greater than the entry at any index (induction along the parent chain) |
| `HeapOrder.RootIsLeast` | index.d.ts:43-52 | in a non-empty heap, the root compares not greater than every entry the heap holds |
| `HeapOrder.SiftUpStep` | index.d.ts:53-63 | swapping a node with a greater parent moves the only disorder of a heap one level up |
| `HeapOrder.SiftDownStep` | index.d.ts:94-101 | swapping a node with its smaller child, when that child is less than the node, moves the only disorder one level down |
| `HeapOrder.SiftDownDone` | index.d.ts:94-101 | once no child is less than the node, heap order holds on every pair at or below the starting index |
| `HeapOrder.LastToRoot` | index.d.ts:33-42 | moving the last entry into the root keeps the heap order below the root, and the only entry lost is the old root |
| `MinHeap.BinaryHeap.constructor` | index.d.ts:1-19 | a new heap is empty, valid and ordered by the given comparator, which must be consistent |
| `MinHeap.BinaryHeap.BuildHeap` | index.d.ts:20-28 | with equal lengths, the old data is discarded, the heap holds exactly the positional pairs and its size is the number of keys; with different lengths, it fails with `InvalidArgument` and leaves the heap unchanged; heap order holds afterwards |
| `MinHeap.BinaryHeap.Clear` | index.d.ts:29-32 | afterwards the heap holds nothing, its size is 0 and `IsEmpty()` holds |
| `MinHeap.BinaryHeap.ExtractMinimum` | index.d.ts:33-42 | on an empty heap, returns none and leaves the heap unchanged; otherwise returns the old root `list[0]`, an entry not greater than any remaining entry, removes exactly that entry, shrinks the size by one and keeps the heap order |
| `MinHeap.BinaryHeap.FindMinimum` | index.d.ts:43-52 | changes nothing; returns none exactly when the heap is empty, and otherwise the root `list[0]`, an entry of the heap that compares not greater than every entry |
| `MinHeap.BinaryHeap.Insert` | index.d.ts:53-63 | returns the entry with the given key and value, adds exactly that entry, grows the size by one and keeps the heap order |
| `MinHeap.BinaryHeap.IsEmpty` | index.d.ts:64-67 | true exactly when the size is 0, that is, when the heap holds no entries |
| `MinHeap.BinaryHeap.Size` | index.d.ts:68-71 | the number of entries the heap holds |
| `MinHeap.BinaryHeap.Union` | index.d.ts:72-77 | afterwards the heap holds the multiset union of both heaps' former entries, its size is the sum of both sizes, and heap order holds |
| `MinHeap.BinaryHeap.Heapify` | index.d.ts:94-101 | given heap order on every pair whose parent lies past `i`, restores it on every pair whose parent is at `i` or beyond; keeps the multiset and leaves positions before `i` alone |
| `MinHeap.BinaryHeap.BuildHeapFromNodeArray` | index.d.ts:102-112 | discards the old data; afterwards the heap holds exactly the given nodes, in heap order |
| `MinHeap.BinaryHeap.Swap` | index.d.ts:113-121 | the heap's array becomes the old array with positions `a` and `b` exchanged |
| `Scenarios.ExtractAll` | index.d.ts:33-42 | extracting the minimum until the heap is empty yields its former entries, sorted under the comparator |
| `Scenarios.PeekThenPop` | index.d.ts:33-52 | on the same heap, `findMinimum` followed by `extractMinimum` returns the same entry, even among ties, and none exactly when the heap was empty |

`compare` (index.d.ts:78-92) is the constant field `BinaryHeap.compare`. Its documented
meaning is the predicate `HeapOrder.TotalPreorder`. The `Node` class (index.d.ts:146-157)
is the datatype `HeapOrder.Entry`.

## Left out

- The default comparator on keys: the declaration types the constructor's comparator as
  required, and the model takes it as a parameter. JavaScript's `<`/`>` coercion on
  arbitrary keys is not modelled.
- Comparator exceptions: the comparator is a total function, so it cannot throw.
  The `any`-typed arguments of `swap` are not modelled either.
- What `union` leaves in the other heap: the declaration does not say. Only this heap's
  new state is specified.
- The module export wrapper (index.d.ts:158-160): it is packaging.
- Running-time claims such as the linear-time build: they are not functional properties.
- Object identity of nodes: entries are values, so `Insert` returns an equal entry, not a
  reference into the array.
- Number width: sizes and indices are unbounded naturals, not JavaScript doubles.
- `TreeIndex.Parent`: takes only non-root indices. The root has no parent, and no
  operation asks for it.
- `heapify`, `buildHeapFromNodeArray` and `swap`: these are free functions that take the
  heap or the array. Here they are methods of `BinaryHeap` that work on its `list`. Sift-down
  is written as a loop.
- `Scenarios.ExtractAll`: proves only that the extracted entries are a sorted permutation.
  The order among entries that compare equal is unspecified, because the heap is not
  stable. For example, insert (1,"a"), (1,"b") and (1,"c") under a comparator that looks
  only at keys: sift-up never moves them, and the extractions return a, c, b. So neither
  "extraction order matches a stable sort" nor "buildHeap and repeated insert extract the
  same sequence of pairs" holds when keys tie, and neither is claimed.
