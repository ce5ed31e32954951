# Intrusive linked lists of genccont, in Dafny

This project models the core of genccont, a C library of intrusive containers. In an
intrusive container each entry embeds the container's link field. The model covers:

- **The singly-linked list** (`SList`). Every entry embeds a `next` pointer and a
  chain is ended by null. Operations take a *slot*, the address of the pointer
  that holds a node. That is either the list's head variable or some node's
  `next` field. Insertion and removal therefore read the same at the front of
  the list and in its middle.
- **The circular doubly-linked list** (`DList`). Each entry has `next` and `prev`.
  A head node of the same type is the sentinel: an empty list is a head that
  points to itself both ways.
- **The FIFO queue** (`SListQueue`). It is built on the singly-linked list. It
  holds the head of a chain plus a cached tail slot, which is where the next
  pushed item is linked in.

The model works on heap objects:

- `SList.Node` and `DList.DNode` are classes whose fields the operations update.
- `SList.Head` stands for any variable or record field of pointer-to-node type.
- `SList.Slot` is a datatype naming such a place: a head, or a node's `next` field.
- `SListQueue.Queue` is a class with the queue's head and tail fields.

Each structure has an abstract ghost view, `SList.Linked(first, s)` or
`DList.Ring(h, s)`, that ties the heap to a sequence of nodes. Every operation
states its effect on that sequence. The search functions (`genc_slist_find_entry`,
`genc_slist_find_entry_ref`, `genc_dlist_find_in_range`) are specified by
`Sequences.FirstMatch`, and the loop macros by `Sequences.Visited`. Properties
are proved about those two functions.

For the slot operations, the callers' side of the C contract appears as ghost
parameters. `root` is the slot that starts the chain and `s` is the chain's nodes.
`k` is the position of the slot passed in. The requirement is
`at == SlotAt(root, s, k)`: "`at` points into a well-formed list".

The header of the singly-linked list and its use disagree:

- `src/slist.h:61` declares `genc_slist_insert_at` as returning `void`.
- `src/slist_queue.c:12` assigns its result to the queue's tail.

The model follows the use. `SList.InsertAt` returns the new node's `next` slot,
which is the only value `genc_slq_push_back` could mean. The queue proofs then
show that this value is the correct new tail.

## Model

| member | source | states |
|---|---|---|
| Sequences.FirstMatch | src/slist.h:43-46 | the search result index: no element before it matches, and the element at it matches unless it is the end |
| Sequences.FirstMatchUnique | src/slist.h:43-46 | the first match is unique: any index with no match before it and a match (or the end) at it is that first match |
| Sequences.Visited | src/slist.h:125-132 | the number of nodes a stoppable loop handles: up to and including the first stopping node, or all of them |
| SList.Store | src/slist.h:58-61 | writing through a slot (`*at = v`) makes the slot hold the new reference |
| SList.LinkedChain | src/slist.h:35-39 | a chain in the recursive view has the pointwise shape: it starts at the head, each node's `next` is its successor and the last is null |
| SList.ChainLinked | src/slist.h:35-39 | the converse: the pointwise shape is a chain in the recursive view |
| SList.LinkedDistinct | src/slist.h:35-39 | a null-terminated chain is acyclic: two positions hold different nodes |
| SList.OnlyAt | src/slist.h:35-39 | the node at one position occurs at no other position |
| SList.AllDistinct | src/slist.h:35-39 | all nodes of a chain are pairwise distinct |
| SList.LinkedUnique | src/slist.h:35-39 | the heap determines the abstract sequence: two views of one chain are equal |
| SList.RootOutside | src/slist.h:58-60 | the node whose `next` field is the root slot is not on the chain it heads |
| SList.SlotAtHolds | src/slist.h:48-51 | the slot at position k holds the k-th node, or null at the end |
| SList.SpliceChain | src/slist.h:58-61 | redirecting one slot to a new node that points to the old occupant inserts exactly that node into the chain |
| SList.UnlinkChain | src/slist.h:67-72 | redirecting a slot past its node removes exactly that node from the chain |
| SList.FindEntry | src/slist.h:43-46 | returns the first node from `start` on that matches, or null when none does |
| SList.FindEntryRef | src/slist.h:48-56 | returns the slot at the position of the first match, which holds that node; with no match it is the last slot, which holds null |
| SList.InsertAt | src/slist.h:58-61 | the slot then holds the new node, and the new node points to the old occupant; the chain gains the node at that position, and the result is the new node's `next` slot |
| SList.InsertAfter | src/slist.h:63-65 | the new node directly follows `after` and points where `after` pointed; the chain gains it at that position |
| SList.RemoveAt | src/slist.h:67-72 | null exactly when the slot is at the end, with nothing changed; otherwise returns the node there with `next` nulled, the slot takes its successor and the chain loses just that node |
| SList.RemoveAfter | src/slist.h:74-76 | returns `after`'s successor or null if there is none; that node is unlinked with `next` nulled |
| SList.ForEach | src/slist.h:125-132 | the loop visits the chain's nodes in order, up to the node where the body stops or to the end |
| SList.ForEachRemove | src/slist.h:148-161 | the loop removes the first `Visited(s, stop)` nodes at the fixed slot, and the remainder of the chain stays linked from that slot |
| DList.CycleSplice | src/dlist.h:56-64 | the ring walk of a list with a node inserted at a position is the old walk with the node spliced in |
| DList.CycleWithout | src/dlist.h:66-68 | the ring walk of a list with a node removed is the old walk without that node |
| DList.LinksPairs | src/dlist.h:36-40 | the recursive link view gives pointwise facts: each node's `next` is its successor and the successor's `prev` is the node |
| DList.PairsLinks | src/dlist.h:36-40 | the converse of LinksPairs |
| DList.RingDistinct | src/dlist.h:36-40 | the entries of a ring are pairwise distinct |
| DList.AllDistinct | src/dlist.h:36-40 | no entry occurs twice in a ring |
| DList.FromHeadOnlyAt | src/dlist.h:36-40 | a node that starts a link of the ring walk occurs at no other starting position |
| DList.ToHeadOnlyAt | src/dlist.h:36-40 | a node that ends a link of the ring walk occurs at no other ending position |
| DList.RingConsistent | src/dlist.h:36-40 | in a ring every node, the head included, has non-null `next` and `prev` with `next.prev` and `prev.next` back at itself |
| DList.LinksSplice | src/dlist.h:56-64 | rewiring the four pointers around a new node keeps the link chain intact with the node inserted |
| DList.LinksUnlink | src/dlist.h:66-68 | rewiring the neighbours of a node past it keeps the link chain intact without that node |
| DList.RingSplice | src/dlist.h:56-64 | after the splice the head and the entries, including the new one, form a ring |
| DList.RingUnlink | src/dlist.h:66-68 | after the unlink the remaining entries form a ring |
| DList.HeadEnds | src/dlist.h:56-64 | inserting after the head makes the entry first; inserting before the head makes it last |
| DList.FirstEntry | src/dlist.h:80-93 | in a non-empty ring `head.next` is the first entry, whose `prev` is the head and whose `next` is the second entry or the head |
| DList.Init | src/dlist.h:42-43 | the head points to itself both ways, which is the empty ring |
| DList.IsEmpty | src/dlist.h:70-72 | true exactly when the ring has no entries |
| DList.InitThenIsEmpty | src/dlist.h:42-43 | a freshly initialised list is empty |
| DList.InsertAfter | src/dlist.h:61-64 | the new entry follows `after` in the ring; after the head it becomes the first entry |
| DList.InsertBefore | src/dlist.h:56-59 | the new entry precedes `before` in the ring; before the head it becomes the last entry |
| DList.Remove | src/dlist.h:66-68 | returns the entry, and the ring loses exactly that entry |
| DList.FindInRange | src/dlist.h:48-54 | returns the first entry strictly between `startAfter` and `endBefore` that matches `pred(entry, data)`, or null |
| DList.FindInList | src/dlist.h:48-54 | with the head as both bounds the search covers the whole list |
| DList.ForEachRemove | src/dlist.h:80-93 | the loop removes the first `Visited(s, stop)` entries from the front, and the entries not yet removed remain a ring |
| DList.AppendPrepend | src/dlist.h:56-64 | from an empty list, appending a and b and then prepending c gives the order c, a, b |
| SListQueue.Queue.constructor | src/slist_queue.c:3-7 | a queue with its own head field, empty, with the tail at the head |
| SListQueue.Queue.TailHoldsNull | src/slist_queue.c:9-13 | the tail slot of a valid queue holds null |
| SListQueue.Queue.Init | src/slist_queue.c:3-7 | the head is null and the tail is the head slot, whatever was there before |
| SListQueue.Queue.PushBack | src/slist_queue.c:9-13 | the item becomes the last one and the tail moves to its `next` field; the queue stays valid |
| SListQueue.Queue.PushFront | src/slist_queue.c:15-27 | the item becomes the first one; on an empty queue the tail moves to it, otherwise the tail is unchanged |
| SListQueue.Queue.PopFront | src/slist_queue.c:30-41 | null with nothing changed on an empty queue; otherwise returns the first item with `next` nulled, and an emptied queue gets its tail reset to the head |
| SListQueue.Queue.IsEmpty | src/slist_queue.c:43-46 | for a valid queue, true exactly when it has no items |
| SListQueue.Swap | src/slist_queue.c:48-62 | the two queues exchange their items and both stay valid, with an empty queue's tail at its own head; a queue swapped with itself is unchanged |
| SListQueue.FifoOrder | src/slist_queue.c:9-41 | items pushed at the back are popped from the front in the order they went in, and the emptied queue's tail is back at its head |
| SListQueue.MixedOrder | src/slist_queue.c:15-27 | push_front on an empty queue updates the tail, so a following push_back lands behind it |

## Left out

- Typed wrappers: `genc_container_of` and the typed macros, such as the `*_object` variants and `slist_gen_entry`. They only convert between an entry and its enclosing struct, which is pointer arithmetic that the model does not represent.
- The bodies of `slist.c` and `dlist.c` are not part of this model. Each list operation's body here is one implementation that meets the contract in the header's doc comment. A different implementation in those files may differ in effects the header does not describe.
- DList.Remove: the header does not say what happens to the removed entry's own `next` and `prev`. The model's frame lets the entry itself change, and its contract states nothing about those two fields.
- DList.FindInRange: covers only ranges with `startAfter` at or before `endBefore` in list order. A range that wraps past the head is not modelled.
- Predicates and the `void* data` argument: they are pure functions, `Node -> bool` and `(DNode, D) -> bool` for a generic `D`. A predicate's side effects are not modelled.
- Loop macros: the body of `genc_slist_for_each`, `genc_slist_for_each_remove` and `genc_dlist_for_each_remove` is represented only by the `stop` predicate, which says when the body leaves the loop with `break`. A body that alters the list in other ways is not modelled.
- SList.ForEachRemove: returns the number of rounds rather than the removed nodes. It does not state that the removed nodes still have `next` null at the end, because the body is free to reuse them.
- DList.ForEachRemove: returns the number of rounds rather than the removed entries, and states nothing about the removed entries' own fields.
- `genc_dlist_is_empty` and `genc_slq_is_empty` return `bool` rather than the C `int` 0/1.
- SListQueue.Swap: requires two distinct queues to have distinct head fields, as they do in C, where the head field is embedded in the queue struct.
- The `slist_queue` struct declaration and header are not part of this model. The fields used are the ones `slist_queue.c` accesses.
- Caller obligations the C code cannot check appear as preconditions. Examples are: an inserted node is not already on the list, and the sentinel is never removed. Misuse, which is undefined in C, is not modelled.
- Memory allocation and lifetime, concurrency, and C calling conventions are outside the model.
