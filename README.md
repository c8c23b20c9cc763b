# Playlist doubly linked list

The music player keeps each playlist's songs in a generic doubly linked list
with a movable "current" cursor (`music_player_v3/src/utils/DoublyLinkedList.ts`).
The player appends songs, removes them, steps the cursor with next/previous,
reads the song under the cursor, lists the songs, and drag-reorders them.
This project models that list in Dafny and proves what each operation does to
it.

- `ListSpec.dfy` (module `ListSpec`) holds the value-level view: sequence
  functions for the array splices reorder performs (`RemovedAt`, `InsertedAt`,
  `Moved`), the node remove unlinks (`FirstIndex`) and search's result
  (`Filter`), with lemmas about them.
- `DoublyLinkedList.dfy` (module `LinkedList`) holds the classes `Node` and
  `DoublyLinkedList`. Nodes are linked in place through `next` and `prev`,
  exactly as in the source. The list carries three ghost fields: `Nodes`, the
  chain of node objects from head to tail; `Contents`, their values; and
  `Cursor`, the position of the node `current` points to.

`Valid()` is the well-formedness invariant. It is the conjunction of three
parts:

- `Linked()`: the nodes are distinct, and node `i` holds `Contents[i]`. Its
  `prev` is node `i - 1` and its `next` is node `i + 1`, with null at the two
  ends. `head` is the first node and `tail` the last.
- `size` equals the number of nodes.
- `CursorOnList()`: `current` is the node at `Cursor`, and it is null exactly
  when the list is empty.

Every operation requires and preserves `Valid()`. Each mutating method states
its new `Contents`, `Cursor` and `current` in terms of the old ones. It also
states where its nodes come from: the old `Nodes` with the new node at its
place, or, after reorder, only fresh nodes. A caller can therefore keep
calling methods on the same list, because their frames stay within what the
caller may modify.

Points the proofs settle:

- prepend's `if (!this.current)` can never fire. A non-empty valid list always
  has a cursor, and `Prepend` asserts this.
- The comment in reorder says the cursor stays on the same element. The code
  instead puts it on whatever element ends up at `fromIndex`. The model follows
  the code: `Reorder` ensures `Cursor == fromIndex`. It also ensures the cursor
  holds the old neighbour of the moved element on the side it moved towards
  (`MovedAtFrom`). When the songs are distinct, that is never the moved song
  (`MovedLeavesFrom`). The code is not changed, because what the comment meant
  by "the same element" cannot be recovered.

Some steps of the source live in helper methods so that each proof stays small.
The walk of insertAt is `NodeAt` and its splice is `LinkBefore`. The splices of
append and prepend are `LinkLast` and `LinkFirst`. remove's cursor repair and
unlinking are `RepairCursor` and `Bypass`. reorder's `forEach` rebuild is
`Rebuild`. The statements keep the source's order, with two exceptions. insertAt
increments `size` just before the splice rather than just after it, and the two
steps touch different fields. Prepend drops the source's
`if (!this.current) this.current = newNode;` (line 46), which can never fire,
and asserts `current != null` in its place.

## Model

| member | source | states |
|---|---|---|
| LinkedList.Node.constructor | music_player_v3/src/utils/DoublyLinkedList.ts:6-10 | a new node holds the value and is linked to nothing |
| LinkedList.DoublyLinkedList.Linked | music_player_v3/src/utils/DoublyLinkedList.ts:13-15 | in a well-formed chain `head` and `tail` are null exactly when the list is empty, which is what the `!this.head` tests rely on |
| LinkedList.DoublyLinkedList.CursorOnList | music_player_v3/src/utils/DoublyLinkedList.ts:16 | `current` is null exactly when the list is empty, and otherwise is one of the list's nodes |
| LinkedList.DoublyLinkedList.Valid | music_player_v3/src/utils/DoublyLinkedList.ts:13-24 | in a valid list `size` counts the elements, and `head` and `current` are null exactly when `size` is 0 |
| LinkedList.DoublyLinkedList.constructor | music_player_v3/src/utils/DoublyLinkedList.ts:19-24 | a new list is valid and empty, with no cursor |
| LinkedList.DoublyLinkedList.Append | music_player_v3/src/utils/DoublyLinkedList.ts:26-36 | contents become `old + [v]`, the new node is fresh and last, and size grows by one; the cursor lands on the new node only when the list was empty and otherwise stays on its node |
| LinkedList.DoublyLinkedList.LinkLast | music_player_v3/src/utils/DoublyLinkedList.ts:31-33 | linking an unlinked node after the tail keeps the chain well formed, with the node added at the end |
| LinkedList.DoublyLinkedList.Prepend | music_player_v3/src/utils/DoublyLinkedList.ts:38-49 | contents become `[v] + old`, the new node is fresh and first, and size grows by one; on an empty list the cursor lands on the new node; otherwise it stays on its node, one position further from the head |
| LinkedList.DoublyLinkedList.LinkFirst | music_player_v3/src/utils/DoublyLinkedList.ts:43-45 | linking an unlinked node before the head keeps the chain well formed, with the node added at the front |
| LinkedList.DoublyLinkedList.InsertAt | music_player_v3/src/utils/DoublyLinkedList.ts:51-66 | the index is clamped to `[0, size]` and the value lands exactly there, in a fresh node, with later elements shifted right; on a non-empty list the cursor stays on its node |
| LinkedList.DoublyLinkedList.InsertInside | music_player_v3/src/utils/DoublyLinkedList.ts:55-65 | strictly inside the list the value lands at `index` in a fresh node, `current` does not move, and the cursor position shifts when the cursor was at or after `index` |
| LinkedList.DoublyLinkedList.NodeAt | music_player_v3/src/utils/DoublyLinkedList.ts:56-59 | following `next` from the head `index` times reaches the node at position `index` |
| LinkedList.DoublyLinkedList.LinkBefore | music_player_v3/src/utils/DoublyLinkedList.ts:61-64 | the four link assignments splice the new node in at position `at` and keep the chain well formed |
| LinkedList.DoublyLinkedList.Remove | music_player_v3/src/utils/DoublyLinkedList.ts:68-88 | returns true exactly when the value occurs; then it unlinks the first occurrence only, and a cursor on that node moves to the successor, or to the predecessor at the tail; otherwise the list is unchanged |
| LinkedList.DoublyLinkedList.Unlink | music_player_v3/src/utils/DoublyLinkedList.ts:71-83 | removing the node at `at` removes exactly that position from nodes and contents, and keeps the list valid with the cursor repaired |
| LinkedList.DoublyLinkedList.RepairCursor | music_player_v3/src/utils/DoublyLinkedList.ts:72-74 | a cursor on the doomed node moves to its successor, or to its predecessor when it is the tail, and then sits on the chain that remains |
| LinkedList.DoublyLinkedList.Bypass | music_player_v3/src/utils/DoublyLinkedList.ts:76-80 | pointing the neighbours (or head and tail) past a node removes exactly that node from a well-formed chain |
| LinkedList.DoublyLinkedList.Next | music_player_v3/src/utils/DoublyLinkedList.ts:90-96 | with a successor the cursor steps forward and returns that element; otherwise it returns None and stays put; contents never change |
| LinkedList.DoublyLinkedList.Previous | music_player_v3/src/utils/DoublyLinkedList.ts:98-104 | with a predecessor the cursor steps back and returns that element; otherwise it returns None and stays put; contents never change |
| LinkedList.DoublyLinkedList.GetCurrent | music_player_v3/src/utils/DoublyLinkedList.ts:106-108 | returns the element under the cursor, and None exactly when the list is empty |
| LinkedList.DoublyLinkedList.ToArray | music_player_v3/src/utils/DoublyLinkedList.ts:110-118 | returns the elements from head to tail, and its length equals `size` |
| LinkedList.DoublyLinkedList.Search | music_player_v3/src/utils/DoublyLinkedList.ts:120-130 | returns exactly the elements satisfying the predicate, in list order |
| LinkedList.DoublyLinkedList.Reorder | music_player_v3/src/utils/DoublyLinkedList.ts:132-155 | a no-op when the indices are equal or out of range; otherwise contents become the old ones with the element at `from` moved to `to` (the same multiset, and the same size), every node is fresh, and the cursor is non-null at index `from`, on the old neighbour of the moved element |
| LinkedList.DoublyLinkedList.Rebuild | music_player_v3/src/utils/DoublyLinkedList.ts:148-154 | re-appending the items in order rebuilds a valid list of fresh nodes with exactly those contents and the cursor at `fromIndex` |
| ListSpec.RemovedAt | music_player_v3/src/utils/DoublyLinkedList.ts:139 | `splice(i, 1)` leaves one element fewer: those before `i` stay put and those after shift left |
| ListSpec.InsertedAt | music_player_v3/src/utils/DoublyLinkedList.ts:140 | `splice(i, 0, x)` puts `x` at `i`: those before stay put and those after shift right |
| ListSpec.RemoveAfterInsert | music_player_v3/src/utils/DoublyLinkedList.ts:139-140 | removing at the index just inserted at gives back the original |
| ListSpec.InsertAfterRemove | music_player_v3/src/utils/DoublyLinkedList.ts:139-140 | putting a removed element back where it was gives back the original |
| ListSpec.InsertedAtMultiset | music_player_v3/src/utils/DoublyLinkedList.ts:140 | an insertion adds exactly one occurrence of the new value |
| ListSpec.RemovedAtMultiset | music_player_v3/src/utils/DoublyLinkedList.ts:139 | a removal takes away exactly one occurrence of the removed value |
| ListSpec.Moved | music_player_v3/src/utils/DoublyLinkedList.ts:138-140 | reorder's new order keeps the length and puts the moved element at `to` |
| ListSpec.MovedSamePlace | music_player_v3/src/utils/DoublyLinkedList.ts:133 | moving an element onto its own place changes nothing, which agrees with the early return when `from == to` |
| ListSpec.MovedPermutes | music_player_v3/src/utils/DoublyLinkedList.ts:138-140 | reorder keeps the multiset of elements |
| ListSpec.MovedAt | music_player_v3/src/utils/DoublyLinkedList.ts:138-140 | where each element lands after a move: the moved one at `to`, the ones it passed one step towards `from`, the rest in place |
| ListSpec.MovedInverse | music_player_v3/src/utils/DoublyLinkedList.ts:138-140 | reordering back from `to` to `from` undoes a reorder |
| ListSpec.MovedAtFrom | music_player_v3/src/utils/DoublyLinkedList.ts:148-153 | after a real move, position `from` holds the moved element's old neighbour on the side it moved towards |
| ListSpec.MovedLeavesFrom | music_player_v3/src/utils/DoublyLinkedList.ts:150-153 | with distinct elements, the element left at `from` is never the moved one, so the cursor does not follow the moved song |
| ListSpec.InsertedAtEnds | music_player_v3/src/utils/DoublyLinkedList.ts:52-53 | inserting at 0 is prepending, and inserting at the length is appending |
| ListSpec.FirstIndex | music_player_v3/src/utils/DoublyLinkedList.ts:69-71 | the position remove's walk stops at holds the value, and no earlier position does |
| ListSpec.FirstIndexUnique | music_player_v3/src/utils/DoublyLinkedList.ts:69-85 | the first position holding the value is the only one meeting that description |
| ListSpec.RemoveUndoesInsert | music_player_v3/src/utils/DoublyLinkedList.ts:51-88 | removing a value that was absent right after inserting it at `i` finds it at `i` and restores the original |
| ListSpec.Filter | music_player_v3/src/utils/DoublyLinkedList.ts:120-130 | search's result is no longer than the list and holds only matching elements |
| ListSpec.FilterAppend | music_player_v3/src/utils/DoublyLinkedList.ts:123-127 | filtering a concatenation filters each part, which is how the walk extends its result one node at a time |
| ListSpec.FilterMembership | music_player_v3/src/utils/DoublyLinkedList.ts:120-130 | a value is in search's result exactly when it is in the list and matches |
| ListSpec.FilterKeepsAll | music_player_v3/src/utils/DoublyLinkedList.ts:120-130 | a predicate every element meets returns the whole list |

## Left out

- Everything outside the list class is left out. That covers React state and
  rendering, `localStorage` persistence, audio playback, microphone recording
  and the song-recognition HTTP call. All of it is browser I/O, timers or
  foreign calls.
- Indices are unbounded integers. JavaScript `number` values that are not
  integers, such as `NaN` or `1.5`, are not modelled. `size` is unbounded.
- remove compares with `===`, which is reference identity for songs. The model
  compares with equality on `T`.
- `LinkedList.DoublyLinkedList.GetCurrent`: does not model `|| null` turning a
  falsy value (`0`, `""`, `false`) into null. It returns the cursor's value
  whenever there is a cursor.
- `LinkedList.DoublyLinkedList.Search`: the predicate is a pure function. A
  JavaScript callback that has side effects or throws is not modelled.
- A node's `value` is a constant. The source never reassigns it after
  construction.
- The list claims no ownership of its nodes. Every node a list creates is
  fresh, but the invariant alone does not rule out two lists sharing nodes.
  It says nothing about a removed node's own
  `next`/`prev`, which remove leaves pointing into the list. It also says
  nothing about the old nodes that reorder abandons.
- reorder's intermediate `items` array is a sequence value, not an array
  mutated in place by `splice`.
