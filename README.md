# LinkedList: a verified model of a circular, dummy-node doubly-linked list

This project models `LinkedList<T>` in Dafny. It is a generic list built as a circular,
doubly-linked chain of `LinkedListNode<T>` cells that always holds one "dummy" node. The
model also covers the list's two bidirectional iterators, `LinkedListIterator<T>` and
`LinkedListConstIterator<T>`.

The model is imperative, as the C++ is. Nodes and lists are Dafny classes whose fields
are updated in place:

- `Node<T>` has `item`, `prev` and `next`.
- `LinkedList<T>` has `size` and `tail`.
- The iterators each hold one node reference, `ptr`.

Each list carries two ghost fields:

- `nodes`: the element nodes in chain order.
- `Repr`: the nodes it owns.

`Valid()` is the ring invariant (module `Rings`). The dummy is `tail`. Every element node
is distinct from it and from the others. Each node's `next` and `prev` are its neighbours
in the order dummy, `nodes[0]`, ..., `nodes[|nodes| - 1]`, dummy. `size` equals `|nodes|`.

The abstract value `Contents()` is the sequence of items of `nodes`. Every operation is
specified by what it does to that sequence. The sequence functions (`InsertAt`,
`RemoveAt`, ...) live in `ListSpec`, with lemmas about them.

Splicing a node in or out is done by the node constructor and the node destructor. It is
proved once, in `Rings.LinkIn` and `Rings.LinkOut`, to keep the ring a ring.
`ListScenarios` restates the behaviours the repository's unit tests check, for all
inputs rather than for the tests' own data.

The element operations exist in the repository only as documented declarations
(include/LinkedList.h). The constructors, `operator=` and the node code have bodies in
src/, and some of those bodies depart from their documentation:

- The default constructor leaves `mTail` null.
- The copy constructor's loop does not compile.
- `operator=` assigns to `this`.

The model follows the documented contracts for these three; the doc comments in
`linked_list.dfy` point out each difference. The two node-level differences that can be
run are modelled both ways, under "Findings".

Modules:

| file | module | what it holds |
|---|---|---|
| node.dfy | `Nodes` | `Node<T>`: constructors, `link`, the unlinking destructor |
| ring.dfy | `Rings` | the ring invariant, the items of a node run, splicing in and out |
| list_spec.dfy | `ListSpec` | `uint32`, the error results, the sequence specification and its lemmas |
| iterator.dfy | `Iterators` | `LinkedListIterator<T>` |
| const_iterator.dfy | `ConstIterators` | `LinkedListConstIterator<T>` |
| linked_list.dfy | `Lists` | `LinkedList<T>`, `operator==`, `operator!=` |
| scenarios.dfy | `ListScenarios` | client code proving the behaviours the unit tests pin down |

## Model

| member | source | states |
|---|---|---|
| `Nodes.Node.constructor` | src/LinkedListNode.cpp:39-46 | the node stores the item and its `prev` and `next` are the node itself |
| `Nodes.Node.Between` | include/LinkedListNode.h:37-48 | the new node stores the item, follows `prev` and precedes `next`, and `prev.next` and `next.prev` now point at it; only those two links of other nodes change |
| `Nodes.Node.BetweenAsWritten` | src/LinkedListNode.cpp:18-20 | as written, the constructor sets only the new node's fields: `prev.next` and `next.prev` keep their old values and never point at the new node |
| `Nodes.Node.Link` | include/LinkedListNode.h:50-58 | afterwards `first.next == second` and `second.prev == first`, also when both are the same node |
| `Nodes.Node.LinkAsWritten` | src/LinkedListNode.cpp:30-36 | for distinct nodes, `first.next == second` and `second.prev == first`; for the same node, nothing changes |
| `Nodes.Node.Unlink` | src/LinkedListNode.cpp:54-62 | the destructor's non-null branch: the node's old `prev` and old `next` are linked to each other, and no other link changes |
| `Nodes.LinkSelfCounterexample` | src/LinkedListNode.cpp:32 | in a ring of two nodes `d`, `n`, the as-written `link(d, d)` leaves `d.next == n`, so its postcondition fails |
| `Nodes.LinkSelfCorrected` | include/LinkedListNode.h:50-58 | on the same ring, the corrected `link(d, d)` leaves `d` linked to itself both ways |
| `Rings.InsertKeepsRing` | include/LinkedList.h:47-54 | a node from outside the ring, once its two neighbours are linked to it both ways, gives a ring with that node at position `k` |
| `Rings.RemoveKeepsRing` | include/LinkedListNode.h:26-30 | node `k`'s two neighbours, linked to each other, give the ring without node `k` |
| `Rings.LinkIn` | include/LinkedListNode.h:37-48 | constructing a node between position `k - 1` and its successor yields a fresh node holding the value, and the ring gains it at position `k` |
| `Rings.LinkOut` | src/LinkedListNode.cpp:54-62 | destroying node `k` of a ring leaves a ring of the other nodes in the same order |
| `Rings.ItemsOfSplice` | include/LinkedList.h:114-116 | the items of the ring with a node put in at `k` are the old items with that node's item at `k` |
| `Rings.ItemsOfDrop` | include/LinkedList.h:218-220 | the items of the ring with node `k` taken out are the old items without item `k` |
| `ListSpec.InsertInRange` | include/LinkedList.h:114-117 | `add(index, value)` with `index <= size`: the size grows by one, the value is at `index`, earlier elements stay put and later ones move right by one |
| `ListSpec.InsertPastEnd` | include/LinkedList.h:119-121 | `add(index, value)` past the end: the size becomes `index + 1`, old elements keep their places, the gap holds `T()` and `index` holds the value |
| `ListSpec.InsertAtEndIsAppend` | include/LinkedList.h:117-119 | inserting at `size` is appending |
| `ListSpec.RemoveShifts` | include/LinkedList.h:218-227 | `remove(index)`: the size drops by one, earlier elements stay put, later ones move left by one |
| `ListSpec.RemoveUndoesInsert` | include/LinkedList.h:114-127 | removing at `index` what `add(index, value)` inserted in range gives the original sequence back |
| `ListSpec.InterleavedLength` | tests/linkedListTest.cpp:180-184 | `n` calls `add(2 * i, i + 1)` on an empty list give `2 * n - 1` elements (none for `n == 0`) |
| `ListSpec.InterleavedShape` | tests/linkedListTest.cpp:180-190 | the result of those calls holds `j / 2 + 1` at every even position `j` and `0` at every odd one |
| `ListSpec.PadEmpty` | tests/linkedListTest.cpp:192-198 | `add(index, value)` on an empty list gives `index` copies of `T()` followed by the value |
| `Iterators.Iterator.constructor` | src/LinkedListIter.cpp:52-56 | the iterator holds the given node |
| `Iterators.Iterator.Deref` | src/LinkedListIter.cpp:22-29 | `*` and `->` yield the item held by the node the iterator points at; through `Equals` its contract gives equal iterators equal items |
| `Iterators.Iterator.Equals` | src/LinkedListIter.cpp:10-14 | iterators that compare equal dereference to the same item |
| `Iterators.Iterator.NotEquals` | src/LinkedListIter.cpp:16-20 | `!=` is exactly the negation of `==` |
| `Iterators.Iterator.Store` | src/LinkedListIter.cpp:22-25 | assignment through `*` overwrites the current node's item and nothing else |
| `Iterators.Iterator.Increment` | src/LinkedListIter.cpp:30-34 | pre-increment moves to the old node's `next` and returns the iterator itself |
| `Iterators.Iterator.PostIncrement` | src/LinkedListIter.cpp:35-40 | post-increment returns a fresh iterator at the old node and moves to its `next` |
| `Iterators.Iterator.Decrement` | src/LinkedListIter.cpp:41-45 | pre-decrement moves to the old node's `prev` and returns the iterator itself |
| `Iterators.Iterator.PostDecrement` | src/LinkedListIter.cpp:46-51 | post-decrement returns a fresh iterator at the old node and moves to its `prev` |
| `ConstIterators.ConstIterator.constructor` | src/LinkedListConstIter.cpp:51-55 | the iterator holds the given node |
| `ConstIterators.ConstIterator.Deref` | src/LinkedListConstIter.cpp:21-28 | `*` and `->` yield the item held by the node the const iterator points at, read only |
| `ConstIterators.ConstIterator.Equals` | src/LinkedListConstIter.cpp:11-15 | iterators that compare equal dereference to the same item |
| `ConstIterators.ConstIterator.NotEquals` | src/LinkedListConstIter.cpp:16-20 | `!=` is exactly the negation of `==` |
| `ConstIterators.ConstIterator.Increment` | src/LinkedListConstIter.cpp:29-33 | pre-increment moves to the old node's `next` and returns the iterator itself |
| `ConstIterators.ConstIterator.PostIncrement` | src/LinkedListConstIter.cpp:34-39 | post-increment returns a fresh iterator at the old node and moves to its `next` |
| `ConstIterators.ConstIterator.Decrement` | src/LinkedListConstIter.cpp:40-44 | pre-decrement moves to the old node's `prev` and returns the iterator itself |
| `ConstIterators.ConstIterator.PostDecrement` | src/LinkedListConstIter.cpp:45-50 | post-decrement returns a fresh iterator at the old node and moves to its `prev` |
| `Lists.LinkedList.constructor` | include/LinkedList.h:73-77 | a valid ring holding only a fresh dummy: no elements |
| `Lists.LinkedList.Copy` | include/LinkedList.h:79-85 | a valid list with `src`'s elements in order, on fresh nodes only, so it shares none with `src` |
| `Lists.LinkedList.Size` | include/LinkedList.h:240-246 | `size()` is the number of elements |
| `Lists.LinkedList.IsEmpty` | include/LinkedList.h:210-216 | `isEmpty()` is true exactly when there are no elements |
| `Lists.LinkedList.RangeCheck` | include/LinkedList.h:249-256 | fails, carrying the index, exactly when the index is not below the size |
| `Lists.LinkedList.NodeAt` | include/LinkedList.h:229-233 | walking `index` steps from the head reaches element node `index` |
| `Lists.LinkedList.Get` | include/LinkedList.h:137-157 | in range, the element at `index`; otherwise the out-of-range failure with the index |
| `Lists.LinkedList.Set` | include/LinkedList.h:229-238 | in range, only the element at `index` becomes the value and the size stays; otherwise the failure with the index and no change |
| `Lists.LinkedList.Append` | include/LinkedList.h:105-112 | the elements become the old ones followed by the value; the dummy stays and the only new node is fresh |
| `Lists.LinkedList.InsertBefore` | include/LinkedList.h:114-117 | with `index < size`, the value goes in at `index` and the elements from `index` on move right by one |
| `Lists.LinkedList.Splice` | include/LinkedList.h:105-127 | a node made between position `k - 1` and its successor puts the value at position `k` |
| `Lists.LinkedList.Insert` | include/LinkedList.h:114-127 | the elements become `InsertAt(old, index, value, T())`: an in-range insert, or `T()` padding up to `index` followed by the value |
| `Lists.LinkedList.RemoveNode` | include/LinkedList.h:258-266 | the node the iterator points at leaves the ring and the footprint, and its element leaves the sequence |
| `Lists.LinkedList.Remove` | include/LinkedList.h:218-227 | in range, the element at `index` is removed and the others keep their order; otherwise the failure with the index and no change |
| `Lists.LinkedList.Clear` | include/LinkedList.h:129-135 | no elements are left, the same dummy stays and no node is added |
| `Lists.LinkedList.Swap` | include/LinkedList.h:268-274 | the two lists exchange their elements and footprints, and both stay valid |
| `Lists.LinkedList.Assign` | include/LinkedList.h:87-96 | the list gets `rhs`'s elements, `rhs` is unchanged, and the list itself is returned for chaining; when `rhs` is another list the nodes are all fresh |
| `Lists.LinkedList.Begin` | include/LinkedList.h:186-192 | an iterator at the first element, or at the dummy when the list is empty |
| `Lists.LinkedList.End` | include/LinkedList.h:202-208 | an iterator at the dummy |
| `Lists.LinkedList.ConstBegin` | include/LinkedList.h:178-184 | a const iterator at the first element, or at the dummy when the list is empty |
| `Lists.LinkedList.ConstEnd` | include/LinkedList.h:194-200 | a const iterator at the dummy |
| `Lists.LinkedList.Valid` | include/LinkedList.h:47-54 | the invariant every operation keeps: `tail` is the dummy, the element nodes and the dummy form one circular chain linked both ways with `tail.next` the head, and the size counts the element nodes only |
| `Lists.LinkedList.Neighbours` | include/LinkedList.h:47-54 | every node of the ring, dummy included, has both links set, and stepping forward then back (or back then forward) returns to it |
| `Lists.LinkedList.NextDiffers` | include/LinkedList.h:47-54 | in a non-empty list no node of the ring is its own successor, so `++` always moves an iterator |
| `Lists.LinkedList.Items` | tests/linkedListIterTest.cpp:47-58 | an iterator walking from `begin()` until it equals `end()` reads exactly the elements, in order, one step per element |
| `Lists.LinkedList.ConstItems` | tests/linkedListConstTest.cpp:60-65 | a const iterator walking from `begin()` until it equals `end()` reads exactly the elements, in order, one step per element |
| `Lists.Equal` | include/LinkedList.h:159-167 | `==` is true exactly when both lists have the same elements in the same order, sizes included |
| `Lists.NotEqual` | include/LinkedList.h:169-176 | `!=` is true exactly when the element sequences differ |
| `ListScenarios.FromSeq` | tests/linkedListTest.cpp:168-178 | appending each element of a sequence, in order, to an empty list gives a list holding that sequence |
| `ListScenarios.EmptyStates` | tests/linkedListTest.cpp:281-293 | a new list has size 0 and is empty, and after `clear()`, twice, it still has size 0 and is empty |
| `ListScenarios.CopyThenClear` | tests/linkedListTest.cpp:136-149 | clearing a copy empties the copy and leaves the original's elements as they were |
| `ListScenarios.AssignedFrom` | tests/linkedListTest.cpp:151-154 | a list assigned from `src` holds `src`'s elements and `src` is unchanged |
| `ListScenarios.ChainedAssignment` | tests/linkedListTest.cpp:75-78 | after `d = c = b = a`, all four lists hold `a`'s elements and `a` is unchanged |
| `ListScenarios.SelfAssignment` | include/LinkedList.h:88-90 | `l = l` returns `l` and leaves its elements unchanged |
| `ListScenarios.EqualityAccountsForSize` | tests/linkedListTest.cpp:246-257 | a list and the same list with one more element are unequal under `==` and unequal under `!=` |
| `ListScenarios.RemoveBreaksEquality` | tests/linkedListTest.cpp:259-278 | two lists built by the same `add` calls are equal, and after `remove` on one of them they are not |
| `ListScenarios.RemoveFromEmpty` | tests/linkedListTest.cpp:309-314 | `remove(0)` on an empty list fails with index 0 and leaves the list empty |
| `ListScenarios.AddInterleaved` | tests/linkedListTest.cpp:180-191 | `n` calls `add(2 * i, i + 1)` on an empty list give the interleaved sequence described by `InterleavedShape` |
| `ListScenarios.SetThenGet` | tests/linkedListTest.cpp:217-241 | `set` succeeds exactly in range, and then `get` at that index reads the value back; out of range both fail with the index |
| `ListScenarios.StoreThrough` | tests/linkedListTest.cpp:330-336 | writing a sequence through an iterator from `begin()`, one element per `++`, overwrites that many leading elements in place and keeps the rest |
| `ListScenarios.StepRoundTrip` | tests/linkedListIterTest.cpp:29-45 | `i++` and `++i` leave an iterator unequal to its start when the list is not empty, and the following `i--` or `--i` makes it equal to its start again |
| `ListScenarios.ConstStepRoundTrip` | tests/linkedListConstTest.cpp:32-50 | the same steps for a const iterator: unequal after each step forward on a non-empty list, equal after each step back |

## Left out

- Memory ownership and deallocation are not modelled, because Dafny has no `delete`. This covers the `std::unique_ptr` dummy, the node's `delete` of itself (src/LinkedListNode.cpp:63-64), the list destructor (src/LinkedList.cpp:62) and the allocation counts the tests read. A node that leaves the ring is simply no longer reachable from the list.
- Exceptions thrown by `T`'s copy or by allocation are not modelled, so neither is the strong exception-safety guarantee. Copying a `T` is total. The out-of-range error of `get`, `set` and `remove` is modelled as a failure result carrying the index.
- The null-pointer branches cannot be taken under the ring invariant, so they are not modelled. These are the copy constructor's null-head check (src/LinkedList.cpp:25-27) and the node destructor's `mNext == nullptr` branch (src/LinkedListNode.cpp:56-58).
- The default constructor, copy constructor and `operator=` follow their documentation (include/LinkedList.h:73-96), not their bodies. The bodies leave `mTail` null (src/LinkedList.cpp:15), do not compile (src/LinkedList.cpp:29-34, 51), and fall off the end without a return on self-assignment.
- `T()` is not available generically in Dafny. It is the parameter `blank` of the constructor and of `Insert`, and the dummy's item is that value.
- The mutable `get` returns a reference that callers assign through. That assignment is modelled by `Set`, and by `Store` for the iterators.
- `operator->` is the same read as `operator*`, so it is modelled by `Deref`.
- Iterator invalidation after a change to the list is undefined behaviour, and has no specification in the model.
- The time bounds in the documentation are not modelled: constant-time `add(value)` and `remove` at either end, and time proportional to `index` elsewhere.
- The STL typedefs, the `std::iterator` bases in include/LinkedListIter.h and include/LinkedListConstIter.h, and the output stream the tests' `operator<<` writes to are not modelled. The tests' `std::equal` walks over non-const lists go through the mutable iterator and are modelled by `Items`; the const tests' loops and the `std::copy` from a `const LinkedList&` in `operator<<` go through the const iterator and are modelled by `ConstItems`; the `std::copy` into a list through its iterator is modelled by `StoreThrough`.
- Lists.LinkedList.Append: requires `size < 2^32 - 1`. The model does not capture `mSize` wrapping around at the `uint32_t` limit.
- Lists.LinkedList.Insert: requires `size` and `index` below `2^32 - 1`, for the same reason as `Append`.
- Lists.LinkedList.InsertBefore: the same `uint32_t` bound as `Append`.
- Lists.LinkedList.Splice: the same `uint32_t` bound as `Append`.
- Lists.LinkedList.RemoveNode: requires an iterator at an element node, while the documented precondition also admits `end()`; both callers pass an element node, and the source gives no meaning to removing the dummy, which would leave the list without one.
- Lists.LinkedList.Valid: does not state that the footprint `Repr` holds nothing but the dummy and the element nodes; every operation keeps it so (the constructors start with the dummy alone, insertion adds the new node, removal drops it), but the frames the model proves use only that the ring lies inside `Repr`.
- Nodes.Node.Unlink: only the destructor's non-null branch, and it does not set the removed node's own links.

## Findings

| source | as written | input that shows it | evidently intended | confidence | as-written member | corrected member |
|---|---|---|---|---|---|---|
| src/LinkedListNode.cpp:18-20 | the three-argument constructor sets only the new node's own `mItem`, `mPrev` and `mNext` | any `prev` and `next`, e.g. the dummy of an empty list as both: afterwards the dummy still points at itself, so the new node is not in the ring | `prev->mNext` and `next->mPrev` point at the new node, as include/LinkedListNode.h:37-41 documents | not executed | `Nodes.Node.BetweenAsWritten` | `Nodes.Node.Between` |
| src/LinkedListNode.cpp:32 | `link(first, second)` does nothing when `first == second` | a ring of two nodes `d` and `n`, then `link(d, d)`: `d.next` is still `n` | after `link(d, d)`, `d` precedes and follows itself, as the `@post` at include/LinkedListNode.h:56 promises | not executed | `Nodes.LinkSelfCounterexample` | `Nodes.LinkSelfCorrected` |
