# Verified model of four generic containers

The repository provides four in-memory containers for any element type
`T`, each a header-only C++ class template:

- **Vector** (vector.h): an array-backed growable buffer. Before an append
  would fill the last slot, it grows by a fixed increment.
- **Stack** (stack.h): a fixed-size array used as a LIFO. It drops a push
  that would fill its last slot, so it holds at most capacity − 1 elements.
- **Queue** (queue.h): a singly linked FIFO with front and back references.
- **DoublyLinkedList** (doublylinkedlist.h): a chain linked both ways.
  - Pushes and pops at either end.
  - Interior-only insertion and removal.
  - Indexed reads that walk from the nearer end.

Every operation except the vector's `operator[]`, which never locks,
exists twice: a locking variant and a non-locking one, picked by a
constructor flag. The model gives the non-locking bodies and
keeps the flag as an immutable field.

The model follows the code, class by class:

- Vector and Stack are Dafny classes over an `array<T>`.
- Queue and DoublyLinkedList are classes over `Node` objects. Each also
  carries ghost `contents` and `nodes` sequences: `nodes[i]` holds
  `contents[i]`, and the links follow consecutive positions. The
  `Valid()` predicate states this.
- `sizeof(T)` becomes the constant `elemSize`.
- `T()` becomes the constant `zero`, supplied at construction.
- A thrown `std::out_of_range` becomes the `OutOfRange` result.

The list's defective paths are modelled as written, on positions, in the
module `ListDefects` (see "## Findings"). The list class implements the
intended behaviour of those paths.

Files:

- `exceptions.dfy`: `Result` and `Option`.
- `vector.dfy`: module `Vectors`.
- `stack.dfy`: module `Stacks`.
- `queue.dfy`: module `Queues`.
- `doublylinkedlist.dfy`: module `DoublyLinkedLists`.
- `list_defects.dfy`: module `ListDefects`.

Where the code and its documented behaviour differ, the model follows the
code:

- Vector `at` with an index outside the vector returns `T()`; it does not
  fail.
- `is_full` holds at `size + 1 == capacity`, so a stack never holds more
  than capacity − 1 elements.
- Every failure throws the same `std::out_of_range`, so there is one error
  result.
- Vector `pop` on an empty vector returns `T()` instead of failing.
- Vector `pop` writes `T()` into slot old-length, one past the last live
  element. The vacated slot keeps the popped value.
- List `clear` leaves `tail` pointing at a released node. The list's
  `Valid()` therefore constrains the tail only on a non-empty list.

## Model

| member | source | states |
|---|---|---|
| Vectors.CapacityAfterAppend | vector.h:114-119 | One append grows the capacity by the increment or leaves it alone. Starting from length < capacity, a free slot remains after the append. |
| Vectors.CapacityAfterAppends | vector.h:114-119 | After n appends to an empty vector with capacity ≥ 1 and increment ≥ 1, the capacity is at least the initial one and exceeds n. |
| Vectors.Vector.Default | vector.h:58-63 | Ten slots, increment 5 (half of ten), no elements. |
| Vectors.Vector.WithCapacity | vector.h:65-70 | The given number of slots, increment half of it, no elements. |
| Vectors.Vector.WithIncrease | vector.h:72-77 | The given number of slots and increment, no elements. |
| Vectors.Vector.IncreaseCapacity | vector.h:210-221 | A fresh buffer, exactly `increase` slots larger. It holds the live elements in order, then `T()`; the length is unchanged. |
| Vectors.Vector.PushBack | vector.h:113-120 | The contents become old ++ [v]. The buffer grows by the increment exactly when length + 1 == capacity; otherwise the same buffer holds v at slot old-length and every other slot is as before. Length < capacity is kept. |
| Vectors.AdditiveGrowth | vector.h:113-120 | After n appends the capacity is the initial one plus a whole number of increments. It exceeds n, and it is the least such value. |
| Vectors.Vector.Pop | vector.h:136-146 | On an empty vector: returns `T()` and changes nothing. Otherwise: returns the last element and drops it. `T()` goes into slot old-length, one past the last live element; the vacated slot keeps the popped value. |
| Vectors.Vector.At | vector.h:159-166 | Element i when 0 ≤ i < length, `T()` otherwise; nothing changes. |
| Vectors.Vector.Get | vector.h:223-227 | The buffer slot at the index, unchecked against the length; for a live index, that element. |
| Vectors.Vector.GetSize | vector.h:176-180 | The length times `sizeof(T)`. |
| Vectors.Vector.GetLength | vector.h:204-208 | The number of live elements. |
| Vectors.Vector.GetCapacity | vector.h:190-194 | The buffer size, always above the length. |
| Vectors.ElevenAppends | main.cpp:5-26 | After appending 1 to 11 to a default vector, the elements read back are 1 to 11, the length is 11, the capacity is 15 and the size is 11 × `sizeof(T)`. |
| Stacks.Stack.Default | stack.h:61-66 | Ten slots, no elements. |
| Stacks.Stack.WithCapacity | stack.h:68-73 | The given number of slots, no elements. |
| Stacks.Stack.IsFull | stack.h:200-204 | Full exactly when the stack holds capacity − 1 elements. |
| Stacks.Stack.IsEmpty | stack.h:206-210 | Empty exactly when there are no elements. |
| Stacks.Stack.Push | stack.h:171-178 | On a full stack nothing changes, and no error is raised. Otherwise v is stored at slot old-length, the contents become old ++ [v], and every other slot is as before. |
| Stacks.Stack.Pop | stack.h:127-138 | On an empty stack: `OutOfRange`, nothing changes. Otherwise: returns the top element, drops it and writes `T()` into the vacated slot. |
| Stacks.Stack.Top | stack.h:151-158 | `OutOfRange` when empty, otherwise the top element; nothing changes. |
| Stacks.Stack.At | stack.h:191-198 | Element i when 0 ≤ i < length, otherwise `OutOfRange`. |
| Stacks.Stack.GetSize | stack.h:220-224 | The length times `sizeof(T)`. |
| Stacks.Stack.GetLength | stack.h:234-238 | The number of elements. |
| Stacks.Stack.GetCapacity | stack.h:248-252 | The array size, always above the length. |
| Stacks.PushThenPop | stack.h:127-178 | From a stack that is not full, push v then pop returns v and restores the contents. |
| Stacks.FullStackDropsPush | stack.h:171-178 | A capacity-2 stack drops its second push: the length stays 1, a pop gives the first element and the next pop throws. |
| Queues.Node.constructor | queue.h:22 | A node holds the given element and a null `next`. |
| Queues.Queue.constructor | queue.h:69-74 | An empty queue. |
| Queues.Queue.IsEmpty | queue.h:132-136 | Empty ⇔ no elements ⇔ null front ⇔ null back. |
| Queues.Queue.Push | queue.h:246-262 | The contents become old ++ [v] and the back is the new node. On an empty queue the front is that node too; otherwise the front is unchanged. |
| Queues.Queue.Pop | queue.h:163-184 | On an empty queue: `OutOfRange`, nothing changes. Otherwise: returns the first element and drops it; both ends become null when the last node goes. |
| Queues.Queue.Front | queue.h:197-204 | `OutOfRange` when empty, otherwise the first element. |
| Queues.Queue.Back | queue.h:217-224 | `OutOfRange` when empty, otherwise the last element. |
| Queues.Queue.At | queue.h:285-302 | Element i when 0 ≤ i < length (read at either end, or by a forward walk of i links), otherwise `OutOfRange`. |
| Queues.Queue.GetSize | queue.h:312-316 | The length times `sizeof(T)`. |
| Queues.Queue.GetLength | queue.h:326-330 | The number of elements. |
| Queues.Queue.Drain | queue.h:76-83 | Popping until empty ends with no elements and both ends null. |
| Queues.FirstInFirstOut | queue.h:163-262 | After pushing a, b and c, a pop gives a; then the front is b, the back is c and the length is 2. |
| DoublyLinkedLists.Node.constructor | doublylinkedlist.h:23 | A node holds the given element, with null `next` and `previous`. |
| DoublyLinkedLists.NearHead | doublylinkedlist.h:655 | For 0 ≤ index < length, the walk the test picks (index links from the head, or length − 1 − index links from the tail) is at most index links, at most length − index links and at most half the length: the nearer end, to within one link. |
| DoublyLinkedLists.DoublyLinkedList.constructor | doublylinkedlist.h:90-95 | An empty list. |
| DoublyLinkedLists.DoublyLinkedList.IsEmpty | doublylinkedlist.h:212-216 | Empty ⇔ no elements ⇔ null head. |
| DoublyLinkedLists.DoublyLinkedList.PushFront | doublylinkedlist.h:239-256 | The contents become [v] ++ old and the links stay consistent both ways. On an empty list the new node is both head and tail. |
| DoublyLinkedLists.DoublyLinkedList.PushBack | doublylinkedlist.h:279-296 | The contents become old ++ [v] and the links stay consistent both ways. On an empty list the new node is both head and tail. |
| DoublyLinkedLists.DoublyLinkedList.WalkForward | doublylinkedlist.h:658-663 | k `next` steps from the head reach the node at position k. |
| DoublyLinkedLists.DoublyLinkedList.WalkBackward | doublylinkedlist.h:667-672 | k `previous` steps from the tail reach position length − 1 − k. |
| DoublyLinkedLists.DoublyLinkedList.LinkAfter | doublylinkedlist.h:369-374 | Splicing a new node after position index − 1 gives old[..index] ++ [v] ++ old[index..], with both ends unchanged. |
| DoublyLinkedLists.DoublyLinkedList.SplicedValid | doublylinkedlist.h:369-374 | The four link updates of the splice restore the two-way link invariant. |
| DoublyLinkedLists.DoublyLinkedList.Unlink | doublylinkedlist.h:517-521 | Linking the neighbours of interior position index to each other gives old[..index] ++ old[index+1..], with both ends unchanged. |
| DoublyLinkedLists.DoublyLinkedList.PushAt | doublylinkedlist.h:347-392 | `OutOfRange`, with nothing changed, when empty or unless 0 < index < length − 1. Otherwise the contents become old[..index] ++ [v] ++ old[index..], whichever end the walk starts from. The tail-side branch is the corrected one. |
| DoublyLinkedLists.DoublyLinkedList.PopFront | doublylinkedlist.h:408-418 | `OutOfRange` when empty. Otherwise returns the first element and the contents become old[1..]; both ends become null when the last node goes (corrected). |
| DoublyLinkedLists.DoublyLinkedList.PopBack | doublylinkedlist.h:434-444 | `OutOfRange` when empty. Otherwise returns the last element and the contents become old[..length−1]; both ends become null when the last node goes (corrected). |
| DoublyLinkedLists.DoublyLinkedList.PopAt | doublylinkedlist.h:496-542 | `OutOfRange`, with nothing changed, when empty or unless 0 < index < length − 1. Otherwise returns element index and the contents become old[..index] ++ old[index+1..]. Two corrections: the tail-side walk, and the returned value, which neither branch of the code returns. |
| DoublyLinkedLists.DoublyLinkedList.Clear | doublylinkedlist.h:559-570 | Walking from the head releases every node: no elements and a null head, and the tail is left as it was. |
| DoublyLinkedLists.DoublyLinkedList.GetHead | doublylinkedlist.h:580-584 | The first element of a non-empty list. |
| DoublyLinkedLists.DoublyLinkedList.GetTail | doublylinkedlist.h:594-598 | The last element of a non-empty list. |
| DoublyLinkedLists.DoublyLinkedList.At | doublylinkedlist.h:640-676 | On every path (head, tail, forward walk or backward walk), element i when 0 ≤ i < length; `OutOfRange` when empty or out of range. |
| DoublyLinkedLists.DoublyLinkedList.GetSize | doublylinkedlist.h:686-690 | The length times `sizeof(T)`. |
| DoublyLinkedLists.DoublyLinkedList.GetLength | doublylinkedlist.h:700-704 | The number of elements. |
| DoublyLinkedLists.InsertThenRemove | doublylinkedlist.h:347-542 | On [0, 1, 2], `push_at(9, 1)` gives [0, 9, 1, 2] and `pop_at(1)` (corrected `pop_at`) returns 9 and gives back [0, 1, 2]. |
| DoublyLinkedLists.ReadFirstFour | doublylinkedlist.h:640-676 | Reading positions 0 to 3 with `at` gives each element, or `OutOfRange` past the end. |
| DoublyLinkedLists.PushFrontThenPopFront | doublylinkedlist.h:239-418 | `push_front(v)` then `pop_front` returns v and restores the contents. |
| ListDefects.WalkNext | doublylinkedlist.h:364-367 | A walk along `next` from a null cursor faults; one that ends on a node has moved exactly `steps` positions forward. |
| ListDefects.WalkPrevious | doublylinkedlist.h:378-381 | A walk along `previous` from a null cursor faults; one that ends on a node has moved exactly `steps` positions back. |
| ListDefects.CursorStepsFollowLinks | doublylinkedlist.h:17-27 | In a valid list, the cursor steps designate the real links: from position p, `Next` gives `nodes[p].next` (null after the tail) and `Previous` gives `nodes[p].previous` (null before the head). |
| ListDefects.WalkNextLands | doublylinkedlist.h:364-367 | k `next` steps from position p reach p + k while inside the chain. |
| ListDefects.WalkNextPastEnd | doublylinkedlist.h:527-530 | `next` steps that leave the chain reach null, and a further step dereferences it; such a walk never lands on a node. |
| ListDefects.WalkPreviousLands | doublylinkedlist.h:378-381 | k `previous` steps from position p reach p − k. |
| ListDefects.PushAtAsWritten | doublylinkedlist.h:348-392 | `push_at` as written: it throws exactly when the list is empty or the index is not interior. |
| ListDefects.PushAtAsWrittenNearHead | doublylinkedlist.h:362-375 | The head-side branch as written inserts at position index. |
| ListDefects.PushAtAsWrittenNearTail | doublylinkedlist.h:376-389 | The tail-side branch as written inserts at index + 2, or dereferences null when index = length − 2. |
| ListDefects.PushAtAsWrittenMisplaces | doublylinkedlist.h:376-389 | On the tail side, when the element differs from s[index], the as-written result is not the promised insertion at index. |
| ListDefects.PushAtAsWrittenExamples | doublylinkedlist.h:376-389 | `push_at(9, 4)` on [0..6] gives [0, 1, 2, 3, 4, 5, 9, 6], not [0, 1, 2, 3, 9, 4, 5, 6]; `push_at(9, 3)` on [0..4] dereferences null. |
| ListDefects.PopAtAsWritten | doublylinkedlist.h:497-542 | `pop_at` as written: it throws exactly when the list is empty or the index is not interior. |
| ListDefects.PopAtAsWrittenNearHead | doublylinkedlist.h:510-524 | The head-side branch as written removes position index. |
| ListDefects.PopAtAsWrittenNearTail | doublylinkedlist.h:525-539 | The tail-side branch as written always dereferences null. |
| ListDefects.PopAtAsWrittenExample | doublylinkedlist.h:525-539 | `pop_at(3)` on [0, 1, 2, 3, 4] dereferences null. |
| ListDefects.PopFrontAsWritten | doublylinkedlist.h:409-418 | `pop_front` as written throws on an empty list and dereferences null on a one-element list; otherwise the contents become old[1..], with no value returned. |
| ListDefects.PopBackAsWritten | doublylinkedlist.h:435-444 | `pop_back` as written throws on an empty list and dereferences null on a one-element list; otherwise the contents become old[..length−1], with no value returned. |

## Left out

- Locking is not modelled: the mutexes, the `thread_safe_*` twins and the
  `std::function` dispatch set up by `initialize_functions`. Each twin's
  body equals its non-locking counterpart apart from the lock. The mode
  survives only as the immutable `threadSafe` field.
- Memory management is not modelled: `new`/`delete`, and the leaks (the
  vector has no destructor; the list's pops never release a node). The
  `memcpy` of `increase_capacity` is modelled as an element-wise copy of
  the live slots.
- A fresh buffer holds `T()` in every slot. That is what `new T[n]` gives a
  class type; for a scalar `T` the slots are indeterminate.
- Vectors.Vector.WithCapacity requires capacity ≥ 2, and WithIncrease
  requires capacity ≥ 1 and increment ≥ 1.
  - With capacity 0 the first push writes outside the buffer.
  - With increment 0 and capacity c ≥ 1, the buffer never grows, so push
    c + 1 writes outside it. `WithCapacity(1)` is such a case (increment 1/2
    = 0), and its second push writes slot 1 of a one-slot buffer.
- Stacks.Stack.WithCapacity requires capacity ≥ 1. With capacity 0 the
  first push writes outside the array.
- The queue's and the list's `operator[]` are not modelled. They walk
  without any bounds check.
- The stack's `operator[]` is not modelled. It returns a reference to the
  temporary that `at` returns.
- The list destructor is not modelled. It is `clear` on a non-empty list,
  which is modelled.
- The queue and list constructors leave their end pointers uninitialised.
  The model starts them at null.
- DoublyLinkedLists.DoublyLinkedList.Clear: on a list that was never pushed
  to, `clear` reads the uninitialised `head`. That is undefined in the
  source; in the model it is a no-op. The destructor avoids this case with
  its emptiness test; `clear` itself does not.
- `size_t` wrap-around is not modelled. It only matters when a negative
  index is compared with a `size_t`. `push_at`, `pop_at` and the stack,
  vector and queue `at` reject negative indices first.
  - The list's `at` first compares the index with `size - 1` in `size_t`.
    A negative index converted to `size_t` is at least 2^63, so it never
    equals size − 1 for a list that fits in memory. It then reaches the
    `index < 0` test and throws, as modelled.
- Vectors.Vector.Get: requires 0 ≤ index < capacity. `operator[]` takes
  any `int` and reads outside the buffer for other indices, which is
  undefined.
- DoublyLinkedLists.DoublyLinkedList.GetHead: requires a non-empty list,
  because on an empty list the code dereferences a head that is null (after
  `clear`) or uninitialised (before the first push).
- DoublyLinkedLists.DoublyLinkedList.GetTail: requires a non-empty list,
  because the code dereferences the tail without checking.
- DoublyLinkedLists.DoublyLinkedList.PushAt, PopAt, PopFront and PopBack
  model the intended behaviour. The code as written is in `ListDefects`;
  see "## Findings".

## Findings

| source | as written | input that shows it | evidently intended | confidence | as-written member | corrected member |
|---|---|---|---|---|---|---|
| doublylinkedlist.h:376-389 | The tail-side branch of `push_at` walks length − 2 − index links back from the tail, reaching position index + 1, and splices the new node after it. | [0, 1, 2, 3, 4, 5, 6] with `push_at(9, 4)` gives [0, 1, 2, 3, 4, 5, 9, 6]. [0, 1, 2, 3, 4] with `push_at(9, 3)` dereferences a null successor. | Walk length − index links back, to position index − 1, giving [0, 1, 2, 3, 9, 4, 5, 6]. | not executed | ListDefects.PushAtAsWrittenNearTail | DoublyLinkedLists.DoublyLinkedList.PushAt |
| doublylinkedlist.h:525-539 | The tail-side branch of `pop_at` starts at the tail and follows `next` index times. Neither branch of `pop_at` (doublylinkedlist.h:496-542) has a `return`, so no value is given back. | [0, 1, 2, 3, 4] with `pop_at(3)` dereferences null. [0, 1, 2] with `pop_at(1)` removes 1 but returns no defined value. | Follow `previous` length − 1 − index times from the tail, to position index, remove it and return its element. | not executed | ListDefects.PopAtAsWrittenNearTail | DoublyLinkedLists.DoublyLinkedList.PopAt |
| doublylinkedlist.h:409-418 | `pop_front` moves the head to its successor and clears that node's `previous`. The tail is never updated and nothing is returned. | [7] with `pop_front()` dereferences the null successor. | Return the head's element, and null both ends when the last node goes. | not executed | ListDefects.PopFrontAsWritten | DoublyLinkedLists.DoublyLinkedList.PopFront |
| doublylinkedlist.h:435-444 | `pop_back` moves the tail to its predecessor and clears that node's `next`. The head is never updated and nothing is returned. | [7] with `pop_back()` dereferences the null predecessor. | Return the tail's element, and null both ends when the last node goes. | not executed | ListDefects.PopBackAsWritten | DoublyLinkedLists.DoublyLinkedList.PopBack |
