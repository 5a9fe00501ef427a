# Verified model of a Java collections library: lists and stacks

This project models, in Dafny, the list and stack containers of a small Java
collections library:

- `ArrayList`: a growable array that doubles when full;
- `SinglyLinkedList`: a sentinel-headed list with a `tail` pointer;
- `CircularLinkedList`: a doubly linked ring through a sentinel;
- `ArrayListStack`: a stack with its top at the end of an `ArrayList`;
- `LinkedListStack`: a stack with its top at the head of a `SinglyLinkedList`.

Each Java class is a Dafny class with the same fields, updated in place:

- `size`, `capacity` and the backing array, named `arr` here (`array` in Java);
- `Node` objects whose `next` and `previous` fields are rewired;
- the stacks' final `arrayList` and `linkedList` fields.

Each class also keeps ghost state:

- `contents`, the sequence of elements the structure holds;
- `Repr`, its footprint;
- for the linked lists, `nodes`, the chain of nodes starting with the sentinel.

`Valid()` ties the concrete fields to that ghost state:

- In the array, the first `size` slots hold `contents` and every later slot is null.
- In the singly linked list, following `next` from the sentinel visits `nodes` and ends at `tail`.
- In the ring, both the `next` and the `previous` links go round `nodes`, and the sentinel holds no data.

Every method states its new `contents` and return value in terms of the old ones.

Shared modules:

- `Outcomes` holds `Nullable<E>` and `Result<T>`:
  - an argument that Java allows to be `null` is a `Nullable<E>`;
  - each Java exception is an `Err(...)` result. The variants are:

    | variant | Java exception |
    |---|---|
    | `IndexOutOfBounds` | `IndexOutOfBoundsException` |
    | `NullArgument` | `IllegalArgumentException` for a null element |
    | `NoSuchElement` | `NoSuchElementException` |
    | `EmptyStack` | `EmptyStackException` |
    | `NullPointer` | `NullPointerException` |
- `Sequences` holds the specification functions used throughout:
  - the first-occurrence index `IndexOf`;
  - removal of the first occurrence, `RemoveOccurrence`;
  - `Reverse`;
  - `Distinct`.

Each stack also has specification functions for push and pop on sequences. Lemmas about them prove the last-in-first-out law.

Iterators are classes that hold their list or stack. Each has a `Drain`
client method. It proves that a full traversal yields every element in the
documented order and that one further `next` fails with `NoSuchElement`.

## Model

| member | source | states |
|---|---|---|
| `Sequences.IndexOf` | src/list/ArrayList.java:128-140 | -1 exactly when the element is absent; otherwise the element sits at the result and does not occur before it |
| `Sequences.RemoveOccurrence` | src/list/ArrayList.java:193-206 | reference definition of removal by value, a front-to-back scan that drops the first match; the result is one shorter exactly when the element is present |
| `Sequences.Reverse` | src/stack/ArrayListStack.java:123-145 | reference definition of top-down order, the sequence read from its end; it has the same length as its input |
| `Sequences.IndexOfUnique` | src/list/SinglyLinkedList.java:192-208 | any position holding the element with no earlier copy is the first-occurrence index |
| `Sequences.RemoveOccurrenceAt` | src/list/ArrayList.java:193-206 | removing an element deletes exactly the position of its first occurrence and leaves the list unchanged when it is absent |
| `Sequences.RemoveOccurrenceFound` | src/list/CircularLinkedList.java:262-281 | a scan that stops at the first match may unlink that node and get the first-occurrence removal |
| `Sequences.RemoveOccurrenceMultiset` | src/list/ArrayList.java:193-206 | removal takes away exactly one copy of a present element (the multiset loses one copy) and shortens the list by one exactly when the element was present |
| `Sequences.AppendThenRemove` | src/list/ArrayList.java:32-45 | adding an absent element and then removing it restores the list; adding a present one and removing it drops the earlier copy instead |
| `Sequences.RemoveAsWritten` | src/list/SinglyLinkedList.java:267-288 | `remove(E)` as written: it compares only the first element, so it reports success only when it performed the first-occurrence removal and otherwise leaves the list unchanged |
| `Sequences.RemoveAsWrittenAgrees` | src/list/SinglyLinkedList.java:272-285 | `remove(E)` as written agrees with first-occurrence removal exactly when the element is absent or is the first element |
| `Sequences.RemoveAsWrittenMissesSecond` | src/list/CircularLinkedList.java:269-278 | on [1, 2], removing 2 as written reports false and keeps [1, 2], where the corrected removal gives [1] |
| `Sequences.ReverseAppend` | src/stack/LinkedListStack.java:79-87 | reversing a concatenation reverses and swaps its parts; it is the step that makes repeated pushes at the head lay the pushed values down in reverse order |
| `ArrayLists.ArrayList.constructor` | src/list/ArrayList.java:19-23 | a new list is empty, with capacity 1 |
| `ArrayLists.ArrayList.Add` | src/list/ArrayList.java:32-45 | a null element is rejected with nothing changed; otherwise the element is appended, true is returned, and the capacity doubles exactly when the array was full |
| `ArrayLists.ArrayList.AddAt` | src/list/ArrayList.java:54-73 | an index outside [0, size) is rejected before a null element; otherwise the element is inserted before that index, the later ones shift right, and the capacity doubles exactly when the array was full |
| `ArrayLists.ArrayList.Clear` | src/list/ArrayList.java:79-83 | the list becomes empty, with capacity 1 |
| `ArrayLists.ArrayList.Contains` | src/list/ArrayList.java:92-104 | a null element is rejected; otherwise returns membership in the live elements |
| `ArrayLists.ArrayList.Get` | src/list/ArrayList.java:113-119 | the element at an index in [0, size), otherwise an out-of-bounds error |
| `ArrayLists.ArrayList.IndexOf` | src/list/ArrayList.java:128-140 | a null element is rejected; otherwise -1 exactly when absent, else the position of the first occurrence |
| `ArrayLists.ArrayList.IsEmpty` | src/list/ArrayList.java:148-150 | true exactly when there are no elements |
| `ArrayLists.ArrayList.RemoveAt` | src/list/ArrayList.java:169-184 | an index outside [0, size) is rejected; otherwise returns the element there, closes the gap, and keeps the capacity |
| `ArrayLists.ArrayList.RemoveElement` | src/list/ArrayList.java:193-206 | a null element is rejected; otherwise removes the first occurrence, returns whether there was one, and keeps the capacity |
| `ArrayLists.ArrayList.Set` | src/list/ArrayList.java:216-229 | index checked first, then null; otherwise replaces the element at the index and returns the old one |
| `ArrayLists.ArrayList.Size` | src/list/ArrayList.java:237-239 | the number of elements |
| `ArrayLists.ArrayList.ShiftRight` | src/list/ArrayList.java:67-69 | the slots from `index` to `size - 1` move up one place; the slots below and above them are unchanged |
| `ArrayLists.ArrayList.ResizeArray` | src/list/ArrayList.java:241-250 | a fresh array of the new capacity holds the same elements, with nulls after them |
| `ArrayLists.ArrayListIterator.constructor` | src/list/ArrayList.java:255-257 | a new iterator starts at position 0 |
| `ArrayLists.ArrayListIterator.HasNext` | src/list/ArrayList.java:260-262 | true exactly while elements remain |
| `ArrayLists.ArrayListIterator.Next` | src/list/ArrayList.java:265-274 | returns the element at the cursor and advances; once past the end, fails with `NoSuchElement` |
| `ArrayLists.ArrayList.Iterator` | src/list/ArrayList.java:158-160 | a fresh iterator over this list, positioned at index 0 |
| `ArrayLists.Drain` | src/list/ArrayList.java:252-275 | a full traversal yields the contents in index order and then fails |
| `ArrayLists.ContainsAsWritten` | src/list/ArrayList.java:92-104 | `contains` as written, scanning every slot of the backing array: it either answers or throws `NullPointerException`; true only when the element is in some slot; when no slot is null, it answers membership |
| `ArrayLists.ContainsAsWrittenThrows` | src/list/ArrayList.java:97-101 | `contains` as written throws `NullPointerException` whenever the array has a spare slot and the element is absent |
| `ArrayLists.ContainsAsWrittenOnNewList` | src/list/ArrayList.java:97-101 | on a new list, `contains` as written throws |
| `SinglyLinkedLists.Node.constructor` | src/list/SinglyLinkedList.java:392-395 | a new node holds the given data and `next` link |
| `SinglyLinkedLists.SplicedLinked` | src/list/SinglyLinkedList.java:67 | splicing a new node after position k keeps the `next` chain intact |
| `SinglyLinkedLists.CutLinked` | src/list/SinglyLinkedList.java:249 | bypassing the node after position k keeps the `next` chain intact |
| `SinglyLinkedLists.SinglyLinkedList.constructor` | src/list/SinglyLinkedList.java:19-23 | a new list is empty, with its tail at the sentinel |
| `SinglyLinkedLists.SinglyLinkedList.Add` | src/list/SinglyLinkedList.java:32-43 | a null element is rejected; otherwise it is appended at a fresh tail node and true is returned |
| `SinglyLinkedLists.SinglyLinkedList.AddAt` | src/list/SinglyLinkedList.java:52-70 | index checked in [0, size) before null; otherwise inserted before the index |
| `SinglyLinkedLists.SinglyLinkedList.AddFirst` | src/list/SinglyLinkedList.java:77-84 | a null element is rejected; otherwise it is prepended, with `tail` kept on the last node, which on an empty list is the new one |
| `SinglyLinkedLists.SinglyLinkedList.AddLast` | src/list/SinglyLinkedList.java:91-101 | a null element is rejected; otherwise it is appended at a fresh tail node |
| `SinglyLinkedLists.SinglyLinkedList.Clear` | src/list/SinglyLinkedList.java:107-111 | the list becomes empty, with its tail at the sentinel |
| `SinglyLinkedLists.SinglyLinkedList.Contains` | src/list/SinglyLinkedList.java:120-136 | a null element is rejected; otherwise returns membership |
| `SinglyLinkedLists.SinglyLinkedList.Get` | src/list/SinglyLinkedList.java:145-157 | the element at an index in [0, size), otherwise an out-of-bounds error |
| `SinglyLinkedLists.SinglyLinkedList.GetFirst` | src/list/SinglyLinkedList.java:164-170 | the first element, or `NoSuchElement` when empty |
| `SinglyLinkedLists.SinglyLinkedList.GetLast` | src/list/SinglyLinkedList.java:177-183 | the last element, read through `tail`, or `NoSuchElement` when empty |
| `SinglyLinkedLists.SinglyLinkedList.IndexOf` | src/list/SinglyLinkedList.java:192-208 | a null element is rejected; otherwise -1 exactly when absent, else the first occurrence |
| `SinglyLinkedLists.SinglyLinkedList.IsEmpty` | src/list/SinglyLinkedList.java:216-218 | true exactly when there are no elements |
| `SinglyLinkedLists.SinglyLinkedList.RemoveAt` | src/list/SinglyLinkedList.java:237-258 | an index outside [0, size) is rejected; otherwise returns and unlinks that element, and `tail` moves back when the last element goes |
| `SinglyLinkedLists.SinglyLinkedList.RemoveElement` | src/list/SinglyLinkedList.java:267-288 | a null element is rejected; otherwise removes the first occurrence and returns whether there was one |
| `SinglyLinkedLists.SinglyLinkedList.RemoveFirst` | src/list/SinglyLinkedList.java:295-301 | returns and removes the first element, or `NoSuchElement` when empty |
| `SinglyLinkedLists.SinglyLinkedList.RemoveLast` | src/list/SinglyLinkedList.java:308-314 | returns and removes the last element, or `NoSuchElement` when empty |
| `SinglyLinkedLists.SinglyLinkedList.Set` | src/list/SinglyLinkedList.java:324-343 | index checked first, then null; otherwise replaces the element at the index and returns the old one |
| `SinglyLinkedLists.SinglyLinkedList.LinkAfter` | src/list/SinglyLinkedList.java:67-69 | a new node after the k-th node inserts the element at position k |
| `SinglyLinkedLists.SinglyLinkedList.UnlinkAfter` | src/list/SinglyLinkedList.java:249-255 | bypassing the node after the k-th node deletes position k and moves `tail` back when it was the last |
| `SinglyLinkedLists.SinglyLinkedList.Size` | src/list/SinglyLinkedList.java:351-353 | the number of elements |
| `SinglyLinkedLists.ChainAdd` | src/list/SinglyLinkedList.java:37-38 | `add` writes after the node `tail` points at, dropping anything after it, and moves `tail` to the new end; with `tail` on the last node this appends |
| `SinglyLinkedLists.ChainAddFirstAsWritten` | src/list/SinglyLinkedList.java:77-84 | `addFirst` as written prepends but leaves `tail` on the sentinel when the list was empty |
| `SinglyLinkedLists.AddFirstAsWrittenLosesHead` | src/list/SinglyLinkedList.java:82 | `addFirst(a)` then `add(b)` on an empty list leaves only [b] |
| `SinglyLinkedLists.SinglyLinkedListIterator.constructor` | src/list/SinglyLinkedList.java:361-363 | a new iterator starts at the first element |
| `SinglyLinkedLists.SinglyLinkedListIterator.HasNext` | src/list/SinglyLinkedList.java:366-368 | true exactly while elements remain |
| `SinglyLinkedLists.SinglyLinkedListIterator.Next` | src/list/SinglyLinkedList.java:371-380 | returns the current element and advances; past the end, fails with `NoSuchElement` |
| `SinglyLinkedLists.SinglyLinkedList.Iterator` | src/list/SinglyLinkedList.java:226-228 | a fresh iterator over this list, positioned at the first element |
| `SinglyLinkedLists.Drain` | src/list/SinglyLinkedList.java:358-381 | a full traversal yields the contents in order and then fails |
| `CircularLinkedLists.Node.constructor` | src/list/CircularLinkedList.java:393-397 | a new node holds the given data, `previous` link and `next` link |
| `CircularLinkedLists.CircularLinkedList.constructor` | src/list/CircularLinkedList.java:18-23 | a new list is empty, and its sentinel links to itself both ways |
| `CircularLinkedLists.CircularLinkedList.Add` | src/list/CircularLinkedList.java:32-44 | a null element is rejected; otherwise it is appended before the sentinel and true is returned |
| `CircularLinkedLists.CircularLinkedList.AddAt` | src/list/CircularLinkedList.java:53-73 | index checked in [0, size) before null; otherwise inserted before the index-th node |
| `CircularLinkedLists.CircularLinkedList.AddFirst` | src/list/CircularLinkedList.java:80-82 | a null element is rejected; otherwise it is prepended, also on an empty list |
| `CircularLinkedLists.CircularLinkedList.AddFirstAsWritten` | src/list/CircularLinkedList.java:80-82 | `addFirst` as written, which calls `add(0, e)`: an empty list gives `IndexOutOfBounds` and is left unchanged; otherwise the element is prepended |
| `CircularLinkedLists.CircularLinkedList.AddLast` | src/list/CircularLinkedList.java:89-99 | a null element is rejected; otherwise appended |
| `CircularLinkedLists.CircularLinkedList.Clear` | src/list/CircularLinkedList.java:105-110 | the list becomes empty, and a fresh sentinel links to itself both ways |
| `CircularLinkedLists.CircularLinkedList.Contains` | src/list/CircularLinkedList.java:119-135 | a null element is rejected; otherwise returns membership |
| `CircularLinkedLists.CircularLinkedList.Get` | src/list/CircularLinkedList.java:144-156 | the element at an index in [0, size), otherwise an out-of-bounds error |
| `CircularLinkedLists.CircularLinkedList.GetFirst` | src/list/CircularLinkedList.java:163-169 | the first element, or `NoSuchElement` when empty |
| `CircularLinkedLists.CircularLinkedList.GetLast` | src/list/CircularLinkedList.java:176-182 | the last element, read through `sentinelHead.previous`, or `NoSuchElement` when empty |
| `CircularLinkedLists.CircularLinkedList.IndexOf` | src/list/CircularLinkedList.java:191-207 | a null element is rejected; otherwise -1 exactly when absent, else the first occurrence |
| `CircularLinkedLists.CircularLinkedList.IsEmpty` | src/list/CircularLinkedList.java:215-217 | true exactly when there are no elements |
| `CircularLinkedLists.CircularLinkedList.RemoveAt` | src/list/CircularLinkedList.java:236-253 | an index outside [0, size) is rejected; otherwise returns and unlinks that element |
| `CircularLinkedLists.CircularLinkedList.RemoveElement` | src/list/CircularLinkedList.java:262-281 | a null element is rejected; otherwise removes the first occurrence and returns whether there was one |
| `CircularLinkedLists.CircularLinkedList.RemoveFirst` | src/list/CircularLinkedList.java:288-294 | returns and removes the first element, or `NoSuchElement` when empty |
| `CircularLinkedLists.CircularLinkedList.RemoveLast` | src/list/CircularLinkedList.java:301-314 | returns and unlinks `sentinelHead.previous`, the last element, or `NoSuchElement` when empty |
| `CircularLinkedLists.CircularLinkedList.Set` | src/list/CircularLinkedList.java:324-343 | index checked first, then null; otherwise replaces the element at the index and returns the old one |
| `CircularLinkedLists.CircularLinkedList.Size` | src/list/CircularLinkedList.java:351-353 | the number of elements |
| `CircularLinkedLists.CircularLinkedList.LinkBefore` | src/list/CircularLinkedList.java:68-72 | a new node between the predecessor and successor of position k inserts the element at k |
| `CircularLinkedLists.CircularLinkedList.Unlink` | src/list/CircularLinkedList.java:247-250 | joining a node's neighbours to each other deletes its position |
| `CircularLinkedLists.Splice` | src/list/CircularLinkedList.java:69-70 | the two writes `newNode.previous.next` and `newNode.next.previous` keep both rings intact |
| `CircularLinkedLists.Bypass` | src/list/CircularLinkedList.java:247-248 | the two writes `node.previous.next` and `node.next.previous` keep both rings intact without the node |
| `CircularLinkedLists.SplicedForward` | src/list/CircularLinkedList.java:69 | splicing keeps the `next` ring closed through the sentinel |
| `CircularLinkedLists.SplicedBackward` | src/list/CircularLinkedList.java:70 | splicing keeps the `previous` ring closed through the sentinel |
| `CircularLinkedLists.CutForward` | src/list/CircularLinkedList.java:247 | bypassing keeps the `next` ring closed |
| `CircularLinkedLists.CutBackward` | src/list/CircularLinkedList.java:248 | bypassing keeps the `previous` ring closed |
| `CircularLinkedLists.RingInvariant` | src/list/CircularLinkedList.java:388-398 | in a valid list no link is null, and every node is the `previous` of its `next` and the `next` of its `previous` |
| `CircularLinkedLists.CircularLinkedListIterator.constructor` | src/list/CircularLinkedList.java:361-363 | a new iterator starts at the first element |
| `CircularLinkedLists.CircularLinkedListIterator.HasNext` | src/list/CircularLinkedList.java:366-368 | true exactly while the cursor has not returned to the sentinel |
| `CircularLinkedLists.CircularLinkedListIterator.Next` | src/list/CircularLinkedList.java:371-380 | returns the current element and advances; at the sentinel, fails with `NoSuchElement` |
| `CircularLinkedLists.CircularLinkedList.Iterator` | src/list/CircularLinkedList.java:225-227 | a fresh iterator over this list, positioned at the first element |
| `CircularLinkedLists.Drain` | src/list/CircularLinkedList.java:358-381 | a full traversal yields the contents in order and then fails |
| `ArrayListStacks.PushTop` | src/stack/ArrayListStack.java:79-87 | push puts the element at the end of the array list, just after the unchanged older elements |
| `ArrayListStacks.PopTop` | src/stack/ArrayListStack.java:64-70 | popping takes the last element of the array list, and pushing it back restores the stack |
| `ArrayListStacks.PushAll` | src/stack/ArrayListStack.java:79-87 | pushing a sequence adds its length to the stack |
| `ArrayListStacks.PopN` | src/stack/ArrayListStack.java:64-70 | popping n values yields n values and leaves n fewer |
| `ArrayListStacks.PushAllAppends` | src/stack/ArrayListStack.java:79-87 | pushing a sequence appends it in order at the top end |
| `ArrayListStacks.PopsUndoPushes` | src/stack/ArrayListStack.java:64-87 | last-in-first-out: popping as many values as were pushed returns them in reverse order and leaves the original stack |
| `ArrayListStacks.ArrayListStack.constructor` | src/stack/ArrayListStack.java:20-22 | a new stack is empty |
| `ArrayListStacks.ArrayListStack.Empty` | src/stack/ArrayListStack.java:30-32 | true exactly when the stack is empty |
| `ArrayListStacks.ArrayListStack.Peek` | src/stack/ArrayListStack.java:50-56 | the top, which is the last element, without change; `EmptyStack` when empty |
| `ArrayListStacks.ArrayListStack.Pop` | src/stack/ArrayListStack.java:64-70 | returns and removes the top; `EmptyStack` with nothing changed when empty |
| `ArrayListStacks.ArrayListStack.Push` | src/stack/ArrayListStack.java:79-87 | a null element is rejected with nothing changed; otherwise it becomes the new top and is returned |
| `ArrayListStacks.ArrayListStack.Search` | src/stack/ArrayListStack.java:96-108 | a null element is rejected; -1 exactly when absent; otherwise the 1-based distance from the top of the bottom-most occurrence |
| `ArrayListStacks.ArrayListStack.Size` | src/stack/ArrayListStack.java:116-118 | the number of elements |
| `ArrayListStacks.ArrayListStackIterator.constructor` | src/stack/ArrayListStack.java:126-128 | a new iterator starts at the top |
| `ArrayListStacks.ArrayListStackIterator.HasNext` | src/stack/ArrayListStack.java:131-133 | true exactly while the cursor has not passed the bottom |
| `ArrayListStacks.ArrayListStackIterator.Next` | src/stack/ArrayListStack.java:136-144 | returns the element under the cursor and moves it one down; past the bottom, fails with `NoSuchElement` |
| `ArrayListStacks.ArrayListStack.Iterator` | src/stack/ArrayListStack.java:40-42 | a fresh iterator over this stack, positioned at the top, index size - 1 |
| `ArrayListStacks.Drain` | src/stack/ArrayListStack.java:123-145 | a full traversal yields the elements from top to bottom, which is the reverse of the array list, and then fails |
| `LinkedListStacks.PushHead` | src/stack/LinkedListStack.java:79-87 | push puts the element at the head of the linked list, in front of the unchanged older elements |
| `LinkedListStacks.PopHead` | src/stack/LinkedListStack.java:64-70 | popping takes the head of the linked list, and pushing it back restores the stack |
| `LinkedListStacks.PushAll` | src/stack/LinkedListStack.java:79-87 | pushing a sequence adds its length to the stack |
| `LinkedListStacks.PopN` | src/stack/LinkedListStack.java:64-70 | popping n values yields n values and leaves n fewer |
| `LinkedListStacks.PushAllPrepends` | src/stack/LinkedListStack.java:79-87 | pushing a sequence puts it reversed in front of the list |
| `LinkedListStacks.PopNSplits` | src/stack/LinkedListStack.java:64-70 | popping n values takes the first n elements of the list, in order |
| `LinkedListStacks.PopsUndoPushes` | src/stack/LinkedListStack.java:64-87 | last-in-first-out: popping as many values as were pushed returns them in reverse order and leaves the original stack |
| `LinkedListStacks.LinkedListStack.constructor` | src/stack/LinkedListStack.java:20-22 | a new stack is empty |
| `LinkedListStacks.LinkedListStack.Empty` | src/stack/LinkedListStack.java:30-32 | true exactly when the stack is empty |
| `LinkedListStacks.LinkedListStack.Peek` | src/stack/LinkedListStack.java:50-56 | the top, which is the head, without change; `EmptyStack` when empty |
| `LinkedListStacks.LinkedListStack.Pop` | src/stack/LinkedListStack.java:64-70 | returns and removes the head; `EmptyStack` with nothing changed when empty |
| `LinkedListStacks.LinkedListStack.Push` | src/stack/LinkedListStack.java:79-87 | a null element is rejected with nothing changed; otherwise it is prepended and returned |
| `LinkedListStacks.LinkedListStack.Search` | src/stack/LinkedListStack.java:96-108 | a null element is rejected; -1 exactly when absent; otherwise the 1-based distance from the top of the topmost occurrence |
| `LinkedListStacks.LinkedListStack.Size` | src/stack/LinkedListStack.java:116-118 | the number of elements |
| `LinkedListStacks.LinkedListStackIterator.constructor` | src/stack/LinkedListStack.java:126-128 | a new iterator wraps a fresh list iterator at the top |
| `LinkedListStacks.LinkedListStackIterator.HasNext` | src/stack/LinkedListStack.java:131-133 | true exactly while elements remain |
| `LinkedListStacks.LinkedListStackIterator.Next` | src/stack/LinkedListStack.java:136-142 | checks `hasNext` first: returns the next element and advances, or fails with `NoSuchElement` |
| `LinkedListStacks.LinkedListStack.Iterator` | src/stack/LinkedListStack.java:40-42 | a fresh iterator over this stack, wrapping a fresh list iterator, positioned at the top |
| `LinkedListStacks.Drain` | src/stack/LinkedListStack.java:123-143 | a full traversal yields the elements from top to bottom, which is the list order, and then fails |

## Left out

- Integer overflow: `size`, `capacity` and indices are unbounded integers. Java's 32-bit `int` overflows once `capacity * 2` or `size + 1` passes 2^31 - 1, and that is not modelled.
- Concurrent modification: each iterator's `Valid()` requires a valid list and a cursor consistent with the list's current contents. A change that keeps the cursor consistent, such as an append, is allowed, and `Next` then reads the new contents. Java's behaviour after any other change is not modelled.
- Garbage collection: a node that is unlinked simply stays in `Repr`; `Clear` makes fresh nodes or a fresh array.
- Unchecked array cast: the generic array `(E[]) new Object[n]` is an `array<Nullable<E>>`.
- Equality: Java's `equals` is Dafny's `==` on the element type, so user-defined `equals` that is not an equivalence is not modelled.
- Null elements: no element is ever null. Each operation that takes an element takes a `Nullable<E>`, and `Null` gives the `IllegalArgumentException` path as `Err(NullArgument)`. The abstract `contents` are plain `E`. The concrete slots are `Nullable<E>`, as in Java: `Valid()` states that every live array slot and every non-sentinel node holds `NonNull`, and that the sentinels' data and the array slots past `size` are `Null`.
- Interfaces: `List`, `Stack` and `Queue` are not modelled. `Queue` has no implementation among these classes.
- Private helpers: some steps that Java writes inline are separate helper methods here; each has its own contract stating the same effect. The statements they cover are:
  - the shift loop of `ArrayList.add(int, E)` (`ShiftRight`);
  - the pointer writes of the linked lists (`LinkAfter`, `UnlinkAfter`, `LinkBefore`, `Unlink`, `Splice`, `Bypass`).
- Order of updates: `LinkBefore` and `Unlink` update the ghost fields and `size` before they perform the pointer writes, through `Splice` and `Bypass`. The concrete fields end in the same state as in Java.
- SinglyLinkedLists.SinglyLinkedList.constructor: Java declares this constructor `private`, so outside code can never build a list. It is public here, because `LinkedListStack` creates one.
- Removal by element: `RemoveElement` in both linked lists follows the corrected behaviour under Findings. It scans for the first match, stops there, and unlinks that node.
- Iterator type: each container's `Iterator()` returns its concrete iterator class rather than a `java.util.Iterator`, and the `remove` default of `Iterator` is not modelled.

## Findings

| source | as written | input that shows it | evidently intended | confidence | as-written member | corrected member |
|---|---|---|---|---|---|---|
| src/list/ArrayList.java:97-101 | `contains` runs a for-each over the whole backing array and calls `equals` on every slot, including the null slots past `size` | `new ArrayList()` then `contains(x)`: slot 0 is null, so it throws `NullPointerException` | scan only the first `size` slots and return false when the element is absent | not executed | `ArrayLists.ContainsAsWrittenThrows` | `ArrayLists.ArrayList.Contains` |
| src/list/SinglyLinkedList.java:272-285 | the loop of `remove(E)` never advances `current`, so it compares the first element `size` times | list [1, 2], `remove(2)` returns false and the list stays [1, 2] | remove the first occurrence and return true | not executed | `Sequences.RemoveAsWrittenAgrees` | `SinglyLinkedLists.SinglyLinkedList.RemoveElement` |
| src/list/CircularLinkedList.java:269-278 | the loop of `remove(E)` never advances `current` | list [1, 2], `remove(2)` returns false and the list stays [1, 2] | remove the first occurrence and return true | not executed | `Sequences.RemoveAsWrittenMissesSecond` | `CircularLinkedLists.CircularLinkedList.RemoveElement` |
| src/list/SinglyLinkedList.java:77-84 | `addFirst` on an empty list leaves `tail` on the sentinel | empty list, `addFirst(a)`, `add(b)`: `add` writes after the sentinel and the list becomes [b] | move `tail` to the new node when the list was empty | not executed | `SinglyLinkedLists.AddFirstAsWrittenLosesHead` | `SinglyLinkedLists.SinglyLinkedList.AddFirst` |
| src/list/CircularLinkedList.java:80-82 | `addFirst(e)` calls `add(0, e)`, which requires `0 < size` | empty list, `addFirst(a)` throws `IndexOutOfBoundsException` | prepend also on an empty list, as `addLast` appends | not executed | `CircularLinkedLists.CircularLinkedList.AddFirstAsWritten` | `CircularLinkedLists.CircularLinkedList.AddFirst` |
