# ss-linked-list, modelled in Dafny

This project models the linked-list containers of the TypeScript library ss-linked-list:

- `SinglyList` (src/singly.ts). It keeps `_head`, `_tail` and `_length` over a chain of
  `SinglyNode`s linked by `next`.
- `DoublyList` (src/doubly.ts). It has the same surface, and its nodes also carry a `prev`
  back-pointer.
- The abstract `List` (src/list.ts). It holds the shared traversals (`getNode`, `get`,
  `indexOf`, `first`, the iterator and `toArray`), the getters, and `loopLength`.
  `loopLength` is Floyd's tortoise-and-hare cycle-length algorithm.

The files are:

- `common.dfy` (module `Common`):
  - `Option` stands for the source's `T | void` and `T | null`.
  - `Error` and `Result` stand for the exceptions thrown by the `invariant` helper of
    src/util.ts.
  - It also holds the sequence operations the contracts are stated in: `FirstIndex`,
    `RemoveFirst` and `Reversed`.
- `singly.dfy` (module `Singly`):
  - The classes `SinglyNode` and `SinglyList`.
  - The list keeps the source's three fields, plus a ghost `spine` (its nodes from head)
    and a ghost `Repr`.
  - `Valid()` says the following:
    - `length == |spine|`;
    - `head` and `tail` are the first and last spine nodes, or null when the list is empty;
    - consecutive nodes are linked by `next`;
    - the last `next` is null.
  - `Contents()` is the sequence of values along the spine. Every method is specified by
    what it does to `Contents()` and to the fields.
- `doubly.dfy` (module `Doubly`):
  - The same for `DoublyNode` and `DoublyList`.
  - `Valid()` also requires `head.prev == null`, and that every `prev` points at the
    spine predecessor. So `prev` mirrors `next`.
- `list_base.dfy` (module `ListBase`):
  - It models the abstract `List` on an arena. Slot `i` holds a value and the index of its
    successor, with `-1` for null.
  - This representation allows any link table, cyclic ones included. Such tables are the
    input `loopLength` is written for.
  - `LoopLength` is proved correct on every link table:
    - 0 exactly when the chain from head reaches null;
    - otherwise the number of nodes on the cycle the chain runs into.
  - Corollaries cover a linear list, a closed ring (`tail.next == head`) and the ring
    `next[i] = (i + 1) mod n`.

Several source behaviours look unintended. They are modelled as the code behaves, stated
exactly in the contracts:

- `SinglyList.remove` on a tail match leaves the new tail's `next` pointing at the removed
  node.
- `SinglyList.remove` on a one-element list nulls `_head` but keeps `_tail`.
- `List.indexOf` of an absent value returns `length - 2` on a list of two or more nodes.
- `SinglyList.first` rejects `num == 0`, while the other `first`s accept it.

## Model

| member | source | states |
|---|---|---|
| Common.FirstIndex | src/list.ts:90-112 | the position of the first occurrence of x: every earlier element differs, and it is \|s\| exactly when x is absent |
| Common.RemoveFirstCuts | src/doubly.ts:100-142 | removing the first `===` match cuts the sequence exactly at FirstIndex; with no match the sequence is unchanged and the length drops by one only on a match |
| Common.ReversedIndex | src/singly.ts:201-216 | element k of the reversal is element \|s\|-1-k, and the length is kept |
| Common.ReversedTwice | src/singly.ts:201-216 | reversing twice restores the original sequence, so calling `reverse` twice restores the list's contents |
| ListBase.AppendLinearCorrect | src/list.ts:9-19 | linking a new node after the tail of a linear list keeps it linear and appends the value to its contents |
| ListBase.New | src/list.ts:9-19 | the constructor's append loop yields a linear list whose contents are the given values in order |
| ListBase.HeadValue | src/list.ts:21-23 | the `head` getter is null for an empty list, else the first value |
| ListBase.TailValue | src/list.ts:24-26 | the `tail` getter is null for an empty list, else the last value |
| ListBase.Length | src/list.ts:28-30 | `length` is the number of values iteration yields |
| ListBase.IsEmpty | src/list.ts:135-137 | `isEmpty` holds exactly when the contents are empty |
| ListBase.EmptyIsEmpty | src/list.ts:9-30 | a fresh list is linear, with null head and tail values, length 0 and `isEmpty` true |
| ListBase.GetNode | src/list.ts:65-83 | fails with out-of-range exactly unless length > 0 and 0 <= position < length; otherwise returns the node `position` hops from head |
| ListBase.Get | src/list.ts:85-88 | fails exactly as `getNode` does; otherwise returns the value at `position` of the contents |
| ListBase.IndexOf | src/list.ts:90-112 | -1 on an empty list; the first match's index when the value occurs, the tail included; and `length - 2` when it is absent from a non-empty list |
| ListBase.First | src/list.ts:114-129 | fails with invalid-argument exactly when num < 0; otherwise the first min(num, length) values in iteration order |
| ListBase.ToArray | src/list.ts:131-148 | iteration from head until a null `next` yields exactly the contents |
| ListBase.LoopLength | src/list.ts:32-63 | on any link table, 0 exactly when the chain from head reaches null, and otherwise the length of the cycle the chain enters (a node r hops lead back to, and no fewer do) |
| ListBase.FloydMeet | src/list.ts:43-51 | on a chain that never reaches null, the slow and the fast pointer meet within as many steps as there are nodes |
| ListBase.FloydBound | src/list.ts:43-51 | while the pointers have not met, the slow pointer has taken fewer steps than there are nodes, so the first loop ends |
| ListBase.NeverNil | src/list.ts:43-51 | once the pointers meet on live nodes, the chain never reaches null, so a meeting proves a cycle |
| ListBase.PeriodMoves | src/list.ts:53-62 | every node reachable from a node of an r-node cycle lies on an r-node cycle, so counting from the meeting point measures that cycle |
| ListBase.CycleLengthUnique | src/list.ts:32-63 | the cycle a chain runs into has one length, wherever it is measured, so `loopLength` has one correct answer |
| ListBase.LoopLengthOfLinear | src/list.ts:36-51 | on a linear list (tail.next null) `loopLength` is 0 |
| ListBase.LoopLengthOfCircular | src/list.ts:43-62 | on a closed ring (tail.next == head) `loopLength` is the length, 0 when empty |
| ListBase.RingIsCircular | src/list.ts:32-63 | the table next[i] = (i + 1) mod n, started at slot 0, is a closed circular list of n nodes |
| ListBase.LoopLengthOfRing | src/list.ts:32-63 | `loopLength` of the ring next[i] = (i + 1) mod n is n; a single self-linked node gives 1 |
| Singly.SinglyNode.constructor | src/node.ts:5-8 | a new node holds the value and a null `next` |
| Singly.SinglyList.constructor | src/singly.ts:9-19 | the new list is valid and its contents are the given values in order |
| Singly.SinglyList.HeadValue | src/singly.ts:21-23 | null for an empty list, else the first value |
| Singly.SinglyList.TailValue | src/singly.ts:24-26 | null for an empty list, else the last value |
| Singly.SinglyList.Length | src/singly.ts:28-30 | the number of values in the list |
| Singly.SinglyList.NextNullIffLast | src/singly.ts:32-39 | in a valid list a node's `next` is null exactly when it is the last node, so iteration stops at the tail |
| Singly.SinglyList.ToArray | src/singly.ts:197-199 | iteration from head yields exactly the contents |
| Singly.SinglyList.GetNode | src/singly.ts:45-63 | fails with out-of-range exactly unless length > 0 and 0 <= position < length; otherwise the spine node at `position` |
| Singly.SinglyList.Get | src/singly.ts:65-68 | fails as `getNode` does; otherwise the value at `position` |
| Singly.SinglyList.Append | src/singly.ts:71-83 | returns true, keeps the list valid, appends the value to the contents and adds one to the length; the old nodes stay in place with the new node after them, and a non-empty list keeps its head, the old tail's `next` now being the new tail |
| Singly.SinglyList.Prepend | src/singly.ts:85-95 | returns true, keeps the list valid, puts the value in front of the contents and adds one to the length; the old nodes stay in place behind the new node, and a non-empty list keeps its tail, the new head's `next` being the old head |
| Singly.SinglyList.Remove | src/singly.ts:98-133 | returns the value exactly when it occurs, else nothing and no change. A head match with a successor, or an interior match, leaves a valid list with the first match cut out. A one-element match nulls the head, keeps the tail and breaks validity. A tail match makes the predecessor the tail, keeps every `next` link and breaks validity |
| Singly.SinglyList.FindAfterHead | src/singly.ts:111-131 | the loop that follows the head check stops at the first match, or at null when there is none, carrying the match's predecessor |
| Singly.SinglyList.UnlinkHead | src/singly.ts:105-109 | a head match drops the first node and clears its `next`; it keeps the list valid only with a successor, and otherwise leaves the tail set |
| Singly.SinglyList.UnlinkAt | src/singly.ts:113-122 | an interior match is spliced out, giving a valid list; a tail match moves `_tail` to the predecessor but leaves the predecessor's `next` on the removed node |
| Singly.SinglyList.UnlinkInner | src/singly.ts:114-121 | splicing an interior node out keeps the list valid and cuts the node's value out of the contents |
| Singly.SinglyList.RemoveHead | src/singly.ts:135-154 | nothing and no change when empty; otherwise returns the first value, drops it, clears the old head's `next`, and empties both ends of a one-element list |
| Singly.SinglyList.RemoveTail | src/singly.ts:156-181 | nothing and no change when empty; otherwise returns the last value and drops it, the predecessor becoming the tail with a null `next`; the detached old tail's `next` is null; a one-element list ends with both ends null |
| Singly.SinglyList.First | src/singly.ts:183-195 | fails with invalid-argument exactly when num <= 0; otherwise the first min(num, length) values |
| Singly.ReverseWalk | src/singly.ts:209-214 | the loop with a trailing `prevNode` points every node's `next` at its former predecessor and ends on the old tail |
| Singly.ReversedChain | src/singly.ts:201-216 | backward-linked nodes read in reverse form a valid chain whose values are the old values reversed |
| Singly.SinglyList.Reverse | src/singly.ts:201-216 | keeps the list valid with the same nodes; the spine and contents are reversed, the length kept, and the old head and tail swap places |
| Singly.SinglyList.Clone | src/singly.ts:218-221 | a fresh, separate valid list with the same contents |
| Doubly.DoublyNode.constructor | src/doubly.ts:72-79 | a new node holds the value with null `next` and `prev` |
| Doubly.DoublyList.constructor | src/doubly.ts:9-19 | the new list is valid, with `prev` mirroring `next`, and its contents are the given values in order |
| Doubly.DoublyList.HeadValue | src/doubly.ts:21-23 | null for an empty list, else the first value |
| Doubly.DoublyList.TailValue | src/doubly.ts:24-26 | null for an empty list, else the last value |
| Doubly.DoublyList.Length | src/doubly.ts:28-30 | the number of values in the list |
| Doubly.DoublyList.NextNullIffLast | src/doubly.ts:32-39 | in a valid list a node's `next` is null exactly when it is the last node |
| Doubly.DoublyList.ToArray | src/doubly.ts:206-208 | iteration from head yields exactly the contents |
| Doubly.DoublyList.GetNode | src/doubly.ts:45-63 | fails with out-of-range exactly unless length > 0 and 0 <= position < length; otherwise the spine node at `position` |
| Doubly.DoublyList.Get | src/doubly.ts:65-68 | fails as `getNode` does; otherwise the value at `position` |
| Doubly.DoublyList.Append | src/doubly.ts:71-84 | returns true, keeps the list valid, appends the value with the old nodes in place before the new node, adds one to the length; the new tail's `prev` is the old tail, whose `next` is the new tail |
| Doubly.DoublyList.Prepend | src/doubly.ts:86-97 | returns true, keeps the list valid, puts the value in front with the old nodes in place behind the new node; the old head's `prev` is the new head, whose `next` is the old head |
| Doubly.DoublyList.Remove | src/doubly.ts:100-142 | keeps the list valid; returns the value exactly when it occurs; the contents lose their first match (and are unchanged without one); the removed node's `next` and `prev` are cleared |
| Doubly.DoublyList.FindFromHead | src/doubly.ts:119-140 | the loop that follows the head check stops at the first match, or at null when there is none |
| Doubly.DoublyList.UnlinkHead | src/doubly.ts:107-117 | a head match drops the first node, nulls the new head's `prev` (or both ends of a one-node list) and clears both links of the removed node |
| Doubly.DoublyList.UnlinkAt | src/doubly.ts:120-132 | a match past the head is spliced out in both directions and its links cleared |
| Doubly.DoublyList.UnlinkInner | src/doubly.ts:121-125 | an interior match gets `prev.next = next` and `next.prev = prev`, keeping the list valid with its value cut out |
| Doubly.DoublyList.UnlinkLast | src/doubly.ts:126-130 | a tail match makes the predecessor the tail with a null `next`, keeping the list valid without the last value |
| Doubly.DoublyList.RemoveHead | src/doubly.ts:144-164 | nothing and no change when empty; otherwise returns and drops the first value, clears the old head's links and empties both ends of a one-element list |
| Doubly.DoublyList.RemoveTail | src/doubly.ts:166-187 | nothing and no change when empty; otherwise returns and drops the last value through `tail.prev`, the detached old tail's `next` and `prev` being null in every case; a one-element list ends with both ends null |
| Doubly.DoublyList.First | src/doubly.ts:189-204 | fails with invalid-argument exactly when num < 0; otherwise the first min(num, length) values |
| Doubly.ValuesReversed | src/doubly.ts:210-226 | the values of the reversed node sequence are the reversed values |
| Doubly.LinksReversed | src/doubly.ts:218-224 | nodes whose `next` and `prev` have been swapped form, read backwards, a valid doubly linked chain |
| Doubly.SwapWalk | src/doubly.ts:218-224 | the loop swaps `next` and `prev` on every node and ends on the old tail |
| Doubly.DoublyList.ReversedValid | src/doubly.ts:210-226 | after the swap, with head and tail exchanged, the list is valid and holds the old contents reversed |
| Doubly.DoublyList.Reverse | src/doubly.ts:210-226 | keeps the list valid with the same nodes; the spine and contents are reversed, the length kept, the old head and tail swap places, so `head.prev` and `tail.next` are null |
| Doubly.DoublyList.Clone | src/doubly.ts:228-231 | a fresh, separate valid list with the same contents |

## Left out

- The circular list variants are not modelled. Their code is not part of this model: only a
  commented-out sketch of them exists in src/list.ts.
  - Their behaviour enters only as the ring lemmas for `loopLength`.
- The `invariant` helper of src/util.ts is modelled as an `Err` result carrying the kind of
  failure. The message text is not modelled.
- The iterator (`Symbol.iterator`, a generator) is modelled as the sequence it yields.
  - `toArray` is the method that walks it.
  - `first` walks the same nodes directly, and does not resume a generator.
- The abstract `List` is modelled on an arena value, not on heap objects.
  - Its mutators are abstract in the source. Only the linear `append` the constructor relies
    on is modelled, as `AppendLinear`.
  - Aliasing of the subclasses' nodes is not captured there.
- `SinglyList`'s two broken states (after a tail match or a one-element match in `remove`)
  are described field by field. Operations called after them are not modelled, since every
  method requires `Valid()`.
- JavaScript numbers are modelled as unbounded integers. Non-integer or NaN positions and
  counts are not modelled.
- `===` on values is modelled as Dafny equality on an equality-supporting type.
- Garbage collection of detached nodes is not modelled. No removal adds to `Repr`.
- The search loop and the unlinking steps of `remove` are separate helper methods. These
  are `FindAfterHead`/`FindFromHead` and the `Unlink…` methods. Their statements run in the
  source's order, and the loop does not write to the heap.
- `DoublyNode` is not defined in src/node.ts. It is modelled with `value`, `next` and `prev`,
  as src/doubly.ts uses it.
- The test files are not modelled.
