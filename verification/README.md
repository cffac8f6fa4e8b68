# Containers: a doubly linked list, a bounded stack and a bounded queue

This project is a Dafny model of the three generic containers of
`test-driven-development-exercises-intro`, with proofs of what their code
and unit tests promise.

- **`LinkedList<T>`** (`src/linkedlist.ts`) is a doubly linked list.
  - `insert` puts a new node at the head.
  - `delete` unlinks any node by pointing its neighbours at each other.
  - `search` walks from the head along `next` and returns the first node whose payload satisfies a comparator.
- **`Stack<T>`** (`src/stack.ts`) is a LIFO over an array. It throws overflow when `size() === capacity` and underflow when empty.
- **`Queue<T>`** (`src/queue.ts`) is a FIFO over an array. It has the same error rules.

How the model is built:

- Every operation that can throw returns a `Step(state, result)`. The result is `Ok(value)` or `Err(error)`, and the error kinds are `BadParameter`, `Overflow` and `Underflow`. This makes "a throwing call changes nothing" a checkable postcondition.
- A JavaScript argument that may be `null` or `undefined` is an `Option`. `None` takes the `BadParameter` path.
- Capacity is `Option<nat>`. `None` stands for the default `Infinity`.
- The overflow test is equality, as in the source: `capacity == Some(size)`.
- The bound `size <= capacity` (`Valid`) is shown to be preserved by every operation. It is not required by any of them.

The linked list's heap of `Node` objects is modelled as an arena: a map from node ids to records `Node(data, next, previous)`.

- The arena keeps every node ever created, including deleted ones. `delete` leaves a removed node's own links as they were, and a caller holding its handle can still follow them.
- The subset type `List<T>` states what object identity gives for free: every link refers to an existing node, and ids not yet handed out are unused.
- Which nodes currently form the list is described by the ghost predicate `IsChain(l, ids)`:
  - `ids` starts at the head;
  - each node's `next` is its successor and its `previous` its predecessor;
  - both are null at the ends.
- From `IsChain` the model derives that the chain has no repeated ids, that it is unique, and that `a.next == b` exactly when `b.previous == a`.
- `Values(l, ids)` is the chain's payloads, head to tail.
- `Size`, `IsEmpty` and `AtCapacity` on `Stack`, and `Size` on `Queue`, are the observers of the same names. They appear in the contracts below.

Modules, one per file:

- `Wrappers` holds `Option`, `Result`, `Error` and `Step`.
- `Bounded` holds the capacity predicates.
- `Sequences` holds `Reverse`.
- `Stacks`, `Queues` and `LinkedLists` model the three containers.
- `Acceptance` models the linked-list acceptance script.

## Model

| member | source | states |
|---|---|---|
| Stacks.New | src/stack.ts:16-18 | A new stack has size 0, is empty and within bounds, and keeps the capacity it was given (`None` is the `Infinity` default). |
| Stacks.Push | src/stack.ts:20-23 | Fails exactly when the size equals the capacity, with `Overflow`, and then the stack is unchanged. Otherwise the size grows by one, the old items stay below in order, the capacity is kept, and `peek` now returns the pushed item. A stack within its bound stays within it. |
| Stacks.Pop | src/stack.ts:25-28 | Fails exactly when the stack is empty, with `Underflow`, and then the stack is unchanged. Otherwise the remaining items followed by the returned item are the old items. The bound is kept. |
| Stacks.Peek | src/stack.ts:30-33 | `Underflow` exactly when empty. Otherwise it returns the value `pop` would return, which is an item of the stack. Being a function, it leaves size and contents alone. |
| Stacks.PushThenPop | src/stack.ts:20-28 | On a stack that is not full, `push` then `pop` returns the pushed item and gives back the prior stack exactly. |
| Stacks.PushAllAppends | src/stack.ts:20-23 | With room for all of them, pushing a run of items succeeds and appends them in order, capacity untouched. |
| Stacks.PopNTakesTop | src/stack.ts:25-28 | `n` pops (with `n` at most the size) return the top `n` items, top first, and leave the items below. |
| Stacks.PopsReverse | src/stack.ts:25-28 | Popping as many times as there are items above a prefix returns those items reversed and leaves the prefix. |
| Stacks.LastInFirstOut | src/__test__/stack.spec.ts:65-68 | With room for them, pushing a run of items and then popping as many returns them in reverse push order and restores the original stack. |
| Stacks.FillThenDrain | src/__test__/stack.spec.ts:31-35 | After `c` pushes onto a stack of capacity `c`, the next push overflows and changes nothing. Popping all `c` items gives back the empty stack, on which `pop` and `peek` underflow. |
| Queues.New | src/queue.ts:6 | A new queue has size 0, is within bounds, and keeps the capacity it was given (`None` is the `Infinity` default). |
| Queues.Enqueue | src/queue.ts:12-15 | Fails exactly when the size equals the capacity, with `Overflow`, and then the queue is unchanged. Otherwise the size grows by one, the old items stay in front in order, and the new item is last. `peek` then returns the new item if the queue was empty, and the old front otherwise. The bound is kept. |
| Queues.Dequeue | src/queue.ts:17-20 | Fails exactly when empty, with `Underflow`, and then the queue is unchanged. Otherwise the returned item followed by the remaining items are the old items. The bound is kept. |
| Queues.Peek | src/queue.ts:22-25 | `Underflow` exactly when empty. Otherwise it returns the value `dequeue` would return, which is an item of the queue. It changes nothing. |
| Queues.EnqueueAllAppends | src/queue.ts:12-15 | With room for all of them, enqueueing a run of items succeeds and appends them at the tail in order. |
| Queues.DequeueNTakesFront | src/queue.ts:17-20 | `n` dequeues (with `n` at most the size) return the first `n` items, front first, and leave the rest. |
| Queues.FirstInFirstOut | src/__test__/queue.spec.ts:62-65 | With room for them, enqueueing a run of items and then dequeueing everything returns the old items and then the new ones, in order, and leaves an empty queue. |
| Queues.FillThenDrain | src/__test__/queue.spec.ts:28-32 | After `c` enqueues into a queue of capacity `c`, the next enqueue overflows and changes nothing. Dequeueing `c` times returns the items in order and empties the queue, on which `dequeue` and `peek` underflow. |
| LinkedLists.Empty | src/linkedlist.ts:38 | A new list has a null head, its chain is empty, and its (absent) links are ordered. |
| LinkedLists.SetNext | src/linkedlist.ts:26-28 | `updateNext` changes only the `next` link of that one node. Other nodes, its payload and its `previous` stay the same, and links that pointed into the heap still do. |
| LinkedLists.SetPrevious | src/linkedlist.ts:30-32 | `updatePrevious` changes only the `previous` link of that one node. Everything else stays the same, and links still point into the heap. |
| LinkedLists.Insert | src/linkedlist.ts:44-51 | A missing payload fails with `BadParameter` and changes nothing. Otherwise it returns a node id never used before, which becomes the head. The new node holds the payload, its `next` is the old head and its `previous` is null. The old head's `previous` becomes the new node. Every other node and every payload is unchanged. |
| LinkedLists.Delete | src/linkedlist.ts:53-66 | A missing handle fails with `BadParameter` and changes nothing. Deleting the head makes its `next` the head and clears that node's `previous`. Deleting another node points its predecessor's `next` at its successor and its successor's `previous` at its predecessor. The deleted node's own record is unchanged, no other node changes, and no payload changes. |
| LinkedLists.InsertPrepends | src/linkedlist.ts:44-51 | After `insert` on a list with chain `ids`, the chain is the new node followed by `ids`, and the values are the new payload followed by the old values. |
| LinkedLists.PrependLinked | src/linkedlist.ts:47-49 | On heaps: a fresh node whose `next` is the old first node, with that node pointing back to it and nothing else changed, extends a linked chain at the front. |
| LinkedLists.DeleteUnlinks | src/linkedlist.ts:53-66 | Deleting the `i`-th node of the chain succeeds. The chain then becomes the old one without that id, and the values lose exactly the `i`-th payload. The deleted id is no longer in the chain, and its node keeps its data and both links. |
| LinkedLists.DeleteHeadUnlinks | src/linkedlist.ts:56-58 | Deleting the head leaves the chain without its first id. Deleting the only node leaves an empty chain, so the head is null. |
| LinkedLists.DeleteInnerUnlinks | src/linkedlist.ts:59-65 | Deleting a node other than the head leaves the chain without that id. This covers the tail, after which the new last node's `next` is null. |
| LinkedLists.RelinkAround | src/linkedlist.ts:63-64 | On heaps: pointing the predecessor's `next` past a node and the successor's `previous` back to the predecessor, with nothing else changed, leaves the rest of the chain linked. |
| LinkedLists.DeleteMiddle | src/__test__/linkedlist.spec.ts:120-147 | After deleting the middle of three nodes, the head is unchanged and links forward to the old tail. The old tail links back to the head and has a null `next`. The head's `previous` stays null and both payloads are kept. |
| LinkedLists.RedeleteBreaksChain | src/linkedlist.ts:53-65 | `delete` does not check that its node is still in the list. Deleting the middle of three nodes, then the head, then the middle node again sets the remaining head's `previous` to the old head, and no chain describes the result. |
| LinkedLists.InsertKeepsOrder | src/linkedlist.ts:44-51 | Every `next` link leads to a smaller id and every `previous` link to a larger one (`Ordered`). `insert` keeps this, because the new node has the newest id and links to the old head. The empty list has it too. |
| LinkedLists.DeleteKeepsOrder | src/linkedlist.ts:53-66 | `delete` of any node of the heap keeps the links ordered, even when the node is no longer in the list. |
| LinkedLists.Follow | src/linkedlist.ts:72-76 | On an ordered list, the walk along `next` ends after at most as many steps as the id it starts from, and it meets only nodes of the heap. No chain is needed. |
| LinkedLists.FollowSuffix | src/linkedlist.ts:72-76 | On an ordered list with a chain, walking `next` from the `i`-th node meets exactly the rest of the chain. |
| LinkedLists.FollowIsChain | src/linkedlist.ts:72-76 | On an ordered list with a chain, walking `next` from the head meets exactly the chain. |
| LinkedLists.LinkedIsDistinct | src/linkedlist.ts:47-49 | A chain has no repeated node. |
| LinkedLists.LinksAgree | src/linkedlist.ts:44-66 | For two nodes of a chain, `a.next()` is `b` exactly when `b.previous()` is `a`. |
| LinkedLists.ChainUnique | src/linkedlist.ts:44-66 | The links determine the list: two chains of the same list are the same sequence of ids. |
| LinkedLists.Search | src/linkedlist.ts:68-78 | A missing comparator fails with `BadParameter`. Otherwise the result is null exactly when no node of the list satisfies the comparator. If the result is a node, it is the first such node from the head. |
| LinkedLists.Traverse | src/__test__/acceptance/linkedlist.acceptance.ts:12-23 | Walking from the head along `next` until null collects the list's values in chain order. |
| LinkedLists.TraverseBack | src/__test__/acceptance/linkedlist.acceptance.ts:26-29 | Walking from the tail along `previous` until null collects the list's values in reverse order. |
| LinkedLists.InsertAllReverses | src/__test__/linkedlist.spec.ts:46-53 | After inserting a run of payloads one by one, the values from the head are that run reversed, followed by the older values. |
| LinkedLists.DeletedNotFound | src/__test__/acceptance/linkedlist.acceptance.ts:31-33 | After deleting a node of the chain, `search` over the remaining chain (which `DeleteUnlinks` provides) never returns the deleted node. If no other node's payload satisfied the comparator, `search` returns null. |
| LinkedLists.RemovedNotFound | src/linkedlist.ts:68-78 | The same for any list whose chain has lost one id and whose payloads are unchanged. |
| LinkedLists.DeleteWhileTraversing | src/__test__/acceptance/linkedlist.acceptance.ts:12-23 | A walk along `next` that deletes each node satisfying a predicate, and then carries on from the deleted node's own `next`, still visits every value. Afterwards the list is exactly the nodes that do not satisfy the predicate, in order, with payloads unchanged. |
| LinkedLists.Visit | src/__test__/acceptance/linkedlist.acceptance.ts:18-22 | One step of that walk keeps its invariant and moves to the next node of the original chain, whether it deletes the node or not. |
| Acceptance.Build | src/__test__/acceptance/linkedlist.acceptance.ts:4-9 | Inserting "five", "ten", "fifteen", "twenty" gives a list whose values from the head are "twenty", "fifteen", "ten", "five". |
| Acceptance.Scenario | src/__test__/acceptance/linkedlist.spec.ts:8-16 | As intended, the script prints "twenty", "fifteen", "ten", "five" going forward, even though it deletes "fifteen" mid-walk. It then prints "five", "ten", "twenty" going back from the tail. After that, "fifteen" is not found and "five" is found. |
| Acceptance.ScenarioAsWritten | src/__test__/acceptance/linkedlist.acceptance.ts:18 | With the comparison as written nothing is deleted. The backward walk then yields all four values, and the search for "fifteen" finds a node holding "fifteen". |

## Left out

- Console output: the acceptance methods return the payloads each walk visits, in order, and the search results, instead of logging. In `Acceptance.Scenario`, where `node.data()` is called, these are the printed values. The script as written logs the accessor itself on lines 15 and 27.
- Error message strings: they are modelled as the error kinds `BadParameter`, `Overflow` and `Underflow`.
- JavaScript `null`/`undefined` checks on arguments: these become `Option` arguments. Dafny values are otherwise never null.
- `Infinity`, fractional and negative capacities: capacity is `Option<nat>`. With the source's `===` test, such capacities would never trigger overflow.
- The cost of `Array.shift` in `dequeue`, and JavaScript array internals: a sequence is enough.
- Side effects of the comparator passed to `search`: it is a pure total function.
- `head()`, `data()`, `next()` and `previous()` are plain reads. They are the `head` field of the arena and the fields of a node record.
- LinkedLists.Delete: its only requirement is that a given handle is a node of this heap. Calling it with a node of another list is outside the model. The chain lemmas about it also assume the node is in the list, which the source does not check.
- Deleting a handle that is no longer in the list, for example deleting the same node twice, is misuse that the model leaves out. `Delete` still computes the source's relinking from the stale links, but the result can have no chain: deleting the middle node of three, then the head, then the middle node again sets the new head's `previous` to the old head. `Search`, `Traverse` and `TraverseBack` then cannot be applied to it.
- LinkedLists.Search: takes the chain as a ghost argument. Every list built by `insert` and by `delete` of a node currently in the list has one (`InsertPrepends`, `DeleteUnlinks`). The model's `List` type also admits arenas with cyclic links, which `insert` and `delete` never build, so the result of `search` is stated over the chain. The walk itself needs no chain: every arena that `insert` and `delete` build, misuse included, is `Ordered`, and on an ordered arena the walk along `next` ends (`Follow`).
- LinkedLists.Traverse: takes the chain as a ghost argument for the same reason.
- LinkedLists.TraverseBack: takes the chain as a ghost argument, and the tail as an argument. The acceptance script finds the tail during its forward walk. The model passes in the node the walk visits last.

## Findings

| source | as written | input that shows it | evidently intended | confidence | as-written member | corrected member |
|---|---|---|---|---|---|---|
| src/__test__/acceptance/linkedlist.acceptance.ts:18 | `node.data === 'fifteen'` compares the accessor method itself with a string. That can never be true, so the node holding "fifteen" is never deleted. The logging on lines 15 and 27 passes the method too. | The script's own four inserts. The backward walk then meets "fifteen" as well, and the search for "fifteen" finds its node, so "fifteen was not found" (expected at src/__test__/acceptance/linkedlist.spec.ts:15) is never printed. | `node.data() === 'fifteen'` | high; not executed | Acceptance.ScenarioAsWritten | Acceptance.Scenario |
