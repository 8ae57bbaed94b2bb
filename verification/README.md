# linkedlists-rs in Dafny

A model of the two singly-linked containers in linkedlists-rs, with proofs of
what each promises.

- `Stack<T>` (`src/stack.rs`) is a LIFO list reached from `head`, with a cached
  `size` and three cursors: `IntoIter` (consuming), `Iter` (read-only) and
  `IterMut` (mutable). Here it is an immutable datatype. `Node` holds `data`
  and the owning link `next: Option<Node>`, and every operation is a pure
  function that returns the new stack. `Contents(s)` lists the elements from
  top to bottom. `Valid(s)`, "`size` is the number of reachable nodes", is the
  representation invariant.
- `Queue<T>` (`src/queue.rs`) is a FIFO list. It owns a `head` chain and keeps a
  non-owning `tail` pointer for O(1) append. Here it is a class over heap `Node`
  objects, with three ghost fields: `contents` (front first), `spine` (the nodes
  reachable from `head`, in link order) and `Repr`. `Valid()` is the aliasing
  invariant:
  - the spine nodes are distinct, each links to the next, and the last ends the chain;
  - they hold `contents`, and `size` counts them;
  - `tail` is null exactly when `head` is;
  - otherwise `tail` designates the last reachable node.

  Rust's null raw pointer is a `null` `Node?` reference.

Files: `wrappers.dfy` (`Option`), `ops.dfy` (runs of `push`/`pop` calls, shared
by both containers), `stack.dfy`, `queue.dfy`.

Modelling decisions:
- `Stack.Pop` requires `Valid(s)`. The source decrements a `usize` count when
  a node is detached, and that count is positive only because of the
  invariant. Every stack built through the API satisfies it (`New`, `Push`,
  `Pop` and `Run` preserve it).
- `Iter` yields the element itself, because a shared reference can only be read.
- `IterMut` is modelled as the borrowed stack plus the depth of the next node to
  visit. A `&mut T` it yields is a `MutRef(depth)` into the borrowed stack.
  Reading and writing through it are `IterMutRead` and `IterMutWrite`. A write
  replaces one node's element and keeps every node in place. A reference stays
  usable after the cursor advances, as in Rust.
- The three cursor states (positioned at a node, exhausted) are the cursor
  values. Exhausted is the link `None` for `Iter`, a depth at or past the
  bottom for `IterMut`, and an empty owned stack for `IntoIter`.

## Model

| member | source | states |
|---|---|---|
| Stack.New | src/stack.rs:20-25 | a new stack is valid, holds nothing and has count 0 |
| Stack.Push | src/stack.rs:27-34 | the pushed value becomes the top in front of the old elements; the count grows by one; the invariant is kept |
| Stack.Pop | src/stack.rs:36-42 | an empty stack yields the absent value and is left as is, with count 0; otherwise the top element is returned, the rest stays in order, and the count drops by one without underflow; the invariant is kept |
| Stack.Size | src/stack.rs:44-46 | on a valid stack the cached count equals the number of elements |
| Stack.PushThenPop | src/stack.rs:27-42 | `push(x)` then `pop()` returns `Some(x)` and restores the prior stack exactly |
| Stack.PopEmptyIsIdempotent | src/stack.rs:116-118 | popping an empty stack returns the absent value and leaves an empty stack with count 0 |
| Stack.PushAll | src/stack.rs:27-34 | pushing a sequence puts it on top in reverse order and adds its length to the count |
| Stack.PopAll | src/stack.rs:36-42 | popping until the absent value yields exactly the elements, top to bottom |
| Stack.PopAllAfterPushAll | src/stack.rs:104-117 | LIFO: the i-th value popped after pushing `xs` onto an empty stack is the i-th from last pushed |
| Stack.Step | src/stack.rs:27-42 | one push or pop keeps the invariant and neither loses nor invents an element |
| Stack.Run | src/stack.rs:7-8 | after any run of calls the invariant holds, and the values popped plus those still held are the values initially held plus those pushed |
| Stack.RunSize | src/stack.rs:33-39 | after any run of calls, the count is the initial count plus the pushes minus the pops that returned a value |
| Stack.StackIntoIter | src/stack.rs:48-50 | the consuming cursor owns a valid stack with the same elements |
| Stack.IntoIterNext | src/stack.rs:71-76 | advancing the consuming cursor pops: the top element, then the absent value forever once empty |
| Stack.IntoIterCollect | src/stack.rs:71-76 | draining the consuming cursor yields the elements top to bottom |
| Stack.ConsumingIsRepeatedPop | src/stack.rs:62-76 | consuming iteration yields exactly what repeated `pop` yields |
| Stack.StackIter | src/stack.rs:52-54 | a read-only cursor starts with every element still to visit, top first |
| Stack.IterNext | src/stack.rs:78-87 | the read-only cursor yields the current element and moves to its successor; once exhausted it yields the absent value and stays put |
| Stack.IterCollect | src/stack.rs:78-87 | draining a read-only cursor yields exactly its remaining elements in order |
| Stack.IterExhaustedForever | src/stack.rs:82-86 | after the first absent value, every further `next` returns the absent value |
| Stack.IterVisitsTopToBottom | src/stack.rs:128-132 | a read-only pass sees what popping everything would, and is exhausted after as many steps as there are elements; the stack is left as it was |
| Stack.IterAdvanceDrops | src/stack.rs:81-86 | k calls of `next` consume exactly the first k remaining elements |
| Stack.StackIterMut | src/stack.rs:56-59 | the mutable cursor borrows the stack as it is and has every element still to visit, top first |
| Stack.IterMutNext | src/stack.rs:89-98 | the mutable cursor hands out a reference to the current node (the one at the cursor's depth) exactly while elements remain to visit, then drops that element from the ones remaining; it changes nothing in the stack, and once exhausted it stays put |
| Stack.IterMutRead | src/stack.rs:92-96 | reading through a yielded reference gives the element at that node |
| Stack.IterMutWrite | src/stack.rs:158-160 | writing through a yielded reference replaces that one element; node count, order and cursor position are unchanged |
| Stack.ForEachMut | src/stack.rs:158-160 | a full mutable pass applying `f` maps every element in place, top to bottom, keeping the count and the invariant |
| Stack.OverwriteThenPop | src/stack.rs:157-165 | once every element has been overwritten with `v`, every later pop returns `v` |
| Stack.PushPopExample | src/stack.rs:104-119 | foo, bar, baz pushed: count 3, pops baz, bar, foo, then absent, count 0 |
| Stack.IterExample | src/stack.rs:121-134 | the read-only pass yields baz, bar, foo, then absent; the count is still 3; after pushing hello and world a new pass starts at world |
| Stack.IterMutExample | src/stack.rs:139-166 | the mutable pass yields baz, bar, foo, then absent; the count is still 3; after topkek is pushed a pass starts there; overwriting all with hello makes four pops return hello and the fifth absent |
| Stack.IntoIterExample | src/stack.rs:168-179 | consuming a stack built from foo, bar, baz yields baz, bar, foo |
| Queue.Queue.Size | src/queue.rs:54-56 | on a valid queue the cached count is the number of elements |
| Queue.Queue.Push | src/queue.rs:19-38 | appends the element at the back and increments the count. On an empty queue (null tail) the new node becomes the head; otherwise it is linked after the old tail. Afterwards the tail is the new, last reachable node; only the old tail node is modified; the invariant is kept |
| Queue.Queue.Pop | src/queue.rs:40-52 | an empty queue yields the absent value and nothing changes; otherwise the front element is returned, the rest stays in order, the count drops by one, head moves to the successor, and removing the last node resets the tail to null; no node is modified; the invariant is kept |
| Queue.FifoStep | src/queue.rs:19-52 | reference FIFO behaviour of one call on a sequence: a push appends at the back; a pop yields the absent value exactly when the queue is empty, and otherwise yields the front; nothing is lost or invented |
| Queue.Apply | src/queue.rs:19-52 | one `push` or `pop` on a valid queue keeps the invariant and does exactly what the reference step does |
| Queue.FifoRun | src/queue.rs:19-52 | reference FIFO behaviour on sequences: the values popped followed by those left are exactly the values pushed |
| Queue.Run | src/queue.rs:19-52 | any run of calls on a new queue keeps the tail invariant after every call (a loop invariant; per call it is `Queue.Apply`'s contract); its pop results and final count match the reference FIFO behaviour; the count is pushes minus successful pops |
| Queue.PushAllThenDrain | src/queue.rs:71-86 | FIFO: pushing any `xs` and popping until absent returns `xs` in push order, then absent, with count 0 |
| Queue.PushPopExample | src/queue.rs:71-86 | foo, bar, baz pushed: count 3, pops foo, bar, baz, then absent, count 0 |

`Queue.Queue`'s constructor models `Queue::new` (src/queue.rs:11-17). It
produces a valid queue with no head, a null tail, count 0 and no elements.

## Left out

- Rust lifetimes and borrow checking for `Iter`/`IterMut`: coexisting shared cursors, exclusivity of the mutable cursor, references not outliving the stack. The mutable cursor is an in-place update of the borrowed stack.
- `unsafe` raw-pointer semantics beyond the queue's representation invariant.
- `#[derive(Debug)]` output, deallocation of popped nodes, and `Drop`.
- Allocation failure and `usize` overflow on `size += 1`: counts are unbounded `nat`s.
- The adapter chain in the test at src/stack.rs:135-136 (`filter`, `to_ascii_uppercase`, `collect`): standard-library behaviour. `Stack.IterExample` states the unfiltered pass instead.
- The `IntoIterator for Stack` impl (src/stack.rs:62-69) only forwards to `Stack::into_iter`, which is `Stack.StackIntoIter`.
- Frame conditions are not restated outside the queue class. `Queue.Run`, `Queue.PushAllThenDrain` and `Queue.PushPopExample` drive a queue they allocate themselves, so their contracts speak only of results and the final queue.
