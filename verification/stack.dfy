/** A LIFO stack: a singly-linked chain of nodes reached from `head`, with a
    cached element count, plus its three cursors (consuming, read-only and
    mutable). The chain is an immutable value here: an operation returns the
    new stack instead of updating one in place. */
module Stack {
  import opened Wrappers
  import opened Ops

  /** One cell of the chain: an element and the owning link to the cell below it. */
  datatype Node<T> = Node(data: T, next: Option<Node<T>>)

  /** `Option<Box<Node<T>>>`: the owning link to a cell, absent at the bottom. */
  type Link<T> = Option<Node<T>>

  /** The stack: the link to its top node and the element count it maintains. */
  datatype Stack<T> = Stack(head: Link<T>, size: nat)

  /** The elements held by the nodes reachable from `l`, in link order. */
  function Elements<T>(l: Link<T>): seq<T>
  {
    match l
    case None => []
    case Some(node) => [node.data] + Elements(node.next)
  }

  /** The stack's elements from top to bottom. */
  function Contents<T>(s: Stack<T>): seq<T>
  {
    Elements(s.head)
  }

  /** The representation invariant: `size` is the number of nodes reachable from `head`. */
  predicate Valid<T>(s: Stack<T>)
  {
    s.size == |Contents(s)|
  }

  /** `xs` read backwards. */
  function Reverse<T>(xs: seq<T>): (r: seq<T>)
    ensures |r| == |xs|
    ensures forall i :: 0 <= i < |xs| ==> r[i] == xs[|xs| - 1 - i]
  {
    if xs == [] then [] else Reverse(xs[1..]) + [xs[0]]
  }

  // ---------------------------------------------------------------------------
  // Stack operations
  // ---------------------------------------------------------------------------

  /** `Stack::new`: no head and a count of zero. */
  function New<T>(): (s: Stack<T>)
    ensures Valid(s)
    ensures Contents(s) == [] && s.size == 0
  {
    Stack(None, 0)
  }

  /** `Stack::push`: a new top node takes ownership of the old chain. */
  function Push<T>(s: Stack<T>, x: T): (r: Stack<T>)
    ensures Contents(r) == [x] + Contents(s)
    ensures r.size == s.size + 1
    ensures Valid(r) <==> Valid(s)
  {
    Stack(Some(Node(x, s.head)), s.size + 1)
  }

  /** `Stack::pop`: detaches the top node and returns its element; absent on an
      empty stack. The count is decremented only when a node was detached, and
      the invariant guarantees it is positive then. */
  function Pop<T>(s: Stack<T>): (r: (Option<T>, Stack<T>))
    requires Valid(s)
    ensures Valid(r.1)
    ensures r.0.Some? <==> Contents(s) != []
    ensures Contents(s) == [] ==> r.1 == s && r.1.size == 0
    ensures Contents(s) != [] ==>
              && r.0 == Some(Contents(s)[0])
              && Contents(r.1) == Contents(s)[1..]
              && r.1.size == s.size - 1
  {
    match s.head
    case None => (None, s)
    case Some(node) => (Some(node.data), Stack(node.next, s.size - 1))
  }

  /** `Stack::size`: the cached count, which on a valid stack is its length. */
  function Size<T>(s: Stack<T>): (n: nat)
    ensures Valid(s) ==> n == |Contents(s)|
  {
    s.size
  }

  /** Pushing then popping hands back the pushed value and the original stack. */
  lemma PushThenPop<T>(s: Stack<T>, x: T)
    requires Valid(s)
    ensures Pop(Push(s, x)) == (Some(x), s)
  {
  }

  /** Popping an empty stack returns the absent value and leaves it empty, so
      popping it again does the same. */
  lemma PopEmptyIsIdempotent<T>(s: Stack<T>)
    requires Valid(s) && Size(s) == 0
    ensures Pop(s) == (None, s)
    ensures Size(Pop(s).1) == 0
  {
  }

  /** Pushes every element of `xs`, first to last. */
  function PushAll<T>(s: Stack<T>, xs: seq<T>): (r: Stack<T>)
    ensures Contents(r) == Reverse(xs) + Contents(s)
    ensures r.size == s.size + |xs|
    ensures Valid(r) <==> Valid(s)
    decreases |xs|
  {
    if xs == [] then s
    else
      var r := PushAll(Push(s, xs[0]), xs[1..]);
      assert Reverse(xs) == Reverse(xs[1..]) + [xs[0]];
      r
  }

  /** Pops until the absent value comes back; the values popped, in order. */
  function PopAll<T>(s: Stack<T>): (out: seq<T>)
    requires Valid(s)
    ensures out == Contents(s)
    decreases s.size
  {
    match Pop(s)
    case (None, _) => []
    case (Some(x), rest) => [x] + PopAll(rest)
  }

  /** LIFO: popping everything after pushing `xs` onto an empty stack yields
      `xs` backwards — the last value pushed comes out first. */
  lemma {:induction false} PopAllAfterPushAll<T>(xs: seq<T>)
    ensures PopAll(PushAll(New(), xs)) == Reverse(xs)
    ensures forall i :: 0 <= i < |xs| ==> PopAll(PushAll(New(), xs))[i] == xs[|xs| - 1 - i]
  {
    assert Reverse(xs) + Contents(New<T>()) == Reverse(xs);
  }

  /** Performs one call on `s`; the resulting stack and the pop's result, if the
      call was a pop. */
  function Step<T>(s: Stack<T>, op: Op<T>): (r: (Stack<T>, seq<Option<T>>))
    requires Valid(s)
    ensures Valid(r.0)
    ensures multiset(Delivered(r.1)) + multiset(Contents(r.0))
            == multiset(Contents(s)) + multiset(Pushed([op]))
  {
    assert [op][..0] == [];
    match op
    case PushOp(x) => (Push(s, x), [])
    case PopOp =>
      var (o, t) := Pop(s);
      assert [o][..0] == [];
      assert o.Some? ==> Contents(s) == [o.value] + Contents(t);
      (t, [o])
  }

  /** Runs `ops` on `s`; the final stack and the results of the pops, in order.
      Nothing is lost or invented: the values handed out plus those still held
      are the values initially held plus those pushed. */
  function Run<T>(s: Stack<T>, ops: seq<Op<T>>): (r: (Stack<T>, seq<Option<T>>))
    requires Valid(s)
    ensures Valid(r.0)
    ensures multiset(Delivered(r.1)) + multiset(Contents(r.0))
            == multiset(Contents(s)) + multiset(Pushed(ops))
    decreases |ops|
  {
    if ops == [] then (s, [])
    else
      var init := ops[..|ops| - 1];
      var last := ops[|ops| - 1];
      var before := Run(s, init);
      var after := Step(before.0, last);
      RunConserves(s, init, last, before.1, before.0, after.1, after.0);
      (after.0, before.1 + after.1)
  }

  /** The conservation step of `Run`: a run of `init` followed by one more call. */
  lemma RunConserves<T>(s: Stack<T>, init: seq<Op<T>>, last: Op<T>,
                        outs: seq<Option<T>>, t: Stack<T>, more: seq<Option<T>>, u: Stack<T>)
    requires multiset(Delivered(outs)) + multiset(Contents(t))
             == multiset(Contents(s)) + multiset(Pushed(init))
    requires multiset(Delivered(more)) + multiset(Contents(u))
             == multiset(Contents(t)) + multiset(Pushed([last]))
    ensures multiset(Delivered(outs + more)) + multiset(Contents(u))
            == multiset(Contents(s)) + multiset(Pushed(init + [last]))
  {
    PushedAppend(init, [last]);
    DeliveredAppend(outs, more);
    assert multiset(Delivered(outs + more)) == multiset(Delivered(outs)) + multiset(Delivered(more));
    assert multiset(Pushed(init + [last])) == multiset(Pushed(init)) + multiset(Pushed([last]));
    MultisetShuffle(multiset(Delivered(outs)), multiset(Delivered(more)), multiset(Contents(t)),
                    multiset(Contents(u)), multiset(Contents(s)), multiset(Pushed(init)),
                    multiset(Pushed([last])));
  }

  /** Chaining two conservation equations through the intermediate holding `t`. */
  lemma MultisetShuffle<T>(a: multiset<T>, b: multiset<T>, t: multiset<T>, u: multiset<T>,
                           s: multiset<T>, p: multiset<T>, q: multiset<T>)
    requires a + t == s + p
    requires b + u == t + q
    ensures (a + b) + u == s + (p + q)
  {
    forall x {
      calc {
        ((a + b) + u)[x];
        a[x] + b[x] + u[x];
        { assert (a + t)[x] == (s + p)[x]; assert (b + u)[x] == (t + q)[x]; }
        s[x] + p[x] + q[x];
        (s + (p + q))[x];
      }
    }
  }

  /** Whatever the calls, the final count is the initial count plus the number
      of pushes minus the number of pops that returned a value. */
  lemma {:induction false} RunSize<T>(s: Stack<T>, ops: seq<Op<T>>)
    requires Valid(s)
    ensures Size(Run(s, ops).0) + |Delivered(Run(s, ops).1)| == Size(s) + |Pushed(ops)|
  {
    var r := Run(s, ops);
    assert |multiset(Delivered(r.1)) + multiset(Contents(r.0))|
           == |multiset(Contents(s)) + multiset(Pushed(ops))|;
  }

  // ---------------------------------------------------------------------------
  // IntoIter: the consuming cursor
  // ---------------------------------------------------------------------------

  /** `IntoIter`: owns the stack it consumes. */
  datatype IntoIter<T> = IntoIter(stack: Stack<T>)

  /** `Stack::into_iter`: moves the stack into a consuming cursor. */
  function StackIntoIter<T>(s: Stack<T>): (it: IntoIter<T>)
    ensures Valid(s) ==> Valid(it.stack)
    ensures Contents(it.stack) == Contents(s)
  {
    IntoIter(s)
  }

  /** `IntoIter::next`: pops the owned stack. */
  function IntoIterNext<T>(it: IntoIter<T>): (r: (Option<T>, IntoIter<T>))
    requires Valid(it.stack)
    ensures Valid(r.1.stack)
    ensures Contents(it.stack) == [] ==> r == (None, it)
    ensures Contents(it.stack) != [] ==>
              && r.0 == Some(Contents(it.stack)[0])
              && Contents(r.1.stack) == Contents(it.stack)[1..]
  {
    var (x, rest) := Pop(it.stack);
    (x, IntoIter(rest))
  }

  /** Advances the consuming cursor until it is exhausted; the values yielded. */
  function IntoIterCollect<T>(it: IntoIter<T>): (out: seq<T>)
    requires Valid(it.stack)
    ensures out == Contents(it.stack)
    decreases it.stack.size
  {
    match IntoIterNext(it)
    case (None, _) => []
    case (Some(x), rest) => [x] + IntoIterCollect(rest)
  }

  /** Consuming iteration yields exactly what repeated `pop` would. */
  lemma ConsumingIsRepeatedPop<T>(s: Stack<T>)
    requires Valid(s)
    ensures IntoIterCollect(StackIntoIter(s)) == PopAll(s)
  {
  }

  // ---------------------------------------------------------------------------
  // Iter: the read-only cursor
  // ---------------------------------------------------------------------------

  /** `Iter`: the link to the next node to visit; absent once exhausted. */
  datatype Iter<T> = IterAt(cursor: Link<T>)

  /** The elements an `Iter` has still to yield. */
  function IterRemaining<T>(it: Iter<T>): seq<T>
  {
    Elements(it.cursor)
  }

  /** `Stack::iter`: a cursor at the top node. The stack itself is untouched. */
  function StackIter<T>(s: Stack<T>): (it: Iter<T>)
    ensures IterRemaining(it) == Contents(s)
  {
    IterAt(s.head)
  }

  /** `Iter::next`: yields the current node's element and moves to its
      successor; once exhausted, yields the absent value and stays put. */
  function IterNext<T>(it: Iter<T>): (r: (Option<T>, Iter<T>))
    ensures IterRemaining(it) == [] ==> r == (None, it)
    ensures IterRemaining(it) != [] ==>
              && r.0 == Some(IterRemaining(it)[0])
              && IterRemaining(r.1) == IterRemaining(it)[1..]
  {
    match it.cursor
    case None => (None, it)
    case Some(node) => (Some(node.data), IterAt(node.next))
  }

  /** Advances a read-only cursor until it is exhausted; the values yielded. */
  function IterCollect<T>(it: Iter<T>): (out: seq<T>)
    ensures out == IterRemaining(it)
    decreases |IterRemaining(it)|
  {
    match IterNext(it)
    case (None, _) => []
    case (Some(x), rest) => [x] + IterCollect(rest)
  }

  /** Once a read-only cursor has returned the absent value it returns it forever. */
  lemma {:induction false} IterExhaustedForever<T>(it: Iter<T>, k: nat)
    requires IterNext(it).0 == None
    ensures IterAdvance(it, k) == it
    ensures IterNext(IterAdvance(it, k)).0 == None
  {
    if k > 0 {
      IterExhaustedForever(it, k - 1);
    }
  }

  /** The cursor after `k` calls of `next`. */
  function IterAdvance<T>(it: Iter<T>, k: nat): Iter<T>
  {
    if k == 0 then it else IterNext(IterAdvance(it, k - 1)).1
  }

  /** A read-only pass visits the stack top to bottom and leaves it as it was:
      the same elements and the same count are there to pop afterwards. */
  lemma IterVisitsTopToBottom<T>(s: Stack<T>)
    requires Valid(s)
    ensures IterCollect(StackIter(s)) == PopAll(s)
    ensures IterNext(IterAdvance(StackIter(s), |Contents(s)|)).0 == None
  {
    IterAdvanceDrops(StackIter(s), |Contents(s)|);
  }

  /** `k` calls of `next` drop the first `k` remaining elements. */
  lemma {:induction false} IterAdvanceDrops<T>(it: Iter<T>, k: nat)
    requires k <= |IterRemaining(it)|
    ensures IterRemaining(IterAdvance(it, k)) == IterRemaining(it)[k..]
  {
    if k > 0 {
      IterAdvanceDrops(it, k - 1);
    }
  }

  // ---------------------------------------------------------------------------
  // IterMut: the mutable cursor
  // ---------------------------------------------------------------------------

  /** A `&mut T` handed out by `IterMut`: designates the element of the node
      `depth` links below the top of the borrowed stack. */
  datatype MutRef = MutRef(depth: nat)

  /** `IterMut`: the stack it exclusively borrows, and the depth of the next node
      to visit (at or past the bottom once exhausted). Writes through the
      references it yields land in the borrowed stack. */
  datatype IterMut<T> = IterMutAt(stack: Stack<T>, depth: nat)

  /** The element `k` links below `l`. */
  function DataAt<T>(l: Link<T>, k: nat): (x: T)
    requires k < |Elements(l)|
    ensures x == Elements(l)[k]
  {
    if k == 0 then l.value.data else DataAt(l.value.next, k - 1)
  }

  /** `l` with the element `k` links below it replaced by `v`; every node keeps its place. */
  function SetData<T>(l: Link<T>, k: nat, v: T): (r: Link<T>)
    requires k < |Elements(l)|
    ensures Elements(r) == Elements(l)[k := v]
  {
    if k == 0 then Some(Node(v, l.value.next))
    else Some(Node(l.value.data, SetData(l.value.next, k - 1, v)))
  }

  /** The elements an `IterMut` has still to visit. */
  function IterMutRemaining<T>(it: IterMut<T>): seq<T>
  {
    if it.depth <= |Contents(it.stack)| then Contents(it.stack)[it.depth..] else []
  }

  /** `Stack::iter_mut`: a cursor that borrows the stack as it is, with every
      element still to visit, top first. */
  function StackIterMut<T>(s: Stack<T>): (it: IterMut<T>)
    ensures it.stack == s
    ensures IterMutRemaining(it) == Contents(s)
  {
    IterMutAt(s, 0)
  }

  /** `IterMut::next`: hands out a reference to the current node's element and
      moves to its successor; nothing in the stack changes. Once exhausted it
      hands out nothing and stays put. */
  function IterMutNext<T>(it: IterMut<T>): (r: (Option<MutRef>, IterMut<T>))
    ensures r.1.stack == it.stack
    ensures r.0.Some? <==> IterMutRemaining(it) != []
    ensures r.0.Some? ==> && r.0.value == MutRef(it.depth)
                          && r.0.value.depth < |Contents(it.stack)|
                          && Contents(it.stack)[r.0.value.depth] == IterMutRemaining(it)[0]
                          && IterMutRemaining(r.1) == IterMutRemaining(it)[1..]
    ensures r.0.None? ==> r.1 == it
  {
    if it.depth < |Contents(it.stack)| then
      (Some(MutRef(it.depth)), IterMutAt(it.stack, it.depth + 1))
    else
      (None, it)
  }

  /** `*item`: reads through a reference handed out by `IterMut`. */
  function IterMutRead<T>(it: IterMut<T>, item: MutRef): (x: T)
    requires item.depth < |Contents(it.stack)|
    ensures x == Contents(it.stack)[item.depth]
  {
    DataAt(it.stack.head, item.depth)
  }

  /** `*item = v`: overwrites one element in place. The nodes, their order and
      the count are unchanged, and so is the cursor's position. */
  function IterMutWrite<T>(it: IterMut<T>, item: MutRef, v: T): (r: IterMut<T>)
    requires item.depth < |Contents(it.stack)|
    ensures Contents(r.stack) == Contents(it.stack)[item.depth := v]
    ensures r.stack.size == it.stack.size
    ensures Valid(r.stack) <==> Valid(it.stack)
    ensures r.depth == it.depth
  {
    IterMutAt(Stack(SetData(it.stack.head, item.depth, v), it.stack.size), it.depth)
  }

  /** `for item in s.iter_mut() { *item = f(*item) }`: every element replaced by
      its image under `f`, top to bottom, with the structure and count kept. */
  method ForEachMut<T>(s: Stack<T>, f: T -> T) returns (t: Stack<T>)
    requires Valid(s)
    ensures Valid(t) && Size(t) == Size(s)
    ensures |Contents(t)| == |Contents(s)|
    ensures forall i :: 0 <= i < |Contents(s)| ==> Contents(t)[i] == f(Contents(s)[i])
  {
    var it := StackIterMut(s);
    while true
      invariant Valid(it.stack) && it.stack.size == s.size
      invariant |Contents(it.stack)| == |Contents(s)|
      invariant it.depth <= |Contents(s)|
      invariant forall i :: 0 <= i < it.depth ==> Contents(it.stack)[i] == f(Contents(s)[i])
      invariant forall i :: it.depth <= i < |Contents(s)| ==> Contents(it.stack)[i] == Contents(s)[i]
      decreases |Contents(s)| - it.depth
    {
      var (item, next) := IterMutNext(it);
      if item.None? {
        break;
      }
      it := IterMutWrite(next, item.value, f(IterMutRead(next, item.value)));
    }
    t := it.stack;
  }

  /** Overwriting every visited element with `v` makes every later pop return `v`. */
  lemma OverwriteThenPop<T>(s: Stack<T>, v: T)
    requires Valid(s)
    requires forall i :: 0 <= i < |Contents(s)| ==> Contents(s)[i] == v
    ensures PopAll(s) == seq(Size(s), _ => v)
  {
  }

  // ---------------------------------------------------------------------------
  // The repository's own test scenarios
  // ---------------------------------------------------------------------------

  /** The `push_pop` test: foo, bar, baz pushed come back as baz, bar, foo,
      then the absent value, leaving the count at zero. */
  method PushPopExample() returns (sizeAfterPushes: nat, popped: seq<Option<string>>, sizeAtEnd: nat)
    ensures sizeAfterPushes == 3
    ensures popped == [Some("baz"), Some("bar"), Some("foo"), None]
    ensures sizeAtEnd == 0
  {
    var s := Push(Push(Push(New(), "foo"), "bar"), "baz");
    sizeAfterPushes := Size(s);
    var (a, s1) := Pop(s);
    var (b, s2) := Pop(s1);
    var (c, s3) := Pop(s2);
    var (d, s4) := Pop(s3);
    popped := [a, b, c, d];
    sizeAtEnd := Size(s4);
  }

  /** The `iter` test: a read-only pass yields baz, bar, foo, then the absent
      value; the count is still 3 afterwards, and after pushing hello and world a
      fresh pass sees world, hello, baz, bar, foo. */
  method IterExample() returns (yielded: seq<Option<string>>, sizeAfter: nat, secondPass: seq<string>)
    ensures yielded == [Some("baz"), Some("bar"), Some("foo"), None]
    ensures sizeAfter == 3
    ensures secondPass == ["world", "hello", "baz", "bar", "foo"]
  {
    var s := Push(Push(Push(New(), "foo"), "bar"), "baz");
    var it := StackIter(s);
    var (a, it1) := IterNext(it);
    var (b, it2) := IterNext(it1);
    var (c, it3) := IterNext(it2);
    var (d, _) := IterNext(it3);
    yielded := [a, b, c, d];
    sizeAfter := Size(s);
    s := Push(Push(s, "hello"), "world");
    secondPass := IterCollect(StackIter(s));
  }

  /** The `iter_mut` test: a mutable pass yields baz, bar, foo, then the absent
      value, leaving the count at 3; after pushing topkek a new pass starts at
      topkek; overwriting every element with hello makes the four pops return
      hello and the fifth the absent value. */
  method IterMutExample() returns (yielded: seq<Option<string>>, sizeAfter: nat, top: Option<string>,
                                   popped: seq<Option<string>>)
    ensures yielded == [Some("baz"), Some("bar"), Some("foo"), None]
    ensures sizeAfter == 3
    ensures top == Some("topkek")
    ensures popped == [Some("hello"), Some("hello"), Some("hello"), Some("hello"), None]
  {
    var s := Push(Push(Push(New(), "foo"), "bar"), "baz");
    var it := StackIterMut(s);
    var (a, it1) := IterMutNext(it);
    var (b, it2) := IterMutNext(it1);
    var (c, it3) := IterMutNext(it2);
    var (d, _) := IterMutNext(it3);
    yielded := [Some(IterMutRead(it1, a.value)), Some(IterMutRead(it2, b.value)),
                Some(IterMutRead(it3, c.value)), None];
    assert d == None;
    sizeAfter := Size(s);
    s := Push(s, "topkek");
    var (e, it4) := IterMutNext(StackIterMut(s));
    top := Some(IterMutRead(it4, e.value));
    var t := ForEachMut(s, (x: string) => "hello");
    var (p1, t1) := Pop(t);
    var (p2, t2) := Pop(t1);
    var (p3, t3) := Pop(t2);
    var (p4, t4) := Pop(t3);
    var (p5, _) := Pop(t4);
    popped := [p1, p2, p3, p4, p5];
  }

  /** The `intoiterator` test: consuming a stack built from foo, bar, baz
      yields baz, bar, foo. */
  method IntoIterExample() returns (v: seq<string>)
    ensures v == ["baz", "bar", "foo"]
  {
    var s := Push(Push(Push(New(), "foo"), "bar"), "baz");
    var it := StackIntoIter(s);
    v := [];
    while true
      invariant Valid(it.stack)
      invariant v + Contents(it.stack) == ["baz", "bar", "foo"]
      decreases it.stack.size
    {
      var (x, rest) := IntoIterNext(it);
      if x.None? {
        break;
      }
      v := v + [x.value];
      it := rest;
    }
  }
}
