/** A FIFO queue: a singly-linked chain of heap nodes owned from `head`, plus a
    non-owning `tail` reference to the last node so that `push` need not walk
    the chain. The safety of writing through `tail` rests on `Queue.Valid`. */
module Queue {
  import opened Wrappers
  import opened Ops

  /** One heap cell: an element and the owning link to the next cell (`null` at the end). */
  class Node<T> {
    var data: T
    var next: Node?<T>

    /** `Box::new(Node { data, next: None })`. */
    constructor (data: T)
      ensures this.data == data && next == null
    {
      this.data := data;
      next := null;
    }
  }

  /** The nodes of a spine, as a set of objects. */
  ghost function NodeSet<T>(spine: seq<Node<T>>): set<object>
  {
    set i | 0 <= i < |spine| :: spine[i]
  }

  /** Appending a node to a spine adds exactly that node to its set. */
  lemma NodeSetSnoc<T>(spine: seq<Node<T>>, n: Node<T>)
    ensures NodeSet(spine + [n]) == NodeSet(spine) + {n}
  {
    var sp := spine + [n];
    forall o | o in NodeSet(sp)
      ensures o in NodeSet(spine) + {n}
    {
      var i :| 0 <= i < |sp| && sp[i] == o;
      if i < |spine| {
        assert spine[i] == o;
      }
    }
    forall o | o in NodeSet(spine)
      ensures o in NodeSet(sp)
    {
      var i :| 0 <= i < |spine| && spine[i] == o;
      assert sp[i] == o;
    }
    assert sp[|spine|] == n;
  }

  class Queue<T> {
    var head: Node?<T>
    /** Non-owning reference to the last node; `null` for the raw null pointer. */
    var tail: Node?<T>
    var size: nat

    /** The elements, front first. */
    ghost var contents: seq<T>
    /** The nodes reachable from `head`, in link order. */
    ghost var spine: seq<Node<T>>
    /** Every object the queue's representation may involve. */
    ghost var Repr: set<object>

    /** The representation invariant. The nodes reachable from `head` are the
        distinct nodes of `spine`, each linked to the next and the last ending
        the chain; they hold `contents`; `size` counts them; and `tail` is null
        exactly when `head` is, and otherwise designates the last of them. */
    ghost predicate Valid()
      reads this, Repr
    {
      && Repr == {this} + NodeSet(spine)
      && |spine| == |contents| == size
      && (head == null <==> spine == [])
      && (tail == null <==> head == null)
      && (spine != [] ==> head == spine[0] && tail == spine[|spine| - 1] && tail.next == null)
      && (forall i :: 0 <= i < |spine| - 1 ==> spine[i].next == spine[i + 1])
      && (forall i, j :: 0 <= i < j < |spine| ==> spine[i] != spine[j])
      && (forall i :: 0 <= i < |spine| ==> spine[i].data == contents[i])
    }

    /** `Queue::new`: no head, a null tail and a count of zero. */
    constructor ()
      ensures Valid() && fresh(Repr)
      ensures contents == []
      ensures head == null && tail == null && size == 0
    {
      head := null;
      tail := null;
      size := 0;
      contents := [];
      spine := [];
      Repr := {this};
    }

    /** `Queue::size`: the cached count, which is the number of elements. */
    function Size(): (n: nat)
      reads this, Repr
      requires Valid()
      ensures n == |contents|
    {
      size
    }

    /** `Queue::push`: appends a new node. On an empty queue (null tail) it
        becomes the head; otherwise it is linked after the node `tail`
        designates. Either way `tail` then designates it. Of the existing nodes
        only the old tail's link changes. */
    method Push(data: T)
      requires Valid()
      modifies Repr
      ensures Valid() && fresh(Repr - old(Repr))
      ensures contents == old(contents) + [data]
      ensures size == old(size) + 1
      ensures tail != null && fresh(tail) && tail.data == data && tail.next == null
      ensures spine == old(spine) + [tail]
      ensures old(tail) == null ==> head == tail
      ensures old(tail) != null ==> head == old(head) && old(tail).next == tail
                                    && old(tail).data == old(tail.data)
      ensures forall n :: n in old(spine) && n != old(tail) ==> unchanged(n)
    {
      var node := new Node(data);
      if tail == null {
        head := node;
      } else {
        tail.next := node;
      }
      tail := node;
      size := size + 1;
      contents := contents + [data];
      NodeSetSnoc(spine, node);
      spine := spine + [node];
      Repr := Repr + {node};
    }

    /** `Queue::pop`: on an empty queue returns the absent value and changes
        nothing; otherwise unlinks the head node, returns its element, moves
        `head` to its successor, decrements the count and, when that emptied
        the queue, resets `tail` to null. No node is written to. */
    method Pop() returns (r: Option<T>)
      requires Valid()
      modifies this
      ensures Valid()
      ensures old(contents) == [] ==> r == None && contents == [] && size == 0
                                      && head == null && tail == null
      ensures old(contents) != [] ==>
                && r == Some(old(contents)[0])
                && contents == old(contents)[1..]
                && spine == old(spine)[1..]
                && size == old(size) - 1
                && head == old(head).next
      ensures |old(contents)| == 1 ==> head == null && tail == null
      ensures |old(contents)| > 1 ==> tail == old(tail)
      ensures Repr <= old(Repr)
    {
      if head == null {
        return None;
      }
      var node := head;
      assert |spine| > 1 ==> node.next == spine[1];
      head := node.next;
      size := size - 1;
      if head == null {
        tail := null;
      }
      contents := contents[1..];
      spine := spine[1..];
      Repr := Repr - {node};
      r := Some(node.data);
    }
  }

  /** The reference FIFO behaviour of one call on a queue holding `q`: what it
      then holds and the pop's result, if the call was a pop. */
  function FifoStep<T>(q: seq<T>, op: Op<T>): (r: (seq<T>, seq<Option<T>>))
    ensures Delivered(r.1) + r.0 == q + Pushed([op])
    ensures op.PushOp? ==> r.1 == [] && r.0 == q + [op.data]
    ensures op.PopOp? ==> |r.1| == 1 && (r.1[0].None? <==> q == [])
  {
    assert [op][..0] == [];
    match op
    case PushOp(x) => (q + [x], [])
    case PopOp =>
      if q == [] then
        var none: Option<T> := None;
        assert [none][..0] == [];
        (q, [none])
      else
        assert [Some(q[0])][..0] == [];
        assert q == [q[0]] + q[1..];
        (q[1..], [Some(q[0])])
  }

  /** The reference FIFO behaviour of a run of calls on a new queue: the elements
      left, front first, and the results of the pops, in order. What the pops
      delivered followed by what is left is exactly what was pushed. */
  function FifoRun<T>(ops: seq<Op<T>>): (r: (seq<T>, seq<Option<T>>))
    ensures Delivered(r.1) + r.0 == Pushed(ops)
    decreases |ops|
  {
    if ops == [] then ([], [])
    else
      var init := ops[..|ops| - 1];
      var before := FifoRun(init);
      var after := FifoStep(before.0, ops[|ops| - 1]);
      FifoRunConserves(ops, before.1, before.0, after.1, after.0);
      (after.0, before.1 + after.1)
  }

  /** The conservation step of `FifoRun`: a run of all but the last call, then the last. */
  lemma FifoRunConserves<T>(ops: seq<Op<T>>, outs: seq<Option<T>>, q: seq<T>,
                            more: seq<Option<T>>, q': seq<T>)
    requires ops != []
    requires Delivered(outs) + q == Pushed(ops[..|ops| - 1])
    requires Delivered(more) + q' == q + Pushed([ops[|ops| - 1]])
    ensures Delivered(outs + more) + q' == Pushed(ops)
  {
    var init, last := ops[..|ops| - 1], ops[|ops| - 1];
    assert ops == init + [last];
    PushedAppend(init, [last]);
    DeliveredAppend(outs, more);
    SeqShuffle(Delivered(outs), Delivered(more), q, q', Pushed(init), Pushed([last]));
  }

  /** Chaining two conservation equations through the intermediate contents `q`. */
  lemma SeqShuffle<T>(a: seq<T>, b: seq<T>, q: seq<T>, q': seq<T>, p: seq<T>, p': seq<T>)
    requires a + q == p
    requires b + q' == q + p'
    ensures (a + b) + q' == p + p'
  {
    calc {
      (a + b) + q';
      a + (b + q');
      a + (q + p');
      (a + q) + p';
    }
  }

  /** Performs one call on a valid queue, as `FifoStep` describes. */
  method Apply<T>(q: Queue<T>, op: Op<T>) returns (more: seq<Option<T>>)
    requires q.Valid()
    modifies q.Repr
    ensures q.Valid() && fresh(q.Repr - old(q.Repr))
    ensures (q.contents, more) == FifoStep(old(q.contents), op)
  {
    match op {
      case PushOp(x) =>
        q.Push(x);
        more := [];
      case PopOp =>
        var o := q.Pop();
        more := [o];
    }
  }

  /** Performs `ops` on a new queue; the results of the pops, in order, and the
      final count. The queue keeps its representation invariant after every call
      (the loop invariant), the pops agree with the reference FIFO behaviour,
      and the count is the number of pushes minus the number of pops that
      returned a value. */
  method Run<T>(ops: seq<Op<T>>) returns (outs: seq<Option<T>>, size: nat)
    ensures outs == FifoRun(ops).1
    ensures size == |FifoRun(ops).0|
    ensures size + |Delivered(outs)| == |Pushed(ops)|
  {
    var q := new Queue();
    outs := [];
    var i := 0;
    while i < |ops|
      invariant 0 <= i <= |ops|
      invariant q.Valid() && fresh(q.Repr)
      invariant (q.contents, outs) == FifoRun(ops[..i])
    {
      assert ops[..i + 1][..i] == ops[..i];
      var more := Apply(q, ops[i]);
      outs := outs + more;
      i := i + 1;
    }
    assert ops[..|ops|] == ops;
    size := q.Size();
  }

  /** FIFO: pushing `xs` onto a new queue and popping until the absent value
      returns `xs` in push order, after which the count is zero. */
  method PushAllThenDrain<T>(xs: seq<T>) returns (ys: seq<T>, last: Option<T>, sizeAtEnd: nat)
    ensures ys == xs
    ensures last == None
    ensures sizeAtEnd == 0
  {
    var q := new Queue();
    var i := 0;
    while i < |xs|
      invariant 0 <= i <= |xs|
      invariant q.Valid() && fresh(q.Repr)
      invariant q.contents == xs[..i]
    {
      q.Push(xs[i]);
      assert xs[..i + 1] == xs[..i] + [xs[i]];
      i := i + 1;
    }
    ys := [];
    while true
      invariant q.Valid() && fresh(q.Repr)
      invariant ys + q.contents == xs
      decreases |q.contents|
    {
      var x := q.Pop();
      if x.None? {
        break;
      }
      ys := ys + [x.value];
    }
    last := q.Pop();
    sizeAtEnd := q.Size();
  }

  /** The `push_pop` test: foo, bar, baz pushed give a count of 3 and come back
      as foo, bar, baz, then the absent value, leaving the count at zero. */
  method PushPopExample() returns (sizeAfterPushes: nat, popped: seq<Option<string>>, sizeAtEnd: nat)
    ensures sizeAfterPushes == 3
    ensures popped == [Some("foo"), Some("bar"), Some("baz"), None]
    ensures sizeAtEnd == 0
  {
    var q := new Queue();
    q.Push("foo");
    q.Push("bar");
    q.Push("baz");
    sizeAfterPushes := q.Size();
    var a := q.Pop();
    var b := q.Pop();
    var c := q.Pop();
    var d := q.Pop();
    popped := [a, b, c, d];
    sizeAtEnd := q.Size();
  }
}
