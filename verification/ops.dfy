/** Sequences of container operations, used to state what a whole run of
    `push` and `pop` calls does to a container. */
module Ops {
  import opened Wrappers

  /** One call on a container: `push(data)` or `pop()`. */
  datatype Op<T> = PushOp(data: T) | PopOp

  /** The values pushed by `ops`, in call order. */
  function Pushed<T>(ops: seq<Op<T>>): (xs: seq<T>)
    ensures |xs| <= |ops|
  {
    if ops == [] then []
    else
      var init := Pushed(ops[..|ops| - 1]);
      match ops[|ops| - 1]
      case PushOp(x) => init + [x]
      case PopOp => init
  }

  /** The values handed out by the successful (non-absent) pops among `outs`, in order. */
  function Delivered<T>(outs: seq<Option<T>>): (xs: seq<T>)
    ensures |xs| <= |outs|
  {
    if outs == [] then []
    else
      var init := Delivered(outs[..|outs| - 1]);
      match outs[|outs| - 1]
      case Some(x) => init + [x]
      case None => init
  }

  /** The values pushed by two runs back to back are those of the first, then the second. */
  lemma {:induction false} PushedAppend<T>(a: seq<Op<T>>, b: seq<Op<T>>)
    ensures Pushed(a + b) == Pushed(a) + Pushed(b)
    decreases |b|
  {
    if b != [] {
      var b' := b[..|b| - 1];
      assert (a + b)[..|a + b| - 1] == a + b';
      assert (a + b)[|a + b| - 1] == b[|b| - 1];
      PushedAppend(a, b');
    } else {
      assert a + b == a;
    }
  }

  /** The values delivered by two runs back to back are those of the first, then the second. */
  lemma {:induction false} DeliveredAppend<T>(a: seq<Option<T>>, b: seq<Option<T>>)
    ensures Delivered(a + b) == Delivered(a) + Delivered(b)
    decreases |b|
  {
    if b != [] {
      var b' := b[..|b| - 1];
      assert (a + b)[..|a + b| - 1] == a + b';
      assert (a + b)[|a + b| - 1] == b[|b| - 1];
      DeliveredAppend(a, b');
    } else {
      assert a + b == a;
    }
  }
}
