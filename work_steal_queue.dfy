/**
  The task wrapper (function_wrapper) and the per-worker stealing deque
  (work_stealing_queue). The deque's mutex is not modelled: every operation
  runs atomically.
*/
module WorkStealing {
  import opened Wrappers

  /**
    A move-only box around one callable of type F. Its only state is `impl`,
    the owning pointer to the type-erased callable: None when the wrapper is
    empty. There is no copy constructor or copy assignment, as in the source.
  */
  class FunctionWrapper<F> {
    var impl: Option<F>

    /** The default constructor holds no callable. */
    constructor ()
      ensures impl == None
    {
      impl := None;
    }

    /** Wrapping a callable gives a non-empty wrapper holding exactly it. */
    constructor FromCallable(f: F)
      ensures impl == Some(f)
    {
      impl := Some(f);
    }

    /** Move construction takes over the callable and leaves `other` empty. */
    constructor MoveFrom(other: FunctionWrapper<F>)
      modifies other
      ensures impl == old(other.impl)
      ensures other.impl == None
    {
      impl := other.impl;
      new;
      other.impl := None;
    }

    /** Move assignment: the previous callable is discarded, `other`'s is taken
        over and `other` is left empty. A self-move keeps the callable, as the
        unique_ptr move assignment does. */
    method MoveAssign(other: FunctionWrapper<F>)
      modifies this, other
      ensures impl == old(other.impl)
      ensures other != this ==> other.impl == None
    {
      var taken := other.impl;
      other.impl := None;
      impl := taken;
    }

    /** operator(): calls the wrapped callable, which must be present; the
        model returns the callable that was invoked. */
    method Call() returns (invoked: F)
      requires impl.Some?
      ensures impl == Some(invoked)
    {
      invoked := impl.value;
    }
  }

  /**
    A deque of wrapped tasks. Each queued function_wrapper is represented by its
    `impl`. The owner pushes and pops at the front; thieves take from the back.
  */
  class WorkStealingQueue<F> {
    var items: seq<Option<F>>

    constructor ()
      ensures items == []
    {
      items := [];
    }

    /** push_front. */
    method Push(data: Option<F>)
      modifies this
      ensures items == [data] + old(items)
    {
      items := [data] + items;
    }

    method Empty() returns (r: bool)
      ensures r <==> |items| == 0
    {
      r := items == [];
    }

    /** The owner's pop: moves the front task into `res`. */
    method TryPop(res: FunctionWrapper<F>) returns (ok: bool)
      modifies this, res
      ensures ok <==> old(items) != []
      ensures !ok ==> items == old(items) && res.impl == old(res.impl)
      ensures ok ==> res.impl == old(items)[0] && items == old(items)[1..]
    {
      if items == [] {
        return false;
      }
      res.impl := items[0];
      items := items[1..];
      ok := true;
    }

    /** A thief's pop: moves the back task into `res`. */
    method TrySteal(res: FunctionWrapper<F>) returns (ok: bool)
      modifies this, res
      ensures ok <==> old(items) != []
      ensures !ok ==> items == old(items) && res.impl == old(res.impl)
      ensures ok ==> res.impl == old(items)[|old(items)| - 1]
      ensures ok ==> items == old(items)[..|old(items)| - 1]
    {
      if items == [] {
        return false;
      }
      res.impl := items[|items| - 1];
      items := items[..|items| - 1];
      ok := true;
    }
  }

  /** Move construction then invocation runs the callable the source held. */
  method MoveThenCall<F>(f: F) returns (source: Option<F>, invoked: F)
    ensures source == None && invoked == f
  {
    var w := new FunctionWrapper<F>.FromCallable(f);
    var moved := new FunctionWrapper<F>.MoveFrom(w);
    source := w.impl;
    invoked := moved.Call();
  }

  /** Move assignment discards the target's callable for the source's. */
  method AssignThenCall<F>(f: F, g: F) returns (source: Option<F>, invoked: F)
    ensures source == None && invoked == g
  {
    var target := new FunctionWrapper<F>.FromCallable(f);
    var w := new FunctionWrapper<F>.FromCallable(g);
    target.MoveAssign(w);
    source := w.impl;
    invoked := target.Call();
  }

  /** The owner sees its own pushes in LIFO order. */
  method OwnerIsLifo<F>(a: F, b: F) returns (first: Option<F>, second: Option<F>)
    ensures first == Some(b) && second == Some(a)
  {
    var q := new WorkStealingQueue<F>();
    q.Push(Some(a));
    q.Push(Some(b));
    var res := new FunctionWrapper<F>();
    var ok := q.TryPop(res);
    first := res.impl;
    ok := q.TryPop(res);
    second := res.impl;
  }

  /** A thief sees the owner's pushes in insertion order. */
  method ThiefIsFifo<F>(a: F, b: F) returns (first: Option<F>, second: Option<F>)
    ensures first == Some(a) && second == Some(b)
  {
    var q := new WorkStealingQueue<F>();
    q.Push(Some(a));
    q.Push(Some(b));
    var res := new FunctionWrapper<F>();
    var ok := q.TrySteal(res);
    first := res.impl;
    ok := q.TrySteal(res);
    second := res.impl;
  }
}
