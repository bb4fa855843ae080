/**
  The pool-wide FIFO queue (threadsafe_queue<T>): a singly linked list of nodes
  that always ends in a dummy tail node carrying no data. `push` writes the new
  value into the current dummy and appends a fresh dummy; popping detaches the
  head node unless it is the dummy. The head and tail mutexes and the condition
  variable are not modelled: every operation runs atomically.
*/
module ThreadsafeQueues {
  import opened Wrappers

  /** One link of the chain: `data` is null (None) only in the dummy tail. */
  class Node<T> {
    var data: Option<T>
    var next: Node?<T>

    constructor ()
      ensures data == None && next == null
    {
      data := None;
      next := null;
    }
  }

  class ThreadsafeQueue<T> {
    var head: Node<T>
    var tail: Node<T>

    // public view
    ghost var Contents: seq<T>
    // the chain from head to tail, and the objects it is made of
    ghost var Nodes: seq<Node<T>>
    ghost var Repr: set<object>

    /** The sentinel invariant: the chain is Contents followed by one dummy. */
    ghost predicate Valid()
      reads this, Repr
    {
      && this in Repr
      && |Nodes| == |Contents| + 1
      && (forall i :: 0 <= i < |Nodes| ==> Nodes[i] in Repr)
      && (forall i, j :: 0 <= i < j < |Nodes| ==> Nodes[i] != Nodes[j])
      && Nodes[0] == head
      && Nodes[|Nodes| - 1] == tail
      && (forall i :: 0 <= i < |Contents| ==>
            Nodes[i].next == Nodes[i + 1] && Nodes[i].data == Some(Contents[i]))
      && tail.data == None
      && tail.next == null
    }

    /** A new queue is a single dummy node that is both head and tail. */
    constructor ()
      ensures Valid() && fresh(Repr)
      ensures Contents == [] && head == tail && |Nodes| == 1
    {
      var dummy := new Node<T>();
      head := dummy;
      tail := dummy;
      Contents := [];
      Nodes := [dummy];
      Repr := {this, dummy};
    }

    /** Reads the tail pointer (under the tail lock in the source). */
    method GetTail() returns (t: Node<T>)
      requires Valid()
      ensures t.data == None && t.next == null
      ensures t == Nodes[|Nodes| - 1]
      ensures (t == head) <==> Contents == []
    {
      t := tail;
    }

    /** Detaches the head node; only called once the queue is known non-empty. */
    method PopHead() returns (oldHead: Node<T>)
      requires Valid() && Contents != []
      modifies this
      ensures Valid() && Repr <= old(Repr)
      ensures oldHead.data == Some(old(Contents)[0])
      ensures Contents == old(Contents)[1..]
    {
      oldHead := head;
      assert oldHead.next == Nodes[1];
      head := oldHead.next;
      Contents := Contents[1..];
      Nodes := Nodes[1..];
      Repr := Repr - {oldHead};
    }

    /** Detaches the head node, or returns null when head == tail. */
    method TryPopHead() returns (oldHead: Node?<T>)
      requires Valid()
      modifies this
      ensures Valid() && Repr <= old(Repr)
      ensures (oldHead == null) <==> old(Contents) == []
      ensures oldHead == null ==> unchanged(this)
      ensures oldHead != null ==>
                oldHead.data == Some(old(Contents)[0]) && Contents == old(Contents)[1..]
    {
      var t := GetTail();
      if head == t {
        return null;
      }
      oldHead := PopHead();
    }

    /** As TryPopHead, but first moves the head's value into `value`. */
    method TryPopHeadInto(value: T) returns (oldHead: Node?<T>, value': T)
      requires Valid()
      modifies this
      ensures Valid() && Repr <= old(Repr)
      ensures (oldHead == null) <==> old(Contents) == []
      ensures oldHead == null ==> unchanged(this) && value' == value
      ensures oldHead != null ==>
                value' == old(Contents)[0] && Contents == old(Contents)[1..]
    {
      var t := GetTail();
      if head == t {
        return null, value;
      }
      value' := head.data.value;
      oldHead := PopHead();
    }

    /** try_pop returning a shared pointer: null (None) on an empty queue. */
    method TryPop() returns (r: Option<T>)
      requires Valid()
      modifies this
      ensures Valid() && Repr <= old(Repr)
      ensures old(Contents) == [] ==> r == None && unchanged(this)
      ensures old(Contents) != [] ==>
                r == Some(old(Contents)[0]) && Contents == old(Contents)[1..]
    {
      var oldHead := TryPopHead();
      r := if oldHead != null then oldHead.data else None;
    }

    /** try_pop through an out-parameter: false and `value` untouched on an empty queue. */
    method TryPopInto(value: T) returns (ok: bool, value': T)
      requires Valid()
      modifies this
      ensures Valid() && Repr <= old(Repr)
      ensures ok <==> old(Contents) != []
      ensures !ok ==> value' == value && unchanged(this)
      ensures ok ==> value' == old(Contents)[0] && Contents == old(Contents)[1..]
    {
      var oldHead;
      oldHead, value' := TryPopHeadInto(value);
      ok := oldHead != null;
    }

    /** wait_and_pop returning a shared pointer. The wait on the condition
        variable is modelled by the precondition that the queue is non-empty. */
    method WaitAndPop() returns (r: T)
      requires Valid() && Contents != []
      modifies this
      ensures Valid() && Repr <= old(Repr)
      ensures r == old(Contents)[0] && Contents == old(Contents)[1..]
    {
      var oldHead := PopHead();
      r := oldHead.data.value;
    }

    /** wait_and_pop through an out-parameter: the value is moved out of the
        head before the node is detached. */
    method WaitAndPopInto(value: T) returns (value': T)
      requires Valid() && Contents != []
      modifies this
      ensures Valid() && Repr <= old(Repr)
      ensures value' == old(Contents)[0] && Contents == old(Contents)[1..]
    {
      value' := head.data.value;
      var _ := PopHead();
    }

    /** push: the old dummy receives the value and a fresh dummy becomes tail. */
    method Push(newValue: T)
      requires Valid()
      modifies this, tail
      ensures Valid() && fresh(Repr - old(Repr))
      ensures Contents == old(Contents) + [newValue]
      ensures head == old(head)
    {
      var p := new Node<T>();
      tail.data := Some(newValue);
      tail.next := p;
      tail := p;
      Contents := Contents + [newValue];
      Nodes := Nodes + [p];
      Repr := Repr + {p};
    }

    /** empty(): head == tail, which happens exactly when nothing is queued. */
    method Empty() returns (r: bool)
      requires Valid()
      ensures r <==> Contents == []
    {
      var t := GetTail();
      r := head == t;
    }
  }

  /** Two values pushed with no pop in between come out in the order pushed. */
  method FifoOrder<T>(a: T, b: T) returns (first: Option<T>, second: Option<T>, third: Option<T>)
    ensures first == Some(a) && second == Some(b) && third == None
  {
    var q := new ThreadsafeQueue<T>();
    q.Push(a);
    q.Push(b);
    first := q.TryPop();
    second := q.TryPop();
    third := q.TryPop();
  }
}
