/**
  The thread pool: one global FIFO queue, one stealing deque per worker, the
  worker threads and the `done` flag. Threads are modelled only by whether
  they are still joinable; a worker's thread-local identity (my_index and its
  local_work_queue pointer) is passed explicitly as `myIndex` and `hasLocal`.
  Every operation runs atomically.
*/
module ThreadPools {
  import opened Wrappers
  import opened ThreadsafeQueues
  import opened WorkStealing
  import opened Scheduler

  /** A started std::thread: `index` is the slot it was started for. */
  class Thread {
    var joinable: bool
    const index: nat

    constructor Start(i: nat)
      ensures joinable && index == i
    {
      joinable := true;
      index := i;
    }
  }

  /** The destructor of join_threads: joins every thread that is still
      joinable, in vector order, each exactly once. */
  method JoinAll(threads: seq<Thread>) returns (joined: seq<nat>)
    requires forall i, j :: 0 <= i < j < |threads| ==> threads[i] != threads[j]
    modifies set t | t in threads
    ensures forall i :: 0 <= i < |threads| ==> !threads[i].joinable
    ensures forall i :: 0 <= i < |threads| ==> (i in joined <==> old(threads[i].joinable))
    ensures forall a, b :: 0 <= a < b < |joined| ==> joined[a] < joined[b]
  {
    joined := [];
    var i := 0;
    while i < |threads|
      invariant 0 <= i <= |threads|
      invariant forall k :: 0 <= k < i ==> !threads[k].joinable
      invariant forall k :: i <= k < |threads| ==> threads[k].joinable == old(threads[k].joinable)
      invariant forall a :: 0 <= a < |joined| ==> joined[a] < i
      invariant forall k :: 0 <= k < i ==> (k in joined <==> old(threads[k].joinable))
      invariant forall a, b :: 0 <= a < b < |joined| ==> joined[a] < joined[b]
    {
      if threads[i].joinable {
        threads[i].joinable := false;
        joined := joined + [i];
      }
      i := i + 1;
    }
  }

  class ThreadPool<F> {
    var done: bool
    var poolWorkQueue: ThreadsafeQueue<Option<F>>
    var queues: seq<WorkStealingQueue<F>>
    var threads: seq<Thread>
    ghost var Repr: set<object>

    /** The queues are distinct objects owned by the pool, the threads lie
        outside what the queue operations touch, and every queued task holds a
        callable (submit only ever queues non-empty wrappers). */
    ghost predicate Valid()
      reads this, Repr
    {
      && this in Repr
      && poolWorkQueue in Repr
      && poolWorkQueue.Repr <= Repr
      && this !in poolWorkQueue.Repr
      && poolWorkQueue.Valid()
      && (forall i :: 0 <= i < |queues| ==> queues[i] in Repr && queues[i] !in poolWorkQueue.Repr)
      && (forall i, j :: 0 <= i < j < |queues| ==> queues[i] != queues[j])
      && (forall i, j :: 0 <= i < j < |threads| ==> threads[i] != threads[j])
      && (forall i :: 0 <= i < |threads| ==> threads[i] !in Repr)
      && (forall k :: 0 <= k < |poolWorkQueue.Contents| ==> poolWorkQueue.Contents[k].Some?)
      && (forall i, k :: 0 <= i < |queues| && 0 <= k < |queues[i].items| ==> queues[i].items[k].Some?)
    }

    /** The contents of the global queue and of every deque. */
    ghost function State(): Pools<Option<F>>
      reads this, Repr
      requires Valid()
    {
      Pools(poolWorkQueue.Contents, seq(|queues|, i requires 0 <= i < |queues| reads this, queues => queues[i].items))
    }

    /** The constructor: thread_count deques, then thread_count threads, the
        i-th thread started for slot i. `failAt` names the allocation (deques
        first, then threads) that throws, if any; the catch block then sets
        `done` before rethrowing, and the joiner joins the threads already
        started. */
    constructor (threadCount: nat, failAt: Option<nat>)
      ensures failAt.None? || failAt.value >= 2 * threadCount ==>
                && Valid() && fresh(Repr) && !done
                && |queues| == threadCount
                && State() == Pools([], seq(threadCount, _ => []))
                && |threads| == threadCount
                && forall i :: 0 <= i < threadCount ==> fresh(threads[i]) && threads[i].joinable && threads[i].index == i
      ensures failAt.Some? && failAt.value < 2 * threadCount ==>
                && done
                && |queues| == (if failAt.value < threadCount then failAt.value else threadCount)
                && |threads| == (if failAt.value < threadCount then 0 else failAt.value - threadCount)
                && forall i :: 0 <= i < |threads| ==> !threads[i].joinable
    {
      done := false;
      var global := new ThreadsafeQueue<Option<F>>();
      poolWorkQueue := global;
      queues := [];
      threads := [];
      Repr := {this} + global.Repr;
      new;
      var threw := AddQueues(threadCount, failAt);
      if !threw {
        threw := StartThreads(threadCount, failAt);
      }
      if threw {
        done := true;
        var _ := JoinAll(threads);
      }
    }

    /** The constructor's first loop: pushes one empty deque per slot, unless
        allocation number `failAt` throws. */
    method AddQueues(threadCount: nat, failAt: Option<nat>) returns (threw: bool)
      requires Valid() && queues == [] && threads == [] && poolWorkQueue.Contents == []
      modifies this
      ensures Valid() && fresh(Repr - old(Repr))
      ensures done == old(done) && poolWorkQueue == old(poolWorkQueue) && threads == []
      ensures threw <==> failAt.Some? && failAt.value < threadCount
      ensures |queues| == if threw then failAt.value else threadCount
      ensures State() == Pools([], seq(|queues|, _ => []))
    {
      threw := false;
      var i := 0;
      while i < threadCount && !threw
        invariant 0 <= i <= threadCount
        invariant threw ==> failAt == Some(i) && i < threadCount
        invariant !threw ==> failAt.None? || failAt.value >= i
        invariant |queues| == i && threads == []
        invariant done == old(done) && poolWorkQueue == old(poolWorkQueue)
        invariant Valid() && fresh(Repr - old(Repr)) && poolWorkQueue.Contents == []
        invariant forall k :: 0 <= k < i ==> queues[k].items == []
        decreases threadCount - i, if threw then 0 else 1
      {
        if failAt == Some(i) {
          threw := true;
        } else {
          var q := new WorkStealingQueue<F>();
          queues := queues + [q];
          Repr := Repr + {q};
          i := i + 1;
        }
      }
      assert State().deques == seq(|queues|, _ => []);
    }

    /** The constructor's second loop: starts the thread for each slot i, unless
        allocation number `failAt` (counted after the deques) throws. */
    method StartThreads(threadCount: nat, failAt: Option<nat>) returns (threw: bool)
      requires Valid() && threads == []
      requires failAt.None? || failAt.value >= threadCount
      modifies this
      ensures Valid() && Repr == old(Repr) && State() == old(State())
      ensures done == old(done) && poolWorkQueue == old(poolWorkQueue) && queues == old(queues)
      ensures threw <==> failAt.Some? && failAt.value < 2 * threadCount
      ensures |threads| == if threw then failAt.value - threadCount else threadCount
      ensures forall k :: 0 <= k < |threads| ==> fresh(threads[k]) && threads[k].joinable && threads[k].index == k
    {
      threw := false;
      var i := 0;
      while i < threadCount && !threw
        invariant 0 <= i <= threadCount
        invariant threw ==> failAt == Some(threadCount + i) && i < threadCount
        invariant !threw ==> failAt.None? || failAt.value >= threadCount + i
        invariant |threads| == i
        invariant done == old(done) && poolWorkQueue == old(poolWorkQueue) && queues == old(queues)
        invariant Valid() && Repr == old(Repr) && State() == old(State())
        invariant forall k :: 0 <= k < i ==> fresh(threads[k]) && threads[k].joinable && threads[k].index == k
        decreases threadCount - i, if threw then 0 else 1
      {
        if failAt == Some(threadCount + i) {
          threw := true;
        } else {
          var t := new Thread.Start(i);
          threads := threads + [t];
          i := i + 1;
        }
      }
    }

    /** The destructor: set `done`, then the joiner joins every worker. */
    method Destroy()
      requires Valid()
      modifies this, set t | t in threads
      ensures done && threads == old(threads)
      ensures queues == old(queues) && poolWorkQueue == old(poolWorkQueue)
      ensures Valid() && State() == old(State())
      ensures forall i :: 0 <= i < |threads| ==> !threads[i].joinable
    {
      done := true;
      var _ := JoinAll(threads);
    }

    /** submit: wraps `f` and queues it on the caller's own deque if it has one,
        otherwise on the global queue. */
    method Submit(f: F, myIndex: nat, hasLocal: bool)
      requires Valid() && (hasLocal ==> myIndex < |queues|)
      modifies Repr
      ensures Valid() && fresh(Repr - old(Repr))
      ensures done == old(done) && queues == old(queues) && threads == old(threads)
      ensures poolWorkQueue == old(poolWorkQueue)
      ensures State() == SubmitTo(old(State()), Some(f), myIndex, hasLocal)
    {
      if hasLocal {
        queues[myIndex].Push(Some(f));
      } else {
        poolWorkQueue.Push(Some(f));
        Repr := Repr + poolWorkQueue.Repr;
      }
    }

    /** Pops the front of the caller's own deque; a thread without one gets
        false and nothing is touched. */
    method PopTaskFromLocalQueue(task: FunctionWrapper<F>, myIndex: nat, hasLocal: bool) returns (ok: bool)
      requires Valid() && (hasLocal ==> myIndex < |queues|) && task !in Repr
      modifies Repr, task
      ensures Valid() && unchanged(this)
      ensures State() == PopLocal(old(State()), myIndex, hasLocal).after
      ensures PopLocal(old(State()), myIndex, hasLocal).task == if ok then Some(task.impl) else None
      ensures !ok ==> task.impl == old(task.impl)
      ensures ok ==> task.impl.Some?
    {
      if !hasLocal {
        return false;
      }
      ok := queues[myIndex].TryPop(task);
    }

    /** Pops the head of the global queue. */
    method PopTaskFromPoolQueue(task: FunctionWrapper<F>) returns (ok: bool)
      requires Valid() && task !in Repr
      modifies Repr, task
      ensures Valid() && unchanged(this)
      ensures State() == PopGlobal(old(State())).after
      ensures PopGlobal(old(State())).task == if ok then Some(task.impl) else None
      ensures !ok ==> task.impl == old(task.impl)
      ensures ok ==> task.impl.Some?
    {
      var value;
      ok, value := poolWorkQueue.TryPopInto(task.impl);
      if ok {
        task.impl := value;
      }
    }

    /** The steal scan: probes deque (myIndex + i + 1) % n for i = 0 .. n-1 and
        stops at the first successful steal from the back. */
    method PopTaskFromOtherThreadQueue(task: FunctionWrapper<F>, myIndex: nat) returns (ok: bool)
      requires Valid() && task !in Repr
      modifies Repr, task
      ensures Valid() && unchanged(this)
      ensures State() == Steal(old(State()), myIndex).after
      ensures Steal(old(State()), myIndex).task == if ok then Some(task.impl) else None
      ensures !ok ==> task.impl == old(task.impl)
      ensures ok ==> task.impl.Some?
    {
      ghost var p := State();
      var n := |queues|;
      var i := 0;
      while i < n
        invariant 0 <= i <= n
        invariant Valid() && unchanged(this)
        invariant State() == p && task.impl == old(task.impl)
        invariant ScanFrom(p.deques, myIndex, i) == ScanFrom(p.deques, myIndex, 0)
      {
        var index := (myIndex + i + 1) % n;
        assert index == Probe(myIndex, i, n);
        ok := TryStealFrom(index, task);
        if ok {
          StealAt(p, myIndex, i);
          return;
        }
        i := i + 1;
      }
      ok := false;
    }

    /** queues[index]->try_steal(task), seen as a change of the pool's state. */
    method TryStealFrom(index: nat, task: FunctionWrapper<F>) returns (ok: bool)
      requires Valid() && index < |queues| && task !in Repr
      modifies Repr, task
      ensures Valid() && unchanged(this)
      ensures ok <==> old(State()).deques[index] != []
      ensures !ok ==> State() == old(State()) && task.impl == old(task.impl)
      ensures ok ==> var d := old(State()).deques[index];
                     task.impl == d[|d| - 1] && State() == Pools(old(State()).global, old(State()).deques[index := d[..|d| - 1]])
    {
      ok := queues[index].TrySteal(task);
    }

    /** run_pending_task: local deque, then global queue, then the steal scan,
        stopping at the first source that yields a task, which is then invoked. */
    method RunPendingTask(myIndex: nat, hasLocal: bool) returns (ran: Option<F>)
      requires Valid() && WorkerContext(myIndex, hasLocal, |queues|)
      modifies Repr
      ensures Valid() && unchanged(this)
      ensures State() == RunPending(old(State()), myIndex, hasLocal).after
      ensures RunPending(old(State()), myIndex, hasLocal).task == if ran.Some? then Some(ran) else None
    {
      var task := new FunctionWrapper<F>();
      var ok := PopTaskFromLocalQueue(task, myIndex, hasLocal);
      if !ok {
        ok := PopTaskFromPoolQueue(task);
        if !ok {
          ok := PopTaskFromOtherThreadQueue(task, myIndex);
        }
      }
      if ok {
        var f := task.Call();
        ran := Some(f);
      } else {
        ran := None;
      }
    }

    /** The worker loop for slot myIndex, cut off after `rounds` iterations:
        while `done` is false it keeps running pending tasks. It returns the
        tasks it invoked, in order: each was taken out of the pool, and every
        round takes one as long as any is queued. */
    method WorkerThread(myIndex: nat, rounds: nat) returns (ran: seq<F>)
      requires Valid() && myIndex < |queues|
      modifies Repr
      ensures Valid() && unchanged(this)
      ensures old(done) ==> ran == [] && State() == old(State())
      ensures Bag(State()) + Invoked(ran) == Bag(old(State()))
      ensures !old(done) ==> |ran| == if rounds < |Bag(old(State()))| then rounds else |Bag(old(State()))|
    {
      ran := [];
      var k := 0;
      while !done && k < rounds
        invariant 0 <= k <= rounds
        invariant Valid() && unchanged(this)
        invariant old(done) ==> ran == [] && State() == old(State())
        invariant Bag(State()) + Invoked(ran) == Bag(old(State()))
        invariant !done ==> |ran| == if k < |Bag(old(State()))| then k else |Bag(old(State()))|
      {
        ghost var before := State();
        var t := RunPendingTask(myIndex, true);
        WorkerRound(before, myIndex, ran, t, Bag(old(State())), k);
        if t.Some? {
          ran := ran + [t.value];
        }
        k := k + 1;
      }
    }
  }

  /** The queued tasks a worker invoked, as they were held in the pool. */
  ghost function Invoked<F>(ran: seq<F>): (r: multiset<Option<F>>)
    ensures |r| == |ran|
  {
    if ran == [] then multiset{} else Invoked(ran[..|ran| - 1]) + multiset{Some(ran[|ran| - 1])}
  }

  lemma InvokedSnoc<F>(ran: seq<F>, f: F)
    ensures Invoked(ran + [f]) == Invoked(ran) + multiset{Some(f)}
  {
    assert (ran + [f])[..|ran|] == ran;
  }

  /** One round of the worker loop: the task run_pending_task takes (if any)
      joins those already invoked, and it takes one while any is queued. */
  lemma WorkerRound<F>(before: Pools<Option<F>>, myIndex: nat, ran: seq<F>, t: Option<F>, total: multiset<Option<F>>, k: nat)
    requires myIndex < |before.deques|
    requires Bag(before) + Invoked(ran) == total
    requires |ran| == if k < |total| then k else |total|
    requires RunPending(before, myIndex, true).task == if t.Some? then Some(t) else None
    ensures var ran' := if t.Some? then ran + [t.value] else ran;
            && Bag(RunPending(before, myIndex, true).after) + Invoked(ran') == total
            && |ran'| == if k + 1 < |total| then k + 1 else |total|
  {
    RunPendingConserves(before, myIndex, true);
    RunPendingIdleIffAllEmpty(before, myIndex, true);
    if t.Some? {
      InvokedSnoc(ran, t.value);
    }
  }

  /** A task submitted from outside the pool (my_index still 1, no local
      deque) lands on the global queue, and a worker whose own deque is empty
      runs it. */
  method SubmitFromOutsideThenRun<F>(f: F) returns (ran: Option<F>)
    ensures ran == Some(f)
  {
    var pool := new ThreadPool<F>(2, None);
    pool.Submit(f, 1, false);
    ran := pool.RunPendingTask(1, true);
  }

  /** Worker 0 queues a then b on its own deque: worker 1, finding nothing
      else, steals a from the back, and worker 0 then pops b from the front. */
  method StealTakesOldest<F>(a: F, b: F) returns (stolen: Option<F>, own: Option<F>, idle: Option<F>)
    ensures stolen == Some(a) && own == Some(b) && idle == None
  {
    var pool := new ThreadPool<F>(2, None);
    assert pool.State() == Pools([], [[], []]);
    pool.Submit(a, 0, true);
    pool.Submit(b, 0, true);
    OwnerPopsNewestThiefStealsOldest(Some(a), Some(b));
    stolen := pool.RunPendingTask(1, true);
    own := pool.RunPendingTask(0, true);
    idle := pool.RunPendingTask(1, true);
  }

  /** Constructing a pool and destroying it at once leaves no thread joinable. */
  method ShutdownJoinsEveryThread(threadCount: nat) returns (threads: seq<Thread>)
    ensures |threads| == threadCount
    ensures forall i :: 0 <= i < |threads| ==> !threads[i].joinable
  {
    var pool := new ThreadPool<int>(threadCount, None);
    pool.Destroy();
    threads := pool.threads;
  }

  /** Submitting and running tasks touches only the queues: every worker
      thread is still running afterwards. */
  method WorkLeavesThreadsRunning<F>(f: F, threadCount: nat) returns (threads: seq<Thread>, ran: Option<F>)
    requires threadCount > 0
    ensures |threads| == threadCount
    ensures forall i :: 0 <= i < |threads| ==> threads[i].joinable
    ensures ran == Some(f)
  {
    var pool := new ThreadPool<F>(threadCount, None);
    pool.Submit(f, 1, false);
    ran := pool.RunPendingTask(0, true);
    threads := pool.threads;
  }
}
