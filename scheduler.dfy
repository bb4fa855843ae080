/**
  Pure specification of the scheduling decisions of thread_pool: where submit
  puts a task, the order in which the steal scan probes the deques, and which
  single task run_pending_task takes. The state is the global queue's contents
  and the contents of every deque (front first), as values.
*/
module Scheduler {
  import opened Wrappers

  /** Everything the pool holds: the global FIFO and one deque per worker. */
  datatype Pools<T> = Pools(global: seq<T>, deques: seq<seq<T>>)

  /** One run_pending_task: the task taken (if any) and the queues afterwards. */
  datatype Step<T> = Step(task: Option<T>, after: Pools<T>)

  /** The thread-local identity of the caller: a worker owns deque `myIndex`.
      Any other thread has no deque, and its my_index is whatever its
      thread_local holds (initially 1), which the steal scan still uses. */
  predicate WorkerContext(myIndex: nat, hasLocal: bool, n: nat)
  {
    hasLocal ==> myIndex < n
  }

  /** The deque examined at step i of the steal scan. */
  function Probe(myIndex: nat, i: nat, n: nat): (k: nat)
    requires n > 0
    ensures k < n
  {
    (myIndex + i + 1) % n
  }

  /** With myIndex and i below n, the modulo wraps at most once. */
  lemma ProbeValue(myIndex: nat, i: nat, n: nat)
    requires myIndex < n && i < n
    ensures Probe(myIndex, i, n) == if myIndex + i + 1 < n then myIndex + i + 1 else myIndex + i + 1 - n
  {
    var x := myIndex + i + 1;
    if x < n {
      ModUnique(x, 0, x, n);
    } else {
      ModUnique(x, 1, x - n, n);
    }
  }

  lemma MulAtLeast(d: int, n: nat)
    requires d >= 1
    ensures d * n >= n
  {
    assert d * n == (d - 1) * n + n;
  }

  /** Euclidean division is unique: a remainder in 0 .. n-1 is the remainder. */
  lemma ModUnique(x: nat, q: int, r: int, n: nat)
    requires n > 0 && x == q * n + r && 0 <= r < n
    ensures x % n == r
  {
    var d := q - x / n;
    assert x == (x / n) * n + x % n;
    assert d * n == x % n - r;
    if d >= 1 {
      MulAtLeast(d, n);
    }
  }

  lemma AddModulus(y: nat, n: nat)
    requires n > 0
    ensures (y + n) % n == y % n
  {
    assert y == (y / n) * n + y % n;
    assert y + n == (y / n + 1) * n + y % n;
    ModUnique(y + n, y / n + 1, y % n, n);
  }

  lemma {:induction false} AddMultiple(x: nat, q: nat, n: nat)
    requires n > 0
    ensures (q * n + x) % n == x % n
  {
    if q > 0 {
      AddMultiple(x, q - 1, n);
      assert q * n + x == ((q - 1) * n + x) + n;
      AddModulus((q - 1) * n + x, n);
    }
  }

  /** Only my_index modulo n matters to the scan: a thread whose my_index is
      not a deque index probes as if it were my_index % n. */
  lemma ProbeReduces(myIndex: nat, i: nat, n: nat)
    requires n > 0
    ensures myIndex % n < n
    ensures Probe(myIndex, i, n) == Probe(myIndex % n, i, n)
  {
    var q, r := myIndex / n, myIndex % n;
    assert myIndex == q * n + r;
    assert myIndex + i + 1 == q * n + (r + i + 1);
    AddMultiple(r + i + 1, q, n);
  }

  /** The scan step at which deque k is probed. */
  function StepOf(myIndex: nat, k: nat, n: nat): (i: nat)
    requires myIndex < n && k < n
    ensures i < n
  {
    if myIndex < k then k - myIndex - 1 else k + n - myIndex - 1
  }

  /** The scan visits every deque exactly once and the caller's own deque last. */
  lemma ProbeVisitsEachOnce(myIndex: nat, n: nat)
    requires myIndex < n
    ensures forall i, j :: 0 <= i < n && 0 <= j < n && Probe(myIndex, i, n) == Probe(myIndex, j, n) ==> i == j
    ensures forall k :: 0 <= k < n ==> Probe(myIndex, StepOf(myIndex, k, n), n) == k
    ensures Probe(myIndex, n - 1, n) == myIndex
  {
    forall i, j | 0 <= i < n && 0 <= j < n && Probe(myIndex, i, n) == Probe(myIndex, j, n)
      ensures i == j
    {
      ProbeValue(myIndex, i, n);
      ProbeValue(myIndex, j, n);
    }
    forall k | 0 <= k < n
      ensures Probe(myIndex, StepOf(myIndex, k, n), n) == k
    {
      ProbeValue(myIndex, StepOf(myIndex, k, n), n);
    }
    ProbeValue(myIndex, n - 1, n);
  }

  /** The first scan step at or after i whose deque is non-empty. */
  function ScanFrom<T>(ds: seq<seq<T>>, myIndex: nat, i: nat): (r: Option<nat>)
    ensures r.Some? ==> i <= r.value < |ds| && ds[Probe(myIndex, r.value, |ds|)] != []
    ensures r.Some? ==> forall j :: i <= j < r.value ==> ds[Probe(myIndex, j, |ds|)] == []
    ensures r.None? ==> forall j :: i <= j < |ds| ==> ds[Probe(myIndex, j, |ds|)] == []
    decreases |ds| - i
  {
    if i >= |ds| then None
    else if ds[Probe(myIndex, i, |ds|)] != [] then Some(i)
    else ScanFrom(ds, myIndex, i + 1)
  }

  /** The deque the steal scan takes from, if any. */
  function StealVictim<T>(ds: seq<seq<T>>, myIndex: nat): (r: Option<nat>)
    ensures r.Some? ==> r.value < |ds| && ds[r.value] != []
  {
    match ScanFrom(ds, myIndex, 0)
    case Some(k) => Some(Probe(myIndex, k, |ds|))
    case None => None
  }

  /** The scan fails exactly when every deque is empty; otherwise its victim is
      a non-empty deque and every deque probed before it was empty. */
  lemma StealVictimSpec<T>(ds: seq<seq<T>>, myIndex: nat)
    ensures StealVictim(ds, myIndex).None? <==> forall v :: 0 <= v < |ds| ==> ds[v] == []
    ensures StealVictim(ds, myIndex).Some? ==>
              var v := StealVictim(ds, myIndex).value;
              v < |ds| && ds[v] != [] &&
              exists k :: 0 <= k < |ds| && v == Probe(myIndex, k, |ds|) &&
                forall j :: 0 <= j < k ==> ds[Probe(myIndex, j, |ds|)] == []
  {
    var n := |ds|;
    if n > 0 {
      var m := myIndex % n;
      ProbeReduces(myIndex, 0, n);
      ProbeVisitsEachOnce(m, n);
      if ScanFrom(ds, myIndex, 0).None? {
        forall v | 0 <= v < n
          ensures ds[v] == []
        {
          ProbeReduces(myIndex, StepOf(m, v, n), n);
          assert ds[Probe(myIndex, StepOf(m, v, n), n)] == [];
        }
      }
    }
  }

  /** A thread outside the pool keeps my_index at its initial 1, so with three
      deques its scan starts at deque 2. */
  lemma NonWorkerScanStartsAtTwo<T>(a: T, b: T)
    ensures StealVictim([[], [a], [b]], 1) == Some(2)
    ensures RunPending(Pools([], [[], [a], [b]]), 1, false).task == Some(b)
  {
    assert Probe(1, 0, 3) == 2;
  }

  /** Worker 0 submits a then b to its own deque in a pool of two. Worker 1
      steals a, worker 0 then pops b, and then nothing is left. */
  lemma OwnerPopsNewestThiefStealsOldest<T>(a: T, b: T)
    ensures var s := SubmitTo(SubmitTo(Pools([], [[], []]), a, 0, true), b, 0, true);
            var r1 := RunPending(s, 1, true);
            var r2 := RunPending(r1.after, 0, true);
            var r3 := RunPending(r2.after, 1, true);
            r1.task == Some(a) && r2.task == Some(b) && r3.task == None
  {
    var empty: seq<seq<T>> := [[], []];
    var s1 := SubmitTo(Pools([], empty), a, 0, true);
    assert [a] + empty[0] == [a];
    assert s1.deques == [[a], []];
    var s := SubmitTo(s1, b, 0, true);
    assert [b] + s1.deques[0] == [b, a];
    assert s.deques == [[b, a], []];
    assert Probe(1, 0, 2) == 0;
    assert StealVictim(s.deques, 1) == Some(0);
    var r1 := RunPending(s, 1, true);
    assert r1.after == Pools([], [[b], []]);
    var r2 := RunPending(r1.after, 0, true);
    assert r2.after == Pools([], [[], []]);
  }

  /** pop_task_from_local_queue: the front of the caller's own deque, if it has
      a non-empty one. */
  function PopLocal<T>(p: Pools<T>, myIndex: nat, hasLocal: bool): (r: Step<T>)
    requires hasLocal ==> myIndex < |p.deques|
    ensures r.task.None? <==> !hasLocal || p.deques[myIndex] == []
    ensures r.task.None? ==> r.after == p
  {
    if hasLocal && p.deques[myIndex] != [] then
      var local := p.deques[myIndex];
      Step(Some(local[0]), Pools(p.global, p.deques[myIndex := local[1..]]))
    else
      Step(None, p)
  }

  /** pop_task_from_pool_queue: the head of the global queue, if any. */
  function PopGlobal<T>(p: Pools<T>): (r: Step<T>)
    ensures r.task.None? <==> p.global == []
    ensures r.task.None? ==> r.after == p
  {
    if p.global != [] then Step(Some(p.global[0]), Pools(p.global[1..], p.deques))
    else Step(None, p)
  }

  /** pop_task_from_other_thread_queue: the back of the steal scan's victim. */
  function Steal<T>(p: Pools<T>, myIndex: nat): (r: Step<T>)
    ensures r.task.None? <==> StealVictim(p.deques, myIndex).None?
    ensures r.task.None? ==> r.after == p
  {
    match StealVictim(p.deques, myIndex)
    case Some(v) =>
      var d := p.deques[v];
      Step(Some(d[|d| - 1]), Pools(p.global, p.deques[v := d[..|d| - 1]]))
    case None => Step(None, p)
  }

  /** The scan reaching step i with deque Probe(i) non-empty steals there. */
  lemma StealAt<T>(p: Pools<T>, myIndex: nat, i: nat)
    requires i < |p.deques| && ScanFrom(p.deques, myIndex, i) == ScanFrom(p.deques, myIndex, 0)
    requires p.deques[Probe(myIndex, i, |p.deques|)] != []
    ensures var v := Probe(myIndex, i, |p.deques|);
            var d := p.deques[v];
            Steal(p, myIndex) == Step(Some(d[|d| - 1]), Pools(p.global, p.deques[v := d[..|d| - 1]]))
  {
    assert ScanFrom(p.deques, myIndex, i) == Some(i);
  }

  /** run_pending_task: the local deque's front, else the global queue's head,
      else the back of the first non-empty deque in scan order, else nothing. */
  function RunPending<T>(p: Pools<T>, myIndex: nat, hasLocal: bool): (r: Step<T>)
    requires hasLocal ==> myIndex < |p.deques|
    ensures |r.after.deques| == |p.deques|
    ensures r.task.None? ==> r.after == p
    ensures hasLocal && p.deques[myIndex] != [] ==> r.task == Some(p.deques[myIndex][0])
    ensures (!hasLocal || p.deques[myIndex] == []) && p.global != [] ==> r.task == Some(p.global[0])
  {
    var local := PopLocal(p, myIndex, hasLocal);
    if local.task.Some? then local
    else
      var global := PopGlobal(p);
      if global.task.Some? then global
      else Steal(p, myIndex)
  }

  /** submit: onto the caller's own deque (front) if it has one, else onto the
      global queue (back). */
  function SubmitTo<T>(p: Pools<T>, task: T, myIndex: nat, hasLocal: bool): (r: Pools<T>)
    requires hasLocal ==> myIndex < |p.deques|
    ensures |r.deques| == |p.deques|
    ensures hasLocal ==> r.global == p.global && r.deques[myIndex] != [] && r.deques[myIndex][0] == task
    ensures !hasLocal ==> r.deques == p.deques && r.global != [] && r.global[|r.global| - 1] == task
  {
    if hasLocal then Pools(p.global, p.deques[myIndex := [task] + p.deques[myIndex]])
    else Pools(p.global + [task], p.deques)
  }

  /** All tasks held by a list of deques. */
  function DequesBag<T>(ds: seq<seq<T>>): multiset<T>
  {
    if ds == [] then multiset{} else DequesBag(ds[..|ds| - 1]) + multiset(ds[|ds| - 1])
  }

  /** All tasks held by the pool. */
  function Bag<T>(p: Pools<T>): multiset<T>
  {
    multiset(p.global) + DequesBag(p.deques)
  }

  function Taken<T>(task: Option<T>): multiset<T>
  {
    if task.Some? then multiset{task.value} else multiset{}
  }

  /** The tasks of a list of deques are those of deque v plus those of the others. */
  lemma {:induction false} DequesBagSplit<T>(ds: seq<seq<T>>, v: nat)
    requires v < |ds|
    ensures DequesBag(ds) == DequesBag(ds[v := []]) + multiset(ds[v])
  {
    var n := |ds|;
    var ds' := ds[v := []];
    assert DequesBag(ds') == DequesBag(ds'[..n - 1]) + multiset(ds'[n - 1]);
    if v == n - 1 {
      assert ds'[..n - 1] == ds[..n - 1];
    } else {
      assert ds'[..n - 1] == ds[..n - 1][v := []];
      assert ds[..n - 1][v] == ds[v];
      DequesBagSplit(ds[..n - 1], v);
    }
  }

  /** Replacing deque v by s swaps its tasks for those of s. */
  lemma DequesBagUpdate<T>(ds: seq<seq<T>>, v: nat, s: seq<T>)
    requires v < |ds|
    ensures DequesBag(ds[v := s]) == DequesBag(ds[v := []]) + multiset(s)
  {
    DequesBagSplit(ds[v := s], v);
    assert ds[v := s][v := []] == ds[v := []];
  }

  lemma {:induction false} DequesBagEmpty<T>(ds: seq<seq<T>>)
    ensures DequesBag(ds) == multiset{} <==> forall v :: 0 <= v < |ds| ==> ds[v] == []
  {
    if ds != [] {
      DequesBagEmpty(ds[..|ds| - 1]);
      assert forall v :: 0 <= v < |ds| - 1 ==> ds[..|ds| - 1][v] == ds[v];
    }
  }

  /** run_pending_task removes at most one task, and it is one the pool held:
      what is left plus what was taken is what there was. No deque appears or
      disappears. */
  lemma RunPendingConserves<T>(p: Pools<T>, myIndex: nat, hasLocal: bool)
    requires hasLocal ==> myIndex < |p.deques|
    ensures |RunPending(p, myIndex, hasLocal).after.deques| == |p.deques|
    ensures Bag(RunPending(p, myIndex, hasLocal).after) + Taken(RunPending(p, myIndex, hasLocal).task) == Bag(p)
  {
    var r := RunPending(p, myIndex, hasLocal);
    if hasLocal && p.deques[myIndex] != [] {
      var local := p.deques[myIndex];
      assert r == Step(Some(local[0]), Pools(p.global, p.deques[myIndex := local[1..]]));
      PopFrontConserves(p.global, p.deques, myIndex);
    } else if p.global != [] {
      assert r == Step(Some(p.global[0]), Pools(p.global[1..], p.deques));
      assert p.global == [p.global[0]] + p.global[1..];
    } else {
      var victim := StealVictim(p.deques, myIndex);
      if victim.Some? {
        var d := p.deques[victim.value];
        assert r == Step(Some(d[|d| - 1]), Pools(p.global, p.deques[victim.value := d[..|d| - 1]]));
        StealConserves(p.global, p.deques, victim.value);
      } else {
        assert r == Step(None, p);
      }
    }
  }

  /** Popping the front of a non-empty deque v conserves the tasks. */
  lemma PopFrontConserves<T>(global: seq<T>, ds: seq<seq<T>>, v: nat)
    requires v < |ds| && ds[v] != []
    ensures var d := ds[v];
            Bag(Pools(global, ds[v := d[1..]])) + multiset{d[0]} == Bag(Pools(global, ds))
  {
    var d := ds[v];
    assert d == [d[0]] + d[1..];
    TakeOneConserves(global, ds, v, d[1..], d[0]);
  }

  /** Stealing the back of a non-empty deque v conserves the tasks. */
  lemma StealConserves<T>(global: seq<T>, ds: seq<seq<T>>, v: nat)
    requires v < |ds| && ds[v] != []
    ensures var d := ds[v];
            Bag(Pools(global, ds[v := d[..|d| - 1]])) + multiset{d[|d| - 1]} == Bag(Pools(global, ds))
  {
    var d := ds[v];
    assert d == d[..|d| - 1] + [d[|d| - 1]];
    TakeOneConserves(global, ds, v, d[..|d| - 1], d[|d| - 1]);
  }

  /** Taking task t out of deque v, leaving `rest`, conserves the tasks. */
  lemma TakeOneConserves<T>(global: seq<T>, ds: seq<seq<T>>, v: nat, rest: seq<T>, t: T)
    requires v < |ds| && multiset(ds[v]) == multiset(rest) + multiset{t}
    ensures Bag(Pools(global, ds[v := rest])) + multiset{t} == Bag(Pools(global, ds))
  {
    DequesBagSplit(ds, v);
    DequesBagUpdate(ds, v, rest);
  }

  /** run_pending_task comes back empty-handed exactly when the global queue
      and every deque are empty, and then it changes nothing. */
  lemma RunPendingIdleIffAllEmpty<T>(p: Pools<T>, myIndex: nat, hasLocal: bool)
    requires WorkerContext(myIndex, hasLocal, |p.deques|)
    ensures RunPending(p, myIndex, hasLocal).task.None? <==> Bag(p) == multiset{}
    ensures RunPending(p, myIndex, hasLocal).task.None? ==> RunPending(p, myIndex, hasLocal).after == p
  {
    StealVictimSpec(p.deques, myIndex);
    DequesBagEmpty(p.deques);
  }

  /** submit adds exactly the one task and keeps the number of deques. */
  lemma SubmitAddsOne<T>(p: Pools<T>, task: T, myIndex: nat, hasLocal: bool)
    requires hasLocal ==> myIndex < |p.deques|
    ensures |SubmitTo(p, task, myIndex, hasLocal).deques| == |p.deques|
    ensures Bag(SubmitTo(p, task, myIndex, hasLocal)) == Bag(p) + multiset{task}
  {
    if hasLocal {
      var d := p.deques[myIndex];
      assert multiset([task] + d) == multiset(d) + multiset{task};
      TakeOneConserves(p.global, SubmitTo(p, task, myIndex, hasLocal).deques, myIndex, d, task);
      assert SubmitTo(p, task, myIndex, hasLocal).deques[myIndex := d] == p.deques;
    }
  }
}
