# Work-stealing thread pool, modelled in Dafny

This project models the sequential core of a C++11 work-stealing thread pool.
Every operation runs atomically here: the locks, condition variables and atomics
of the original are left out, and what remains is stated exactly.

- **Global queue** (`threadsafe_queue<T>`, module `ThreadsafeQueues`). A class over
  a chain of `Node` objects that always ends in a dummy tail. `Valid()` holds the
  sentinel invariant: the chain is the ghost `Contents` followed by one node with
  no data and no successor. `Push` writes into the old dummy and appends a fresh
  one. The pops detach the head unless `head == tail`. Together they give a FIFO
  queue.
- **Task wrapper** (`function_wrapper`, module `WorkStealing`). A class whose only
  field `impl` is the owning pointer to the callable, `None` when empty. A move
  leaves the source empty. Invoking requires a callable to be present. No copy
  operation exists, as in the source.
- **Stealing deque** (`work_stealing_queue`, module `WorkStealing`). A class over
  a `seq` of queued wrappers. Each wrapper is represented by its `impl`. The owner
  pushes and pops at the front (LIFO); thieves take from the back.
- **Scheduler** (module `Scheduler`). A pure specification of where `submit` routes
  a task and which single task `run_pending_task` takes: the local deque, then the
  global queue, then a steal scan from `(my_index + 1) % n`. Lemmas prove three
  things. The scan visits every deque once, and the caller's own deque last. It
  finds a task exactly when some deque is non-empty. Every step conserves the
  multiset of queued tasks.
- **Thread pool** (`thread_pool`, module `ThreadPools`). A class holding the global
  queue, the `seq` of deques, the threads and `done`. Its methods follow the
  source. Each is proved against the `Scheduler` functions on the abstract state
  `State()`. Threads are objects with a `joinable` flag. A worker's thread-local
  `my_index` and `local_work_queue` are passed as `myIndex` and `hasLocal`.
- **Client algorithms** (modules `QuickSort`, `Accumulate`). `do_sort` and
  `parallel_accumulate`, with each future replaced by its value. The quicksort is
  proved to return a sorted permutation of its input. The accumulation is proved
  equal to the sequential `std::accumulate`, and its block layout is proved to
  partition the range.

Facts about the program that the model keeps:

- The steal scan probes all `n` deques, the caller's own deque last
  (src/thread_pool.cpp:35-37).
- A thread outside the pool has no local deque, and its `my_index` stays at its
  initial value 1 (src/main.cpp:10-11). When such a thread calls
  `run_pending_task`, its scan starts at deque `2 % n`.
- `operator()` does not empty the wrapper (include/work_steal_queue.h:39).
- The pool takes `hardware_concurrency()` workers as it is, even 0
  (include/thread_pool.h:85). `parallel_accumulate` divides by
  `2 * hardware_concurrency()` (include/parallel_accumulate.h:27-31). The model
  of the accumulation uses at least one worker instead (see Findings).

## Model

| member | source | states |
|---|---|---|
| `ThreadsafeQueues.Node.constructor` | include/threadsafe_queue.h:22-26 | a new node carries no data and no successor |
| `ThreadsafeQueues.ThreadsafeQueue.constructor` | include/threadsafe_queue.h:44-46 | a new queue is one dummy node that is both head and tail, and is empty |
| `ThreadsafeQueues.ThreadsafeQueue.GetTail` | include/threadsafe_queue.h:65-70 | the tail is the data-less last node of the chain, and it is the head exactly when the queue is empty |
| `ThreadsafeQueues.ThreadsafeQueue.PopHead` | include/threadsafe_queue.h:72-78 | on a non-empty queue, detaches the head node, which carries the first element, and leaves the rest |
| `ThreadsafeQueues.ThreadsafeQueue.TryPopHead` | include/threadsafe_queue.h:106-115 | returns null and changes nothing exactly when the queue is empty; otherwise detaches the node of the first element |
| `ThreadsafeQueues.ThreadsafeQueue.TryPopHeadInto` | include/threadsafe_queue.h:117-127 | as TryPopHead, and the first element is moved into the out-parameter, which is untouched on an empty queue |
| `ThreadsafeQueues.ThreadsafeQueue.TryPop` | include/threadsafe_queue.h:131-136 | empty queue: None and no change; otherwise the first element, removed (FIFO) |
| `ThreadsafeQueues.ThreadsafeQueue.TryPopInto` | include/threadsafe_queue.h:138-143 | true exactly when the queue was non-empty, the first element then moved out and removed; false leaves queue and value untouched |
| `ThreadsafeQueues.ThreadsafeQueue.WaitAndPop` | include/threadsafe_queue.h:146-151 | once the queue is non-empty, returns and removes its first element |
| `ThreadsafeQueues.ThreadsafeQueue.WaitAndPopInto` | include/threadsafe_queue.h:153-157 | once the queue is non-empty, moves its first element out and removes it |
| `ThreadsafeQueues.ThreadsafeQueue.Push` | include/threadsafe_queue.h:159-175 | the contents become old contents ++ [value], the sentinel invariant is kept, and only fresh nodes are added |
| `ThreadsafeQueues.ThreadsafeQueue.Empty` | include/threadsafe_queue.h:177-182 | true exactly when nothing is queued |
| `ThreadsafeQueues.FifoOrder` | include/threadsafe_queue.h:159-175 | a then b pushed onto a new queue pop as a, then b, then nothing |
| `WorkStealing.FunctionWrapper.constructor` | include/work_steal_queue.h:30-31 | a default wrapper holds no callable |
| `WorkStealing.FunctionWrapper.FromCallable` | include/work_steal_queue.h:33-36 | wrapping f gives a wrapper holding exactly f |
| `WorkStealing.FunctionWrapper.MoveFrom` | include/work_steal_queue.h:41-43 | move construction takes over the source's callable and empties the source |
| `WorkStealing.FunctionWrapper.MoveAssign` | include/work_steal_queue.h:45-49 | the target ends up with the source's callable, its own being discarded; a distinct source is emptied |
| `WorkStealing.FunctionWrapper.Call` | include/work_steal_queue.h:39 | requires a callable to be present and invokes exactly that callable |
| `WorkStealing.MoveThenCall` | include/work_steal_queue.h:33-43 | after a move, the moved-from wrapper is empty and invoking the new one runs the original callable |
| `WorkStealing.AssignThenCall` | include/work_steal_queue.h:45-49 | after a move assignment, invoking the target runs the source's callable, not its former one |
| `WorkStealing.WorkStealingQueue.constructor` | include/work_steal_queue.h:66-67 | a new deque is empty |
| `WorkStealing.WorkStealingQueue.Push` | src/work_steal_queue.cpp:4-8 | the contents become [data] ++ old contents |
| `WorkStealing.WorkStealingQueue.Empty` | src/work_steal_queue.cpp:10-14 | true exactly when the deque has no element |
| `WorkStealing.WorkStealingQueue.TryPop` | src/work_steal_queue.cpp:16-27 | empty: false, deque and out-parameter unchanged; otherwise the front moves into the out-parameter and the rest remains |
| `WorkStealing.WorkStealingQueue.TrySteal` | src/work_steal_queue.cpp:29-42 | empty: false, nothing changed; otherwise the back moves into the out-parameter and the front part remains |
| `WorkStealing.OwnerIsLifo` | src/work_steal_queue.cpp:4-27 | the owner pushing a then b pops b then a |
| `WorkStealing.ThiefIsFifo` | src/work_steal_queue.cpp:29-42 | a thief after pushes of a then b steals a then b |
| `Scheduler.Probe` | src/thread_pool.cpp:37 | the probed index (my_index + i + 1) % n is a valid deque index |
| `Scheduler.ProbeValue` | src/thread_pool.cpp:37 | with my_index and i below n the modulo wraps at most once |
| `Scheduler.ProbeVisitsEachOnce` | src/thread_pool.cpp:35-37 | the n probes hit n distinct deques, every deque is hit, and the caller's own deque is hit last |
| `Scheduler.ProbeReduces` | src/thread_pool.cpp:37 | only my_index modulo n matters: any my_index, 1 included, scans like my_index % n |
| `Scheduler.ScanFrom` | src/thread_pool.cpp:35-43 | the scan stops at the first probe whose deque is non-empty, every earlier probe being empty; no result means every later probe is empty |
| `Scheduler.StealVictim` | src/thread_pool.cpp:35-45 | the deque the scan steals from, if any, is a valid index of a non-empty deque |
| `Scheduler.StealVictimSpec` | src/thread_pool.cpp:31-46 | for any my_index: the scan fails exactly when every deque is empty; otherwise it takes from a non-empty deque, all deques probed before it being empty |
| `Scheduler.NonWorkerScanStartsAtTwo` | src/thread_pool.cpp:35-39 | a thread outside the pool (my_index 1, no deque) with deques [], [a], [b] steals b |
| `Scheduler.PopLocal` | src/thread_pool.cpp:19-22 | no task exactly when the caller has no deque or its deque is empty, and then nothing changes |
| `Scheduler.PopGlobal` | src/thread_pool.cpp:25-28 | no task exactly when the global queue is empty |
| `Scheduler.Steal` | src/thread_pool.cpp:31-46 | no task exactly when the scan finds no victim |
| `Scheduler.RunPending` | src/thread_pool.cpp:49-65 | the task run_pending_task takes: the own deque's front first, then the global head, then a steal; no task means no queue changed; the number of deques is kept |
| `Scheduler.RunPendingConserves` | src/thread_pool.cpp:49-59 | one step removes at most one task, one the pool held: what remains plus what was taken is what there was |
| `Scheduler.RunPendingIdleIffAllEmpty` | src/thread_pool.cpp:49-64 | for workers and non-workers alike, no task is taken exactly when the global queue and every deque are empty, and then no queue changes |
| `Scheduler.SubmitTo` | include/thread_pool.h:139-147 | submit routes the task to the front of the caller's own deque if it has one, else to the back of the global queue, leaving the other queue alone |
| `Scheduler.OwnerPopsNewestThiefStealsOldest` | src/work_steal_queue.cpp:16-42 | in a pool of two, worker 0 submits a then b; worker 1 steals a, worker 0 then pops b, and then no task is left |
| `Scheduler.SubmitAddsOne` | include/thread_pool.h:139-147 | submit adds exactly the one task to the pool and keeps the set of deques |
| `ThreadPools.Thread.Start` | include/thread_pool.h:99-103 | a started thread is joinable and belongs to slot i |
| `ThreadPools.JoinAll` | include/thread_pool.h:23-33 | joins exactly the threads that were joinable, each once and in order; afterwards none is joinable |
| `ThreadPools.ThreadPool.constructor` | include/thread_pool.h:79-112 | without failure: thread_count empty deques, thread_count joinable threads for slots 0..n-1, `done` false; if an allocation throws, `done` is set and every started thread is joined |
| `ThreadPools.ThreadPool.AddQueues` | include/thread_pool.h:89-95 | pushes one empty deque per slot until the failing allocation, if any |
| `ThreadPools.ThreadPool.StartThreads` | include/thread_pool.h:97-103 | starts the thread of each slot in order until the failing allocation, if any, leaving the queues alone |
| `ThreadPools.ThreadPool.Destroy` | include/thread_pool.h:114-118 | sets `done`, leaves every queue as it was, and the joiner then leaves no thread joinable |
| `ThreadPools.ThreadPool.Submit` | include/thread_pool.h:131-150 | the queues become SubmitTo of the old queues: the caller's own deque if it has one, else the global queue |
| `ThreadPools.ThreadPool.PopTaskFromLocalQueue` | src/thread_pool.cpp:19-22 | the queues after and the task taken are those of PopLocal: without a local deque, false and nothing touched; otherwise the own deque's front, if any, moves into the task, which then holds a callable |
| `ThreadPools.ThreadPool.PopTaskFromPoolQueue` | src/thread_pool.cpp:25-28 | the queues after and the task taken are those of PopGlobal: the global head moves into the task if there is one; otherwise false, nothing changed and the task untouched |
| `ThreadPools.ThreadPool.PopTaskFromOtherThreadQueue` | src/thread_pool.cpp:31-46 | for any my_index, the queues after and the task taken are those of Steal: it succeeds exactly when the scan finds a victim, taking that deque's back; otherwise nothing changes and the task is untouched |
| `ThreadPools.ThreadPool.TryStealFrom` | src/thread_pool.cpp:39 | one probe: true exactly when deque index is non-empty, its back then moving into the task and every other queue kept; false changes nothing |
| `ThreadPools.ThreadPool.RunPendingTask` | src/thread_pool.cpp:49-65 | for a worker or an outside thread, the queues after and the task invoked are exactly those of RunPending on the queues before; a task is invoked exactly when RunPending takes one |
| `ThreadPools.ThreadPool.WorkerThread` | src/thread_pool.cpp:5-16 | with `done` set nothing runs; the tasks invoked plus those still queued are exactly those queued before (as multisets); each round runs a task while any is queued, so min(rounds, queued) tasks run |
| `ThreadPools.SubmitFromOutsideThenRun` | include/thread_pool.h:139-147 | a task submitted by a non-worker goes to the global queue and is run by an idle worker |
| `ThreadPools.StealTakesOldest` | src/thread_pool.cpp:49-58 | a thief steals the owner's oldest task, the owner then pops its newest, and then nothing is left |
| `ThreadPools.WorkLeavesThreadsRunning` | include/thread_pool.h:131-150 | submitting from outside and running the task leaves every worker thread joinable, and runs the submitted task |
| `ThreadPools.ShutdownJoinsEveryThread` | include/thread_pool.h:114-118 | building and destroying a pool leaves every one of its threads joined |
| `QuickSort.Partition` | include/parallel_qsort.h:28-39 | the lower part holds only elements below the pivot, the other part only elements at or above it, and together they are the input |
| `QuickSort.DoSort` | include/parallel_qsort.h:16-57 | the result is sorted and a permutation of the input |
| `QuickSort.SortedAroundPivot` | include/parallel_qsort.h:42-55 | sorted lower ++ [pivot] ++ sorted upper is sorted |
| `QuickSort.ParallelQuickSort` | include/parallel_qsort.h:61-71 | an empty list comes back empty; any list comes back sorted and permuted |
| `QuickSort.SortedPermutationUnique` | include/parallel_qsort.h:16-57 | two sorted permutations of one multiset are equal, so the sort's result is determined |
| `QuickSort.SortSortedIsIdentity` | include/parallel_qsort.h:61-71 | sorting a sorted list returns it unchanged |
| `QuickSort.SortExample` | include/parallel_qsort.h:61-71 | [3, 1, 2] sorts to [1, 2, 3] |
| `Accumulate.AccumulateIsSum` | include/parallel_accumulate.h:10-13 | the left fold from init equals init plus the sum |
| `Accumulate.SumConcat` | include/parallel_accumulate.h:59-65 | the sum of a concatenation is the sum of the sums |
| `Accumulate.AccumulateBlock` | include/parallel_accumulate.h:7-14 | a block's accumulation from T() is the sum of the block |
| `Accumulate.ZeroThreadsDivideByZero` | include/parallel_accumulate.h:27-31 | with a worker count of 0 the layout as written has no defined block size |
| `Accumulate.BlockLayout` | include/parallel_accumulate.h:27-31 | at least 2 blocks, num_blocks * block_size fits the range, and it agrees with the source whenever thread_count >= 1 |
| `Accumulate.Block` | include/parallel_accumulate.h:39-56 | every block before the last has exactly block_size elements |
| `Accumulate.FirstBlocksArePrefix` | include/parallel_accumulate.h:39-53 | the first k blocks, concatenated, are the first k * block_size elements |
| `Accumulate.BlocksPartitionInput` | include/parallel_accumulate.h:39-56 | all blocks, concatenated, are the input range |
| `Accumulate.LastBlockIsLongest` | include/parallel_accumulate.h:56 | the last block has length - (num_blocks-1) * block_size >= block_size elements |
| `Accumulate.ParallelAccumulate` | include/parallel_accumulate.h:17-66 | the result equals the sequential std::accumulate of the range from init, for every worker count |
| `Accumulate.SumRange` | include/parallel_accumulate.h:17-66 | twice the sum of lo .. hi-1 is (hi - lo) * (lo + hi - 1) |
| `Accumulate.AccumulateExample` | include/parallel_accumulate.h:17-66 | accumulating 1 .. 100 from 0 gives 5050, for every worker count |

## Findings

| source | as written | input that shows it | evidently intended | confidence | as-written member | corrected member |
|---|---|---|---|---|---|---|
| include/parallel_accumulate.h:27-31 | `num_blocks = 2 * hardware_concurrency()` and `block_size = length / num_blocks` | `hardware_concurrency()` returns 0, which the standard allows when the count cannot be determined, and the range is non-empty: division by zero, and `num_blocks - 1` wraps around (`Accumulate.ZeroThreadsDivideByZero`) | use at least one worker: a pool with no worker thread never runs a submitted task, so its futures could not be waited on anyway | not executed; high that it divides by zero, medium that a fallback was intended | `Accumulate.BlockLayoutAsWritten` | `Accumulate.BlockLayout` |

## Left out

- Mutexes, condition variables, `std::atomic_bool` and `std::this_thread::yield`. Each operation is atomic, so interleavings and linearizability are not modelled.
- Thread creation, `join` internals and `hardware_concurrency()`. The worker count is a parameter, and a thread is an object with a `joinable` flag.
- The thread-local `my_index` and `local_work_queue`. They are the parameters `myIndex` and `hasLocal`. A thread outside the pool has `hasLocal` false and any `myIndex`, initially 1.
- `std::packaged_task` and `std::future`. A submitted task is its callable. A client's future is replaced by the value it would deliver, computed on the spot. Exceptions captured in a future are not modelled.
- What a callable does when invoked. `FunctionWrapper.Call` and `RunPendingTask` return the callable that was invoked.
- `shared_ptr`/`unique_ptr` ownership, node deletion, and allocating the node before taking the tail lock. These do not change behaviour.
- src/main.cpp: random data, timing and console output. It is not part of this model.
- Fixed-width arithmetic: sums are mathematical integers. The unsigned products and sums `2 * thread_count` and `my_index + i + 1` cannot wrap for realistic worker counts, so they are not modelled.
- The element order inside each part produced by `std::partition`, which is unstable. Only the split and the multiset are specified. Sorted elements are integers under `<`.
- Construction failure is modelled as one throwing allocation (`failAt`), counted over the deques and then the threads. A failing `reserve` is treated like a failing first allocation. The object is not destroyed, since Dafny has no exceptions.
- ThreadPools.ThreadPool.WorkerThread: `while (!done)` runs until another thread sets `done`. The model stops after `rounds` iterations, because its `done` never changes.
- ThreadsafeQueues.ThreadsafeQueue.WaitAndPop: the blocking wait for data is replaced by a precondition that the queue is non-empty. WaitAndPopInto is modelled the same way.
- Accumulate.ParallelAccumulate: with a worker count of 0 it uses the corrected layout (`Accumulate.BlockLayout`, one worker), where the source divides by zero. Accumulate.AccumulateExample inherits this.
- `sorter` owning a private pool, and `parallel_accumulate` building one. The model runs the submitted work inline. Scheduling is modelled by `ThreadPools`.
