# thread_pool: a Dafny model of the pipe and the thread pools

This project models the header-only C++ library `thread_pool`. It covers three
components:

- **`Pipe<DATA>`** (`Pipe.hpp`): a bounded FIFO shared by writer and reader
  threads. `Push` blocks while the pipe is full, and a capacity of 0 means no
  bound. `Pop` blocks while the pipe is empty and more data is expected. Once the
  pipe is empty and the writers have called `SetHasMore(false)`, `Pop` reports the
  end of the stream. `Clear` resets the pipe.
- **`ThreadPool`** in `threadPool.hpp`: a fixed set of worker threads that take
  posted tasks from a queue.
  - `Start` spawns the workers.
  - `Post` queues a task.
  - `Wait` blocks until every posted task has been processed, or until a `Stop`
    has completed; in the second case it joins the threads and starts them again.
  - `Stop` makes the workers leave.
  - `Destroy` stops and joins them.
  - `ThreadPoolEx` posts calls of one fixed function.
- **`ThreadPool`** in `ThreadPool.hpp`: the older variant of the same class, with
  `Create` in place of `Start`. It has no early return in `Stop`. Its `Wait` waits
  without a predicate and then asserts what it expects.

Each critical section under the component's mutex becomes one transition on an
immutable record. A condition-variable wait becomes the enabling predicate of
the transition that follows it, so a transition that is not enabled is one that
blocks. Tasks are opaque values of a type parameter. The model never runs them:
running a task is the time a worker spends in the `Busy` state.

Files and modules:

- `pool_basics.dfy` (`PoolBasics`): what both pool variants share. This is
  `unsigned long` counters with explicit wrap-around, `int` thread counts, the
  error results, and a worker's position in its loop (`Idle`, `Busy(task)`,
  `Exited`) together with counts over the workers.
- `pipe.dfy` (`Pipe`): the pipe's state and its operations.
- `pipe_runs.dfy` (`PipeRuns`): arbitrary interleavings of pipe operations, the
  writer/reader round trip, and a producer/consumer method.
- `thread_pool.dfy` (`ThreadPool`): `threadPool.hpp`, including `ThreadPoolEx`.
- `thread_pool_runs.dfy` (`ThreadPoolRuns`): arbitrary interleavings of the
  newer pool's transitions. It proves FIFO dispatch, exactly-once completion,
  and the completion barrier that `Wait` relies on.
- `splices.dfy` (`Splices`): the sequence and multiset algebra that joins the
  equation of one step to the equation of the rest of a run.
- `thread_pool_legacy.dfy` (`ThreadPoolLegacy`): `ThreadPool.hpp`. The two
  headers define the same class under the same include guard, so they are
  alternatives. They are kept as two modules.

The source's assertions (`assert(mThreads.empty())`, and the two asserts in the
older `Wait`) become `Err(...)` results instead of preconditions. A negative
thread count passed to the older `Create` reaches `std::vector::resize` as a
huge `size_t`, which throws `std::length_error`. The model returns
`Err(LengthError)` for it. The newer `Start` loops `threadCount` times, so it
spawns no thread for a negative count.

The comments at threadPool.hpp:40 and threadPool.hpp:168 suggest that `Wait`
after `Stop` restarts the pool. The code does not always do so. When nothing is outstanding, `Wait` returns at
once, even while a stop is pending, and restarts nothing. The pool then stays
stopped and drops every later `Post`. The model follows the code; see
`ThreadPool.IdleStopThenWaitStaysStopped`.

## Model

| member | source | states |
|---|---|---|
| PoolBasics.Inc | threadPool.hpp:145 | `++` on an `unsigned long` counter (here `mReqCount++`, and `++mStoppedCount` at threadPool.hpp:130) adds one, and wraps to 0 only at 2^64 - 1 |
| PoolBasics.Dec | threadPool.hpp:99 | `--` on an `unsigned long` counter subtracts one, and wraps to 2^64 - 1 only at 0 |
| PoolBasics.IncDecRoundTrip | threadPool.hpp:145 | an increment of a request count is undone by the worker's decrement, wrap-around included |
| PoolBasics.SpawnCount | threadPool.hpp:86 | the loop over `i < threadCount` spawns `threadCount` threads, or none when the count is negative |
| PoolBasics.Spawn | threadPool.hpp:86-88 | freshly spawned workers are all waiting for work, and there are exactly as many as requested |
| PoolBasics.AllExitedIffCount | threadPool.hpp:169 | the stopped count equals the number of threads exactly when every worker has left its loop, and then none holds a task |
| Pipe.New | Pipe.hpp:14 | a new pipe has an empty buffer, expects data, has the given capacity, and is within its bound |
| Pipe.NewDefault | Pipe.hpp:14 | the default capacity is 0, which is unbounded: `Push` never blocks on it |
| Pipe.Push | Pipe.hpp:51-72 | both overloads are enabled only when there is room; they append the item at the tail, leave capacity and flag alone, and keep the capacity bound |
| Pipe.Pop | Pipe.hpp:75-100 | it reports the end of the stream exactly when the pipe is empty, and then changes nothing; otherwise it removes and returns the head, whatever the flag says |
| Pipe.SetHasMore | Pipe.hpp:103-108 | only the flag changes |
| Pipe.Clear | Pipe.hpp:111-118 | the pipe becomes a default-constructed one: empty, unbounded, expecting data |
| Pipe.PushBlocksExactlyWhenFull | Pipe.hpp:55-56 | within its bound, `Push` blocks exactly when a bounded pipe holds `capacity` items |
| Pipe.PopBlocksExactlyWhenAwaitingData | Pipe.hpp:81-90 | `Pop` blocks exactly when the pipe is empty and still expects data |
| Pipe.PushThenPopRoundTrip | Pipe.hpp:58-95 | an item pushed on an empty pipe is popped straight back, leaving the pipe as it was |
| Pipe.EndOfStreamIsFinal | Pipe.hpp:81-82 | once the pipe is empty and closed, any number of further pops all report the end of the stream |
| PipeRuns.StepPreservesValid | Pipe.hpp:51-118 | every pipe operation keeps the capacity bound |
| PipeRuns.StepIsFifo | Pipe.hpp:51-100 | every operation other than `Clear` adds only at the tail and removes only at the head |
| PipeRuns.RunPreservesValid | Pipe.hpp:55-56 | under any interleaving of operations, the buffer never exceeds a positive capacity |
| PipeRuns.RunIsFifo | Pipe.hpp:51-100 | under any interleaving without `Clear`, popped items followed by the buffer equal the initial buffer followed by pushed items: nothing is lost, duplicated or reordered |
| PipeRuns.PushAll | Pipe.hpp:51-60 | a writer pushing a sequence without a reader appends it whole, given room for all of it |
| PipeRuns.Drain | Pipe.hpp:75-100 | a reader popping until `Pop` returns false, after the writers are done, receives exactly the buffered items in order and leaves the pipe empty |
| PipeRuns.WriteThenReadRoundTrip | Example.cpp:84-96 | push `xs`, mark the end, then pop until false: the reader sees `xs` in order and then the end |
| PipeRuns.TwentyIntegersRoundTrip | Example.cpp:84-89 | the integers 0..19 written by the example writer are read back as 0..19 |
| PipeRuns.ProducerConsumer | Pipe.hpp:51-108 | one writer and one reader on a pipe of any capacity, the reader popping whenever the pipe is full: the reader receives exactly the written sequence |
| ThreadPool.Fresh | threadPool.hpp:47-56 | a default-constructed pool has no threads, no requests, no pending stop, and satisfies the bookkeeping invariant |
| ThreadPool.Start | threadPool.hpp:81-88 | refused when threads exist; otherwise records the thread count and spawns that many idle workers, leaving queue, counters and flags alone |
| ThreadPool.Post | threadPool.hpp:138-150 | a no-op while a stop is pending; otherwise appends the task at the tail, increments the request count, and expects more |
| ThreadPool.PostEx | threadPool.hpp:72 | the extended pool's `Post` posts its fixed function bound to the arguments |
| ThreadPool.PostExKeepsFixedFunction | threadPool.hpp:63-76 | every task an extended pool queues calls its one fixed function |
| ThreadPool.WorkerStep | threadPool.hpp:104-115 | a woken worker exits and counts itself when a stop is pending, which takes precedence over queued tasks; otherwise it takes the head of the queue. The defensive `continue` is unreachable |
| ThreadPool.Finish | threadPool.hpp:99-103 | a worker returning from its task decrements the request count and waits again, changing nothing else |
| ThreadPool.Stop | threadPool.hpp:188-196 | afterwards a stop is pending and nothing else has changed |
| ThreadPool.WaitEnter | threadPool.hpp:159-162 | `Wait` clears the more-expected flag, and returns at once exactly when no request is outstanding |
| ThreadPool.Reset | threadPool.hpp:205-209 | the cleanup leaves a fresh pool except for the recorded thread count and the more-expected flag |
| ThreadPool.WaitResume | threadPool.hpp:166-173 | on the stop path `Wait` leaves a reset pool with the recorded number of idle workers; otherwise it returns without changing anything |
| ThreadPool.JoinThreads | threadPool.hpp:198-210 | the joins return only once every worker has exited; the pool is then left with no threads, no queue, no pending stop and zero counters, keeps its thread count and more-expected flag, and satisfies the invariant |
| ThreadPool.ExitWorker | threadPool.hpp:92-131 | in a stopped pool, a worker runs to its end: a busy one first accounts for its task (the request count is decremented), and a worker not yet exited counts itself stopped (the stopped count is incremented); the queue is untouched |
| ThreadPool.ExitAll | threadPool.hpp:201-202 | in a stopped pool, the first `n` workers have exited and the rest are untouched |
| ThreadPool.Destroy | threadPool.hpp:179-184 | `Stop` and `JoinThreads` leave a pool with no threads and no requests, except for the thread count and the more-expected flag |
| ThreadPool.PostPreservesInv | threadPool.hpp:145-147 | `Post` keeps the request count equal to the queued tasks plus the tasks held by workers |
| ThreadPool.WorkerStepPreservesInv | threadPool.hpp:104-131 | taking a task moves it from the queue to a worker, and exiting counts exactly one more stopped thread; the invariant holds |
| ThreadPool.FinishDecrementsByOne | threadPool.hpp:99 | a finishing worker's decrement never wraps: the count falls by exactly one and the invariant holds |
| ThreadPool.StopIsIdempotent | threadPool.hpp:191-193 | a second `Stop` leaves the state unchanged, and `Stop` keeps the invariant |
| ThreadPool.StoppedCountBounded | threadPool.hpp:130 | the stopped count never exceeds the number of threads |
| ThreadPool.StopPathJoinsExitedWorkers | threadPool.hpp:169-171 | on `Wait`'s stop path every worker has exited, so the joins cannot block and no task is lost mid-run |
| ThreadPool.WaitPreservesInv | threadPool.hpp:155-174 | both halves of `Wait` keep the invariant |
| ThreadPool.StartPreservesInv | threadPool.hpp:81-88 | `Start` on a pool without threads succeeds and keeps the invariant |
| ThreadPool.ShutdownPreservesInv | threadPool.hpp:179-210 | `JoinThreads` and `Destroy` keep the invariant, and the destroyed pool can be started again |
| ThreadPool.RestartKeepsWorkerCount | threadPool.hpp:169-172 | a started pool whose stop has completed comes back from `Wait` with as many idle workers as before, and no stop pending |
| ThreadPool.IdleStopThenWaitStaysStopped | threadPool.hpp:160-162 | `Stop` then `Wait` with nothing outstanding returns at once, stays stopped, and drops later posts |
| ThreadPool.StopDuringTaskWaitReturns | threadPool.hpp:164-173 | a `Stop` while a task runs, followed by the last task finishing, lets `Wait` return normally through its predicate without restarting |
| ThreadPool.ExitAllPreservesInv | threadPool.hpp:92-131 | letting the workers of a stopped pool run to their end keeps the invariant |
| ThreadPool.StopBeforeTakeRestartsAll | threadPool.hpp:159-172 | a started pool gets a task, `Wait` blocks on it, `Stop` lands before a worker takes it, and every worker leaves: `Wait` takes its stop path and comes back with as many idle workers as `Start` was given |
| ThreadPoolRuns.StepPreservesInv | threadPool.hpp:81-210 | every transition keeps the invariant, and the request count grows by at most one per transition |
| ThreadPoolRuns.RunPreservesInv | threadPool.hpp:81-210 | under any interleaving with fewer than 2^64 transitions, the invariant holds in every reached state |
| ThreadPoolRuns.StepIsFifo | threadPool.hpp:104-150 | a transition other than a reset removes tasks only at the head of the queue and adds them only at the tail |
| ThreadPoolRuns.RunIsFifo | threadPool.hpp:104-150 | over any run without a reset, the dispatched tasks followed by the remaining queue equal the initial queue followed by the accepted tasks |
| ThreadPoolRuns.StepAccountsForTasks | threadPool.hpp:90-123 | a transition completes a task only if a worker held it, and dispatches one only to a worker |
| ThreadPoolRuns.RunAccountsForTasks | threadPool.hpp:90-123 | over any run without a reset, the held tasks plus the dispatched tasks equal the completed tasks plus the tasks still held, as multisets |
| ThreadPoolRuns.BarrierCompletesEveryTask | threadPool.hpp:152-174 | from a state with nothing outstanding, once the request count is back at 0 every accepted task has been dispatched in order and completed exactly once |
| ThreadPoolRuns.StopFreeRunAcceptsAll | threadPool.hpp:141-147 | without a `Stop`, every task handed to `Post` is accepted, in order |
| ThreadPoolRuns.FourWorkersTwentyTasks | Example.cpp:41-52 | four workers and twenty posted tasks, scheduled in any order: when `Wait` may return, each of the twenty tasks has run exactly once |
| ThreadPoolLegacy.Fresh | ThreadPool.hpp:167-177 | a default-constructed pool has no threads, no requests, and satisfies the invariant |
| ThreadPoolLegacy.Create | ThreadPool.hpp:22-77 | refused when threads exist; a negative count raises a length error; otherwise spawns exactly that many idle workers, recording no thread count |
| ThreadPoolLegacy.Post | ThreadPool.hpp:80-92 | a no-op while a stop is pending; otherwise appends at the tail, increments the request count, and expects more |
| ThreadPoolLegacy.WorkerStep | ThreadPool.hpp:43-57 | a worker past its wait loop exits on a pending stop, which wins; otherwise it takes the queue head |
| ThreadPoolLegacy.Finish | ThreadPool.hpp:40-44 | a worker returning from its task decrements the request count and waits again |
| ThreadPoolLegacy.Stop | ThreadPool.hpp:137-143 | sets the stop flag and changes nothing else |
| ThreadPoolLegacy.WaitEnter | ThreadPool.hpp:101-104 | `Wait` clears the more-expected flag, and returns at once exactly when no request is outstanding |
| ThreadPoolLegacy.Reset | ThreadPool.hpp:159-164 | the cleanup leaves a fresh pool except for the more-expected flag |
| ThreadPoolLegacy.WaitWake | ThreadPool.hpp:105-122 | after a wake for any reason, `Wait` fails its assertion when a stop is pending before every thread has stopped, or when no stop is pending and requests remain; otherwise it restarts with no threads, or returns unchanged |
| ThreadPoolLegacy.WaitResume | ThreadPool.hpp:105-122 | a wake that satisfies what the assertions check never fails them; on the stop path it leaves a fresh pool with no threads |
| ThreadPoolLegacy.JoinThreads | ThreadPool.hpp:153-165 | the joins return only once every worker has exited; the pool is then left with no threads, no queue, no pending stop and zero counters, keeps its more-expected flag, and satisfies the invariant |
| ThreadPoolLegacy.ExitWorker | ThreadPool.hpp:31-73 | in a stopped pool, a worker runs to its end: a busy one first accounts for its task (the request count is decremented), and a worker not yet exited counts itself stopped (the stopped count is incremented); the queue is untouched |
| ThreadPoolLegacy.ExitAll | ThreadPool.hpp:156-157 | in a stopped pool, the first `n` workers have exited and the rest are untouched |
| ThreadPoolLegacy.Destroy | ThreadPool.hpp:128-133 | `Stop` and `JoinThreads` leave a pool with no threads and no requests |
| ThreadPoolLegacy.CreatePreservesInv | ThreadPool.hpp:22-27 | `Create` with a non-negative count on a pool without threads keeps the invariant |
| ThreadPoolLegacy.PostPreservesInv | ThreadPool.hpp:85-89 | `Post` keeps the request count equal to the queued tasks plus the tasks held by workers |
| ThreadPoolLegacy.WorkerStepPreservesInv | ThreadPool.hpp:45-73 | taking or exiting keeps the invariant, and the stopped count stays within the number of threads |
| ThreadPoolLegacy.FinishDecrementsByOne | ThreadPool.hpp:40 | a finishing worker's decrement never wraps: the count falls by exactly one and the invariant holds |
| ThreadPoolLegacy.StopIsIdempotent | ThreadPool.hpp:139-142 | even without an early return, a second `Stop` leaves the state of the first, and `Stop` keeps the invariant |
| ThreadPoolLegacy.WaitPreservesInv | ThreadPool.hpp:97-123 | both halves of `Wait` keep the invariant, and an accepted stop path joins only exited workers |
| ThreadPoolLegacy.ShutdownPreservesInv | ThreadPool.hpp:128-165 | `JoinThreads` and `Destroy` keep the invariant, and `Create` with any non-negative count succeeds on the destroyed pool |
| ThreadPoolLegacy.ExitAllPreservesInv | ThreadPool.hpp:67-73 | letting the workers of a stopped pool run to their end keeps the invariant |
| ThreadPoolLegacy.RestartLosesWorkers | ThreadPool.hpp:114-117 | a pool created with `n > 0` threads gets a task, `Wait` blocks on it, `Stop` lands before a worker takes it, and every worker leaves: `Wait`'s stop path passes its assertion and comes back with no threads, so a later task stays queued |
| ThreadPoolLegacy.StopDuringTaskTripsWaitAssert | ThreadPool.hpp:105-111 | a `Stop` while a task runs, followed by the last task finishing, wakes `Wait` with a stopped count below the thread count, and the assertion fails |

## Left out

- Real threads, mutexes, condition variables, notifications and joins are not modelled. Waits are enabling predicates, a notification carries no state, and liveness (lost wake-ups, deadlock) is not modelled. A join is modelled as the condition that the thread has exited.
- Callables are not modelled: `std::bind`, `std::function` and the variadic forwarding of `Post`. A task is an opaque value. `ThreadPoolEx` pairs its fixed function with the arguments as data.
- Exceptions thrown by task bodies are not modelled, because the source does not handle them.
- `ThreadPool::GetThreadId` (`ThreadPool.hpp:146-150`) is a system call used only for logging.
- The destructors are not modelled; `Destroy` and `Clear` are the explicit operations they call.
- ThreadPoolRuns.FourWorkersTwentyTasks: the example drivers post twenty tasks to four threads through the older `Create` (Example.cpp:44). This lemma states the same pattern for the newer header through `Start`, because the run-level theorems are proved for that header only. Otherwise the drivers are used only as scenario lemmas.
- Arbitrary interleavings of the older header (the run-level FIFO and exactly-once theorems) are proved only for the newer header. Its worker loop is the same as the older header's, but the older header's transitions have only step-level invariant lemmas.
- A worker's `break` and its later `++mStoppedCount` are two critical sections in the source. They are one `Exited` step in the model. The stop flag cannot be cleared while the thread lives, so nothing observable changes in between except the count. The one exception is an older-header `Wait` that wakes in that gap, and `ThreadPoolLegacy.StopDuringTaskTripsWaitAssert` reaches that case from a state where no worker has counted itself.
- ThreadPool.PostPreservesInv: assumes fewer than 2^64 - 1 outstanding requests. With more, `mReqCount` wraps and the invariant no longer holds. `ThreadPoolRuns.RunPreservesInv` needs the same bound.
- ThreadPoolLegacy.PostPreservesInv: assumes the same bound on outstanding requests.
- ThreadPool.Destroy: every worker runs to its end in one fixed order, worker 0 first. Other orders reach the same state, but that is not proved.
- Builds with `NDEBUG` are not modelled. There the source's assertions vanish; in the model they are `Err` results.

## Findings

| source | as written | input that shows it | evidently intended | confidence | as-written member | corrected member |
|---|---|---|---|---|---|---|
| ThreadPool.hpp:114-117 | `Create` never assigns `mThreadCount`, so the restart on `Wait`'s stop path calls `Create(0)` | `Create(2)`, `Post(t)`, `Wait()` blocks, `Stop()` lands before a worker takes `t`, both workers exit and the last one's notify wakes `Wait`, which calls `Create(0)`: the pool comes back with no threads, and every later `Post` stays queued | the restart starts as many threads as were created, as the newer header's `Start` does by recording `mThreadCount` | not executed | ThreadPoolLegacy.RestartLosesWorkers | ThreadPool.StopBeforeTakeRestartsAll |
| ThreadPool.hpp:105-111 | the wait on `mCvDone` has no predicate, and the assertion after it assumes that a wake with the stop flag set means every thread has stopped | `Create(2)`, `Post(t)`, worker 0 takes `t`, `Wait()` blocks, `Stop()`, then worker 0 finishes `t` and notifies at request count 0 before any worker has counted itself: `Wait` sees the stop flag with 0 of 2 threads stopped, and the assertion fails | `Wait` waits on a predicate, as the newer header does. The corrected member waits on exactly the condition the assertions check: the stop has completed when the stop flag is set, and no request is outstanding otherwise. That differs from the newer header's predicate at threadPool.hpp:166, under which the same scenario returns normally through the request count (`ThreadPool.StopDuringTaskWaitReturns`); either guard keeps the assertions from failing | not executed | ThreadPoolLegacy.StopDuringTaskTripsWaitAssert | ThreadPoolLegacy.WaitResume |
