/**
 The task-queue bookkeeping of `ThreadPool` in `threadPool.hpp` (the variant
 with `Start` and `ThreadPoolEx`). Every critical section under `mMutex` is
 one transition on an immutable record; the wait before a transition is its
 enabling predicate; tasks are opaque values of type `T` that the model never
 runs.
 */
module ThreadPool {
  import opened PoolBasics

  /**
   The pool's fields: `threadCount` is `mThreadCount`, `workers` stands for
   `mThreads` together with where each thread is in its loop, `queue` is
   `mReqList` with its front at index 0, and `stop`, `stoppedCount`,
   `reqCount`, `hasMore` are `mStop`, `mStoppedCount`, `mReqCount`, `mHasMore`.
   */
  datatype Pool<T> = Pool(
    threadCount: Int32,
    workers: seq<Worker<T>>,
    queue: seq<T>,
    stop: bool,
    stoppedCount: ULong,
    reqCount: ULong,
    hasMore: bool)

  /**
   The bookkeeping invariant: `mReqCount` counts the queued tasks plus the
   tasks taken but not yet accounted for, `mStoppedCount` counts the exited
   workers, workers exit only while a stop is pending, and a started pool
   has exactly the number of threads `Start` was given.
   */
  predicate Inv<T>(s: Pool<T>)
  {
    && s.reqCount == |s.queue| + |BusyTasks(s.workers)|
    && s.stoppedCount == ExitedCount(s.workers)
    && (ExitedCount(s.workers) > 0 ==> s.stop)
    && (s.workers == [] || |s.workers| == SpawnCount(s.threadCount))
  }

  /** `ThreadPool() = default` with the member initialisers. */
  function Fresh<T>(): (s: Pool<T>)
    ensures Inv(s)
    ensures s.workers == [] && s.queue == [] && !s.stop && !s.hasMore
  {
    Pool(0, [], [], false, 0, 0, false)
  }

  /**
   `Start`: refused unless no threads exist; otherwise records the thread
   count and spawns that many idle workers (none for a negative count),
   leaving the queue, counters and flags as they were.
   */
  function Start<T>(s: Pool<T>, threadCount: Int32): (r: Result<Pool<T>>)
    ensures r.Err? <==> s.workers != []
    ensures r.Err? ==> r.error == InvalidState
    ensures r.Ok? ==>
              && r.value.threadCount == threadCount
              && |r.value.workers| == SpawnCount(threadCount)
              && AllIdle(r.value.workers)
              && r.value.queue == s.queue && r.value.stop == s.stop
              && r.value.stoppedCount == s.stoppedCount && r.value.reqCount == s.reqCount
              && r.value.hasMore == s.hasMore
  {
    if s.workers != [] then Err(InvalidState)
    else Ok(s.(threadCount := threadCount, workers := Spawn(SpawnCount(threadCount))))
  }

  /**
   `Post`: dropped once a stop is pending; otherwise the task joins the tail
   of the queue, the request count goes up by one and more work is expected.
   */
  function Post<T>(s: Pool<T>, task: T): (r: Pool<T>)
    ensures s.stop ==> r == s
    ensures !s.stop ==>
              && r.queue == s.queue + [task]
              && r.reqCount == Inc(s.reqCount)
              && r.hasMore
              && r.workers == s.workers && r.stop == s.stop
              && r.stoppedCount == s.stoppedCount && r.threadCount == s.threadCount
  {
    if s.stop then s
    else s.(reqCount := Inc(s.reqCount), hasMore := true, queue := s.queue + [task])
  }

  /** `ThreadPoolEx<FUNC>` posts calls of its one fixed function; a task is that function bound to arguments. */
  datatype Bound<F, A> = Bound(func: F, args: A)

  datatype PoolEx<F, A> = PoolEx(func: F, pool: Pool<Bound<F, A>>)

  /** `ThreadPoolEx::Post`: `Post` of the fixed function bound to the given arguments. */
  function PostEx<F, A>(ex: PoolEx<F, A>, args: A): (r: PoolEx<F, A>)
    ensures r.func == ex.func
    ensures r.pool == Post(ex.pool, Bound(ex.func, args))
  {
    ex.(pool := Post(ex.pool, Bound(ex.func, args)))
  }

  /** Every task an extended pool queues calls its fixed function. */
  lemma PostExKeepsFixedFunction<F, A>(ex: PoolEx<F, A>, args: A)
    requires forall i | 0 <= i < |ex.pool.queue| :: ex.pool.queue[i].func == ex.func
    ensures var r := PostEx(ex, args);
            forall i | 0 <= i < |r.pool.queue| :: r.pool.queue[i].func == r.func
  {
  }

  predicate IsIdle<T>(s: Pool<T>, w: nat)
  {
    w < |s.workers| && s.workers[w].Idle?
  }

  predicate IsBusy<T>(s: Pool<T>, w: nat)
  {
    w < |s.workers| && s.workers[w].Busy?
  }

  /** The predicate of the worker's wait: a task is queued or a stop is pending. */
  predicate WorkAvailable<T>(s: Pool<T>)
  {
    s.queue != [] || s.stop
  }

  /**
   An idle worker past its wait. A pending stop wins over queued tasks: the
   worker leaves its loop and counts itself as stopped. Otherwise it takes
   the head of the queue. The defensive `continue` for an empty queue is
   never reached: the wait predicate and the absent stop leave a task queued.
   */
  function WorkerStep<T>(s: Pool<T>, w: nat): (r: Pool<T>)
    requires IsIdle(s, w) && WorkAvailable(s)
    ensures |r.workers| == |s.workers|
    ensures s.stop ==>
              && r.workers == s.workers[w := Exited]
              && r.stoppedCount == Inc(s.stoppedCount)
              && r.queue == s.queue && r.reqCount == s.reqCount
    ensures !s.stop ==>
              && s.queue != []
              && r.workers == s.workers[w := Busy(s.queue[0])]
              && [s.queue[0]] + r.queue == s.queue
              && r.stoppedCount == s.stoppedCount && r.reqCount == s.reqCount
    ensures r.stop == s.stop && r.hasMore == s.hasMore && r.threadCount == s.threadCount
  {
    if s.stop then
      s.(workers := s.workers[w := Exited], stoppedCount := Inc(s.stoppedCount))
    else
      s.(workers := s.workers[w := Busy(s.queue[0])], queue := s.queue[1..])
  }

  /** A busy worker re-locks the pool after running its task and accounts for it. */
  function Finish<T>(s: Pool<T>, w: nat): (r: Pool<T>)
    requires IsBusy(s, w)
    ensures r.workers == s.workers[w := Idle]
    ensures r.reqCount == Dec(s.reqCount)
    ensures r.queue == s.queue && r.stop == s.stop && r.stoppedCount == s.stoppedCount
    ensures r.hasMore == s.hasMore && r.threadCount == s.threadCount
  {
    s.(workers := s.workers[w := Idle], reqCount := Dec(s.reqCount))
  }

  /** `Stop`: sets the stop flag, returning early if it is already set. */
  function Stop<T>(s: Pool<T>): (r: Pool<T>)
    ensures r.stop
    ensures r == s.(stop := true)
  {
    if s.stop then s else s.(stop := true)
  }

  /** The result of `Wait`'s first critical section. */
  datatype WaitEntry<T> = WaitEntry(pool: Pool<T>, returned: bool)

  /**
   The first critical section of `Wait`: no more submissions are expected;
   with nothing outstanding it returns at once, even when a stop is pending,
   and then restarts nothing.
   */
  function WaitEnter<T>(s: Pool<T>): (r: WaitEntry<T>)
    ensures r.pool == s.(hasMore := false)
    ensures r.returned <==> s.reqCount == 0
  {
    WaitEntry(s.(hasMore := false), s.reqCount == 0)
  }

  /** All the workers of a pending stop have exited: `Wait` takes its restart path. */
  predicate StopPath<T>(s: Pool<T>)
  {
    s.stop && s.stoppedCount == |s.workers|
  }

  /** The predicate of `Wait`'s wait: nothing outstanding, or the stop has completed. */
  predicate WaitCanResume<T>(s: Pool<T>)
  {
    s.reqCount == 0 || StopPath(s)
  }

  /** The cleanup of `JoinThreads` after its joins: no threads, no requests, counters and stop flag cleared. */
  function Reset<T>(s: Pool<T>): (r: Pool<T>)
    ensures r == Fresh().(threadCount := s.threadCount, hasMore := s.hasMore)
  {
    s.(workers := [], queue := [], stop := false, stoppedCount := 0, reqCount := 0)
  }

  /**
   `Wait` after its wait: on the stop path it joins the threads, resets the
   pool and starts `mThreadCount` workers again; otherwise it just returns.
   */
  function WaitResume<T>(s: Pool<T>): (r: Pool<T>)
    requires WaitCanResume(s)
    ensures StopPath(s) ==>
              && r.workers == Spawn(SpawnCount(s.threadCount))
              && r.queue == [] && !r.stop && r.stoppedCount == 0 && r.reqCount == 0
              && r.threadCount == s.threadCount && r.hasMore == s.hasMore
    ensures !StopPath(s) ==> r == s
  {
    if StopPath(s) then Start(Reset(s), s.threadCount).value else s
  }

  /** `JoinThreads`: its joins return once every thread has exited; then the pool is reset. */
  function JoinThreads<T>(s: Pool<T>): (r: Pool<T>)
    requires AllExited(s.workers)
    ensures r.workers == [] && r.queue == [] && !r.stop && r.stoppedCount == 0 && r.reqCount == 0
    ensures r.threadCount == s.threadCount && r.hasMore == s.hasMore
    ensures Inv(r)
  {
    Reset(s)
  }

  /**
   One worker of a stopped pool runs to its end: a busy one accounts for
   its task first, an idle one leaves at once, an exited one is done.
   */
  function ExitWorker<T>(s: Pool<T>, w: nat): (r: Pool<T>)
    requires s.stop && w < |s.workers|
    ensures r.stop && r.workers == s.workers[w := Exited]
    ensures r.reqCount == (if s.workers[w].Busy? then Dec(s.reqCount) else s.reqCount)
    ensures r.stoppedCount == (if s.workers[w].Exited? then s.stoppedCount else Inc(s.stoppedCount))
    ensures r.queue == s.queue && r.hasMore == s.hasMore && r.threadCount == s.threadCount
  {
    match s.workers[w]
    case Exited => assert s.workers[w := Exited] == s.workers; s
    case Idle => WorkerStep(s, w)
    case Busy(_) => WorkerStep(Finish(s, w), w)
  }

  /** The first `n` workers of a stopped pool run to their end, one after another. */
  function ExitAll<T>(s: Pool<T>, n: nat): (r: Pool<T>)
    requires s.stop && n <= |s.workers|
    ensures r.stop && |r.workers| == |s.workers|
    ensures forall i | 0 <= i < n :: r.workers[i] == Exited
    ensures forall i | n <= i < |s.workers| :: r.workers[i] == s.workers[i]
    ensures r.queue == s.queue && r.hasMore == s.hasMore && r.threadCount == s.threadCount
    decreases n
  {
    if n == 0 then s else ExitWorker(ExitAll(s, n - 1), n - 1)
  }

  /**
   `Destroy`: `Stop`, every worker leaves its loop, and `JoinThreads` joins
   them and discards whatever was still queued. The pool is left as a fresh
   one except for the recorded thread count and the `mHasMore` flag.
   */
  function Destroy<T>(s: Pool<T>): (r: Pool<T>)
    ensures r == Fresh().(threadCount := s.threadCount, hasMore := s.hasMore)
  {
    var stopped := Stop(s);
    var exited := ExitAll(stopped, |stopped.workers|);
    JoinThreads(exited)
  }

  /** `Post` keeps the invariant while the request count has room below the unsigned-long limit. */
  lemma PostPreservesInv<T>(s: Pool<T>, task: T)
    requires Inv(s) && s.reqCount < ULongModulus - 1
    ensures Inv(Post(s, task))
    ensures Post(s, task).reqCount <= s.reqCount + 1
  {
  }

  /** A woken worker keeps the invariant: an exiting one counts itself, a taking one moves a task from the queue to itself. */
  lemma WorkerStepPreservesInv<T>(s: Pool<T>, w: nat)
    requires Inv(s) && IsIdle(s, w) && WorkAvailable(s)
    ensures Inv(WorkerStep(s, w))
  {
    var r := WorkerStep(s, w);
    BusyCountUpdate(s.workers, w, r.workers[w]);
    ExitedCountUpdate(s.workers, w, r.workers[w]);
    assert s.workers == s.workers[w := r.workers[w]][w := Idle];
  }

  /**
   Finishing a task keeps the invariant, and the decrement never wraps: the
   request count falls by exactly one.
   */
  lemma FinishDecrementsByOne<T>(s: Pool<T>, w: nat)
    requires Inv(s) && IsBusy(s, w)
    ensures s.reqCount > 0
    ensures Finish(s, w).reqCount == s.reqCount - 1
    ensures Inv(Finish(s, w))
  {
    BusyCountUpdate(s.workers, w, Idle);
    ExitedCountUpdate(s.workers, w, Idle);
  }

  /** `Stop` is idempotent: once a stop is pending a second call changes nothing. */
  lemma StopIsIdempotent<T>(s: Pool<T>)
    ensures s.stop ==> Stop(s) == s
    ensures Stop(Stop(s)) == Stop(s)
    ensures Inv(s) ==> Inv(Stop(s))
  {
  }

  /** The stopped-thread count never exceeds the number of threads. */
  lemma StoppedCountBounded<T>(s: Pool<T>)
    requires Inv(s)
    ensures s.stoppedCount <= |s.workers|
  {
  }

  /** When `Wait` takes its restart path every worker has exited, so its joins cannot block and no task is lost mid-run. */
  lemma StopPathJoinsExitedWorkers<T>(s: Pool<T>)
    requires Inv(s) && StopPath(s)
    ensures AllExited(s.workers)
    ensures BusyTasks(s.workers) == []
  {
    AllExitedIffCount(s.workers);
  }

  /** Both halves of `Wait` keep the invariant. */
  lemma WaitPreservesInv<T>(s: Pool<T>)
    requires Inv(s)
    ensures Inv(WaitEnter(s).pool)
    ensures WaitCanResume(s) ==> Inv(WaitResume(s))
  {
    if StopPath(s) {
      IdleWorkersHoldNothing(WaitResume(s).workers);
    }
  }

  /** `Start` on a pool without threads keeps the invariant. */
  lemma StartPreservesInv<T>(s: Pool<T>, threadCount: Int32)
    requires Inv(s) && s.workers == []
    ensures Start(s, threadCount).Ok?
    ensures Inv(Start(s, threadCount).value)
  {
    IdleWorkersHoldNothing(Start(s, threadCount).value.workers);
  }

  /** `JoinThreads` and `Destroy` leave a pool satisfying the invariant, ready to be started again. */
  lemma ShutdownPreservesInv<T>(s: Pool<T>)
    ensures AllExited(s.workers) ==> Inv(JoinThreads(s))
    ensures Inv(Destroy(s))
    ensures Start(Destroy(s), s.threadCount).Ok?
  {
  }

  /**
   The restart keeps the pool's size: a started pool whose stop has
   completed comes back from `Wait` with as many idle workers as before.
   */
  lemma RestartKeepsWorkerCount<T>(s: Pool<T>)
    requires Inv(s) && StopPath(s) && s.workers != []
    ensures |WaitResume(s).workers| == |s.workers|
    ensures AllIdle(WaitResume(s).workers) && !WaitResume(s).stop
  {
  }

  /**
   `Stop` followed by `Wait` with nothing outstanding does not restart: the
   first half of `Wait` returns at once, the pool stays stopped, and a later
   `Post` is dropped.
   */
  lemma IdleStopThenWaitStaysStopped<T>(s: Pool<T>, task: T)
    requires s.reqCount == 0
    ensures WaitEnter(Stop(s)).returned
    ensures WaitEnter(Stop(s)).pool.stop
    ensures WaitEnter(Stop(s)).pool.workers == s.workers
    ensures Post(WaitEnter(Stop(s)).pool, task) == WaitEnter(Stop(s)).pool
  {
  }

  /**
   The scenario that trips the older header's assertion, here: a `Stop`
   while a task runs, then the last task finishes. `Wait`'s predicate holds
   through the request count alone, so it returns normally, leaving the
   stop pending for the workers still to exit and restarting nothing.
   */
  lemma StopDuringTaskWaitReturns()
    ensures var started := Start(Fresh<int>(), 2).value;
            var posted := Post(started, 7);
            && IsIdle(posted, 0) && WorkAvailable(posted)
            && var running := WorkerStep(posted, 0);
               var entered := WaitEnter(running);
               var stopped := Stop(entered.pool);
               && !entered.returned
               && IsBusy(stopped, 0)
               && var finished := Finish(stopped, 0);
                  && Inv(finished)
                  && WaitCanResume(finished) && !StopPath(finished)
                  && WaitResume(finished) == finished && finished.stop
  {
    var started := Start(Fresh<int>(), 2).value;
    StartPreservesInv(Fresh<int>(), 2);
    var posted := Post(started, 7);
    var running := WorkerStep(posted, 0);
    WorkerStepPreservesInv(posted, 0);
    var stopped := Stop(WaitEnter(running).pool);
    FinishDecrementsByOne(stopped, 0);
    var finished := Finish(stopped, 0);
    assert ExitedCount(finished.workers) == 0;
  }

  /** Running the first `n` workers of a stopped pool to their end keeps the invariant. */
  lemma {:induction false} ExitAllPreservesInv<T>(s: Pool<T>, n: nat)
    requires Inv(s) && s.stop && n <= |s.workers|
    ensures Inv(ExitAll(s, n))
    decreases n
  {
    if n > 0 {
      ExitAllPreservesInv(s, n - 1);
      var p := ExitAll(s, n - 1);
      match p.workers[n - 1]
      case Exited =>
      case Idle => WorkerStepPreservesInv(p, n - 1);
      case Busy(_) =>
        FinishDecrementsByOne(p, n - 1);
        WorkerStepPreservesInv(Finish(p, n - 1), n - 1);
    }
  }

  /**
   The scenario that makes the older header restart with no threads, here:
   a started pool gets a task, `Wait` blocks on it, `Stop` lands before any
   worker takes it, and every worker leaves. `Wait` takes its stop path and
   comes back with as many workers as `Start` was given.
   */
  lemma StopBeforeTakeRestartsAll<T>(n: Int32, task: T)
    requires n > 0
    ensures var started := Start(Fresh<T>(), n).value;
            var entered := WaitEnter(Post(started, task));
            var stopped := Stop(entered.pool);
            var exited := ExitAll(stopped, |stopped.workers|);
            && !entered.returned
            && Inv(exited) && StopPath(exited)
            && |WaitResume(exited).workers| == n
            && AllIdle(WaitResume(exited).workers)
  {
    var started := Start(Fresh<T>(), n).value;
    StartPreservesInv(Fresh<T>(), n);
    PostPreservesInv(started, task);
    var stopped := Stop(WaitEnter(Post(started, task)).pool);
    var exited := ExitAll(stopped, |stopped.workers|);
    ExitAllPreservesInv(stopped, |stopped.workers|);
    AllExitedIffCount(exited.workers);
  }
}
