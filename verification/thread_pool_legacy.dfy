/**
 The task-queue bookkeeping of `ThreadPool` in `ThreadPool.hpp`, the older
 variant with `Create`. Its worker loop matches the newer header's; it
 differs in three places: `Create` never records the thread count, `Stop`
 has no early return, and `Wait` waits without a predicate and then asserts
 what it expects to hold.
 */
module ThreadPoolLegacy {
  import opened PoolBasics

  /** The pool's fields except `mThreadCount`, which this header never writes after its initialiser. */
  datatype Pool<T> = Pool(
    workers: seq<Worker<T>>,
    queue: seq<T>,
    stop: bool,
    stoppedCount: ULong,
    reqCount: ULong,
    hasMore: bool)

  /** `mThreadCount`: initialised to 0 and never assigned, so every restart asks `Create` for 0 threads. */
  const ThreadCount: Int32 := 0

  /** The bookkeeping invariant, as in the newer header, with the thread count bounded by what an `int` can ask for. */
  predicate Inv<T>(s: Pool<T>)
  {
    && s.reqCount == |s.queue| + |BusyTasks(s.workers)|
    && s.stoppedCount == ExitedCount(s.workers)
    && (ExitedCount(s.workers) > 0 ==> s.stop)
    && |s.workers| <= IntMax
  }

  /** `ThreadPool() = default` with the member initialisers. */
  function Fresh<T>(): (s: Pool<T>)
    ensures Inv(s)
    ensures s.workers == [] && s.queue == [] && !s.stop && !s.hasMore
  {
    Pool([], [], false, 0, 0, false)
  }

  /**
   `Create`: refused unless no threads exist; a negative count becomes a
   huge `size_t` that `resize` rejects; otherwise that many idle workers.
   The thread count is not recorded anywhere.
   */
  function Create<T>(s: Pool<T>, threadCount: Int32): (r: Result<Pool<T>>)
    ensures s.workers != [] ==> r == Err(InvalidState)
    ensures s.workers == [] && threadCount < 0 ==> r == Err(LengthError)
    ensures s.workers == [] && threadCount >= 0 ==>
              && r.Ok?
              && |r.value.workers| == threadCount && AllIdle(r.value.workers)
              && r.value.queue == s.queue && r.value.stop == s.stop
              && r.value.stoppedCount == s.stoppedCount && r.value.reqCount == s.reqCount
              && r.value.hasMore == s.hasMore
  {
    if s.workers != [] then Err(InvalidState)
    else if threadCount < 0 then Err(LengthError)
    else Ok(s.(workers := Spawn(threadCount)))
  }

  /**
   `Post`: dropped once a stop is pending; otherwise the task joins the tail
   of the queue, the request count goes up by one and more work is expected.
   */
  function Post<T>(s: Pool<T>, task: T): (r: Pool<T>)
    ensures s.stop ==> r == s
    ensures !s.stop ==>
              && r.queue == s.queue + [task]
              && r.reqCount == Inc(s.reqCount)
              && r.hasMore
              && r.workers == s.workers && r.stop == s.stop && r.stoppedCount == s.stoppedCount
  {
    if s.stop then s
    else s.(reqCount := Inc(s.reqCount), hasMore := true, queue := s.queue + [task])
  }

  predicate IsIdle<T>(s: Pool<T>, w: nat)
  {
    w < |s.workers| && s.workers[w].Idle?
  }

  predicate IsBusy<T>(s: Pool<T>, w: nat)
  {
    w < |s.workers| && s.workers[w].Busy?
  }

  /** The negation of the guard of the worker's wait loop: a task is queued or a stop is pending. */
  predicate WorkAvailable<T>(s: Pool<T>)
  {
    s.queue != [] || s.stop
  }

  /**
   An idle worker past its wait loop. A pending stop wins: the worker
   leaves and counts itself as stopped. Otherwise it takes the head of the
   queue; the defensive `continue` is never reached.
   */
  function WorkerStep<T>(s: Pool<T>, w: nat): (r: Pool<T>)
    requires IsIdle(s, w) && WorkAvailable(s)
    ensures |r.workers| == |s.workers|
    ensures s.stop ==>
              && r.workers == s.workers[w := Exited]
              && r.stoppedCount == Inc(s.stoppedCount)
              && r.queue == s.queue && r.reqCount == s.reqCount
    ensures !s.stop ==>
              && s.queue != []
              && r.workers == s.workers[w := Busy(s.queue[0])]
              && [s.queue[0]] + r.queue == s.queue
              && r.stoppedCount == s.stoppedCount && r.reqCount == s.reqCount
    ensures r.stop == s.stop && r.hasMore == s.hasMore
  {
    if s.stop then
      s.(workers := s.workers[w := Exited], stoppedCount := Inc(s.stoppedCount))
    else
      s.(workers := s.workers[w := Busy(s.queue[0])], queue := s.queue[1..])
  }

  /** A busy worker re-locks the pool after running its task and accounts for it. */
  function Finish<T>(s: Pool<T>, w: nat): (r: Pool<T>)
    requires IsBusy(s, w)
    ensures r.workers == s.workers[w := Idle]
    ensures r.reqCount == Dec(s.reqCount)
    ensures r.queue == s.queue && r.stop == s.stop && r.stoppedCount == s.stoppedCount
    ensures r.hasMore == s.hasMore
  {
    s.(workers := s.workers[w := Idle], reqCount := Dec(s.reqCount))
  }

  /** The finishing worker signals `mCvDone`: the request count drops to zero while no more work is expected. */
  predicate FinishNotifiesDone<T>(s: Pool<T>, w: nat)
    requires IsBusy(s, w)
  {
    Dec(s.reqCount) == 0 && !s.hasMore
  }

  /** `Stop`: sets the stop flag, unconditionally. */
  function Stop<T>(s: Pool<T>): (r: Pool<T>)
    ensures r.stop
    ensures r.workers == s.workers && r.queue == s.queue && r.stoppedCount == s.stoppedCount
    ensures r.reqCount == s.reqCount && r.hasMore == s.hasMore
  {
    s.(stop := true)
  }

  datatype WaitEntry<T> = WaitEntry(pool: Pool<T>, returned: bool)

  /** The first critical section of `Wait`: no more submissions are expected; with nothing outstanding it returns at once. */
  function WaitEnter<T>(s: Pool<T>): (r: WaitEntry<T>)
    ensures r.pool == s.(hasMore := false)
    ensures r.returned <==> s.reqCount == 0
  {
    WaitEntry(s.(hasMore := false), s.reqCount == 0)
  }

  /** The cleanup of `JoinThreads` after its joins. */
  function Reset<T>(s: Pool<T>): (r: Pool<T>)
    ensures r == Fresh().(hasMore := s.hasMore)
  {
    s.(workers := [], queue := [], stop := false, stoppedCount := 0, reqCount := 0)
  }

  /**
   `Wait` after its unpredicated wait returns, whatever woke it, as written:
   with a stop pending it asserts that every thread has stopped, then joins
   them, resets the pool and calls `Create(mThreadCount)`; otherwise it
   asserts that nothing is outstanding.
   */
  function WaitWake<T>(s: Pool<T>): (r: Result<Pool<T>>)
    ensures s.stop && s.stoppedCount != |s.workers| ==> r == Err(AssertionFailure)
    ensures !s.stop && s.reqCount != 0 ==> r == Err(AssertionFailure)
    ensures s.stop && s.stoppedCount == |s.workers| ==> r == Ok(Fresh().(hasMore := s.hasMore))
    ensures !s.stop && s.reqCount == 0 ==> r == Ok(s)
  {
    if s.stop then
      if s.stoppedCount != |s.workers| then Err(AssertionFailure)
      else Create(Reset(s), ThreadCount)
    else if s.reqCount != 0 then Err(AssertionFailure)
    else Ok(s)
  }

  /** What the assertions after the wait take for granted about why `Wait` woke. */
  predicate WakeCondition<T>(s: Pool<T>)
  {
    if s.stop then s.stoppedCount == |s.workers| else s.reqCount == 0
  }

  /**
   `Wait` after a wake that its assertions accept: the wait treated as
   predicated on what they check. The restart path always leaves a pool
   without threads, because the thread count it passes to `Create` is 0.
   */
  function WaitResume<T>(s: Pool<T>): (r: Pool<T>)
    requires WakeCondition(s)
    ensures WaitWake(s) == Ok(r)
    ensures s.stop ==> r == Fresh().(hasMore := s.hasMore)
    ensures !s.stop ==> r == s
  {
    if s.stop then Create(Reset(s), ThreadCount).value else s
  }

  /** `JoinThreads`: its joins return once every thread has exited; then the pool is reset. */
  function JoinThreads<T>(s: Pool<T>): (r: Pool<T>)
    requires AllExited(s.workers)
    ensures r.workers == [] && r.queue == [] && !r.stop && r.stoppedCount == 0 && r.reqCount == 0
    ensures r.hasMore == s.hasMore
    ensures Inv(r)
  {
    Reset(s)
  }

  /** One worker of a stopped pool runs to its end. */
  function ExitWorker<T>(s: Pool<T>, w: nat): (r: Pool<T>)
    requires s.stop && w < |s.workers|
    ensures r.stop && r.workers == s.workers[w := Exited]
    ensures r.reqCount == (if s.workers[w].Busy? then Dec(s.reqCount) else s.reqCount)
    ensures r.stoppedCount == (if s.workers[w].Exited? then s.stoppedCount else Inc(s.stoppedCount))
    ensures r.queue == s.queue && r.hasMore == s.hasMore
  {
    match s.workers[w]
    case Exited => assert s.workers[w := Exited] == s.workers; s
    case Idle => WorkerStep(s, w)
    case Busy(_) => WorkerStep(Finish(s, w), w)
  }

  /** The first `n` workers of a stopped pool run to their end, one after another. */
  function ExitAll<T>(s: Pool<T>, n: nat): (r: Pool<T>)
    requires s.stop && n <= |s.workers|
    ensures r.stop && |r.workers| == |s.workers|
    ensures forall i | 0 <= i < n :: r.workers[i] == Exited
    ensures forall i | n <= i < |s.workers| :: r.workers[i] == s.workers[i]
    ensures r.queue == s.queue && r.hasMore == s.hasMore
    decreases n
  {
    if n == 0 then s else ExitWorker(ExitAll(s, n - 1), n - 1)
  }

  /** `Destroy`: `Stop`, every worker leaves its loop, and `JoinThreads` joins them and discards the queue. */
  function Destroy<T>(s: Pool<T>): (r: Pool<T>)
    ensures r == Fresh().(hasMore := s.hasMore)
  {
    var stopped := Stop(s);
    JoinThreads(ExitAll(stopped, |stopped.workers|))
  }

  /** `Create` on a pool without threads keeps the invariant. */
  lemma CreatePreservesInv<T>(s: Pool<T>, threadCount: Int32)
    requires Inv(s) && s.workers == [] && threadCount >= 0
    ensures Inv(Create(s, threadCount).value)
  {
    IdleWorkersHoldNothing(Create(s, threadCount).value.workers);
  }

  /** `Post` keeps the invariant while the request count has room below the unsigned-long limit. */
  lemma PostPreservesInv<T>(s: Pool<T>, task: T)
    requires Inv(s) && s.reqCount < ULongModulus - 1
    ensures Inv(Post(s, task))
  {
  }

  /** A woken worker keeps the invariant, and an exiting one never pushes the stopped count past the thread count. */
  lemma WorkerStepPreservesInv<T>(s: Pool<T>, w: nat)
    requires Inv(s) && IsIdle(s, w) && WorkAvailable(s)
    ensures Inv(WorkerStep(s, w))
    ensures WorkerStep(s, w).stoppedCount <= |s.workers|
  {
    var r := WorkerStep(s, w);
    BusyCountUpdate(s.workers, w, r.workers[w]);
    ExitedCountUpdate(s.workers, w, r.workers[w]);
  }

  /** Finishing a task keeps the invariant, and the request count falls by exactly one. */
  lemma FinishDecrementsByOne<T>(s: Pool<T>, w: nat)
    requires Inv(s) && IsBusy(s, w)
    ensures s.reqCount > 0
    ensures Finish(s, w).reqCount == s.reqCount - 1
    ensures Inv(Finish(s, w))
  {
    BusyCountUpdate(s.workers, w, Idle);
    ExitedCountUpdate(s.workers, w, Idle);
  }

  /** Without an early return `Stop` still acts once: a second call leaves the state of the first. */
  lemma StopIsIdempotent<T>(s: Pool<T>)
    ensures Stop(Stop(s)) == Stop(s)
    ensures s.stop ==> Stop(s) == s
    ensures Inv(s) ==> Inv(Stop(s))
  {
  }

  /** Both halves of `Wait` keep the invariant, and the accepted restart path joins only exited workers. */
  lemma WaitPreservesInv<T>(s: Pool<T>)
    requires Inv(s)
    ensures Inv(WaitEnter(s).pool)
    ensures WakeCondition(s) ==> Inv(WaitResume(s))
    ensures WakeCondition(s) && s.stop ==> AllExited(s.workers)
  {
    AllExitedIffCount(s.workers);
  }

  /** `JoinThreads` and `Destroy` leave a pool satisfying the invariant, ready for `Create`. */
  lemma ShutdownPreservesInv<T>(s: Pool<T>, n: Int32)
    requires n >= 0
    ensures AllExited(s.workers) ==> Inv(JoinThreads(s))
    ensures Inv(Destroy(s))
    ensures Create(Destroy(s), n).Ok?
  {
  }

  /**
   The restart loses the pool's threads. A pool created with `n` threads
   gets a task, `Wait` blocks on it, and `Stop` lands before any worker has
   taken the task. Every worker then leaves its loop, the last one's count
   reaches the thread count, and `Wait` takes its stop path: it comes back
   with no workers, whatever `n` was, so a task posted afterwards stays
   queued for good.
   */
  lemma RestartLosesWorkers<T>(n: Int32, task: T, later: T)
    requires n > 0
    ensures var created := Create(Fresh<T>(), n).value;
            var entered := WaitEnter(Post(created, task));
            var stopped := Stop(entered.pool);
            var exited := ExitAll(stopped, |stopped.workers|);
            && |created.workers| == n
            && !entered.returned
            && WakeCondition(exited)
            && WaitWake(exited).Ok?
            && WaitResume(exited).workers == []
            && Post(WaitResume(exited), later).queue == [later]
  {
    var created := Create(Fresh<T>(), n).value;
    IdleWorkersHoldNothing(created.workers);
    var stopped := Stop(WaitEnter(Post(created, task)).pool);
    var exited := ExitAll(stopped, |stopped.workers|);
    ExitAllPreservesInv(stopped, |stopped.workers|);
    AllExitedIffCount(exited.workers);
  }

  /** Running the first `n` workers of a stopped pool to their end keeps the invariant. */
  lemma {:induction false} ExitAllPreservesInv<T>(s: Pool<T>, n: nat)
    requires Inv(s) && s.stop && n <= |s.workers|
    ensures Inv(ExitAll(s, n))
    decreases n
  {
    if n > 0 {
      ExitAllPreservesInv(s, n - 1);
      var p := ExitAll(s, n - 1);
      match p.workers[n - 1]
      case Exited =>
      case Idle => WorkerStepPreservesInv(p, n - 1);
      case Busy(_) =>
        FinishDecrementsByOne(p, n - 1);
        WorkerStepPreservesInv(Finish(p, n - 1), n - 1);
    }
  }

  /**
   A `Stop` while a task runs trips the assertion in `Wait`: the worker that
   finishes the last task signals `mCvDone` before any thread has counted
   itself stopped, and `Wait`, woken by it, finds the stop flag set with a
   stopped count of 0 out of 2.
   */
  lemma StopDuringTaskTripsWaitAssert()
    ensures var created := Create(Fresh<int>(), 2).value;
            var posted := Post(created, 7);
            && IsIdle(posted, 0) && WorkAvailable(posted)
            && var running := WorkerStep(posted, 0);
               var entered := WaitEnter(running);
               var stopped := Stop(entered.pool);
               && !entered.returned
               && IsBusy(stopped, 0)
               && FinishNotifiesDone(stopped, 0)
               && Inv(Finish(stopped, 0))
               && WaitWake(Finish(stopped, 0)) == Err(AssertionFailure)
               && !WakeCondition(Finish(stopped, 0))
  {
    var created := Create(Fresh<int>(), 2).value;
    IdleWorkersHoldNothing(created.workers);
    var posted := Post(created, 7);
    var running := WorkerStep(posted, 0);
    WorkerStepPreservesInv(posted, 0);
    var stopped := Stop(WaitEnter(running).pool);
    FinishDecrementsByOne(stopped, 0);
    var finished := Finish(stopped, 0);
    assert ExitedCount(finished.workers) == 0;
  }
}
