/**
 Interleavings of the critical sections of `threadPool.hpp`, from callers and
 workers alike, and what they guarantee: the bookkeeping invariant holds
 throughout, tasks are dispatched in submission order and at most once, and
 when the request count is back at zero every accepted task has run exactly
 once.
 */
module ThreadPoolRuns {
  import opened PoolBasics
  import opened ThreadPool
  import opened Splices

  /** One critical section: a caller's `Post`, `Stop`, `Wait` halves, `Start` or `JoinThreads`, or a worker's step. */
  datatype Event<T> =
    | PostEv(task: T)
    | StopEv
    | WorkerStepEv(worker: nat)
    | FinishEv(worker: nat)
    | WaitEnterEv
    | WaitResumeEv
    | StartEv(threadCount: Int32)
    | JoinEv

  /** The event does not block (and, for `Start`, does not trip its assertion) in this state. */
  predicate Enabled<T>(s: Pool<T>, e: Event<T>)
  {
    match e
    case PostEv(_) => true
    case StopEv => true
    case WorkerStepEv(w) => IsIdle(s, w) && WorkAvailable(s)
    case FinishEv(w) => IsBusy(s, w)
    case WaitEnterEv => true
    case WaitResumeEv => WaitCanResume(s)
    case StartEv(_) => s.workers == []
    case JoinEv => AllExited(s.workers)
  }

  function Apply<T>(s: Pool<T>, e: Event<T>): Pool<T>
    requires Enabled(s, e)
  {
    match e
    case PostEv(t) => Post(s, t)
    case StopEv => Stop(s)
    case WorkerStepEv(w) => WorkerStep(s, w)
    case FinishEv(w) => Finish(s, w)
    case WaitEnterEv => WaitEnter(s).pool
    case WaitResumeEv => WaitResume(s)
    case StartEv(n) => Start(s, n).value
    case JoinEv => JoinThreads(s)
  }

  /** The task the event appends to the queue, if it is a `Post` that is not dropped. */
  function Accepted<T>(s: Pool<T>, e: Event<T>): seq<T>
  {
    if e.PostEv? && !s.stop then [e.task] else []
  }

  /** The task the event hands to a worker, if any. */
  function Dispatched<T>(s: Pool<T>, e: Event<T>): seq<T>
    requires Enabled(s, e)
  {
    if e.WorkerStepEv? && !s.stop then [s.queue[0]] else []
  }

  /** The task whose run the event accounts for, if any. */
  function Completed<T>(s: Pool<T>, e: Event<T>): multiset<T>
    requires Enabled(s, e)
  {
    if e.FinishEv? then Held(s.workers[e.worker]) else multiset{}
  }

  /** The event throws away the queue and the threads: `JoinThreads`, or `Wait` on its restart path. */
  predicate Resets<T>(s: Pool<T>, e: Event<T>)
  {
    e.JoinEv? || (e.WaitResumeEv? && StopPath(s))
  }

  predicate Runnable<T>(s: Pool<T>, es: seq<Event<T>>)
    decreases |es|
  {
    es == [] || (Enabled(s, es[0]) && Runnable(Apply(s, es[0]), es[1..]))
  }

  /** The state a run ends in, and the tasks it accepted, dispatched (in order) and completed. */
  datatype Trace<T> = Trace(final: Pool<T>, accepted: seq<T>, dispatched: seq<T>, completed: multiset<T>)

  function Run<T>(s: Pool<T>, es: seq<Event<T>>): Trace<T>
    requires Runnable(s, es)
    decreases |es|
  {
    if es == [] then Trace(s, [], [], multiset{})
    else
      var t := Run(Apply(s, es[0]), es[1..]);
      Trace(t.final,
            Accepted(s, es[0]) + t.accepted,
            Dispatched(s, es[0]) + t.dispatched,
            Completed(s, es[0]) + t.completed)
  }

  /** No event of the run resets the pool. */
  predicate NoReset<T>(s: Pool<T>, es: seq<Event<T>>)
    requires Runnable(s, es)
    decreases |es|
  {
    es == [] || (!Resets(s, es[0]) && NoReset(Apply(s, es[0]), es[1..]))
  }

  /** The tasks a caller hands to `Post` in the run, dropped or not. */
  function PostedTasks<T>(es: seq<Event<T>>): seq<T>
  {
    if es == [] then [] else (if es[0].PostEv? then [es[0].task] else []) + PostedTasks(es[1..])
  }

  /** A non-empty run is its first event followed by the rest of the run. */
  lemma RunUnfold<T>(s: Pool<T>, es: seq<Event<T>>)
    requires es != [] && Runnable(s, es)
    ensures Enabled(s, es[0]) && Runnable(Apply(s, es[0]), es[1..])
    ensures NoReset(s, es) ==> !Resets(s, es[0]) && NoReset(Apply(s, es[0]), es[1..])
    ensures var t := Run(Apply(s, es[0]), es[1..]);
            Run(s, es) == Trace(t.final, Accepted(s, es[0]) + t.accepted,
                                Dispatched(s, es[0]) + t.dispatched, Completed(s, es[0]) + t.completed)
  {
  }

  /**
   Every event keeps the invariant, provided the request count has room to
   grow; the request count grows by at most one.
   */
  lemma StepPreservesInv<T>(s: Pool<T>, e: Event<T>)
    requires Inv(s) && Enabled(s, e) && s.reqCount < ULongModulus - 1
    ensures Inv(Apply(s, e))
    ensures Apply(s, e).reqCount <= s.reqCount + 1
  {
    match e
    case PostEv(t) => PostPreservesInv(s, t);
    case StopEv => StopIsIdempotent(s);
    case WorkerStepEv(w) => WorkerStepPreservesInv(s, w);
    case FinishEv(w) => FinishDecrementsByOne(s, w);
    case WaitEnterEv => WaitPreservesInv(s);
    case WaitResumeEv => WaitPreservesInv(s);
    case StartEv(n) => StartPreservesInv(s, n);
    case JoinEv => ShutdownPreservesInv(s);
  }

  /**
   The invariant holds in every state a run reaches, as long as fewer
   requests than the unsigned-long limit can be outstanding.
   */
  lemma {:induction false} RunPreservesInv<T>(s: Pool<T>, es: seq<Event<T>>)
    requires Inv(s) && Runnable(s, es) && s.reqCount + |es| < ULongModulus
    ensures Inv(Run(s, es).final)
    decreases |es|
  {
    if es != [] {
      StepPreservesInv(s, es[0]);
      RunPreservesInv(Apply(s, es[0]), es[1..]);
    }
  }

  /** An event that does not reset the pool takes tasks only from the head of the queue and adds them only at the tail. */
  lemma StepIsFifo<T>(s: Pool<T>, e: Event<T>)
    requires Enabled(s, e) && !Resets(s, e)
    ensures Dispatched(s, e) + Apply(s, e).queue == s.queue + Accepted(s, e)
  {
  }

  /**
   FIFO, exactly-once dispatch: over any run without a reset, the dispatched
   tasks followed by the queue left over are the queue at the start followed
   by the accepted tasks. No task is taken twice, skipped or reordered.
   */
  lemma {:induction false} RunIsFifo<T>(s: Pool<T>, es: seq<Event<T>>)
    requires Runnable(s, es) && NoReset(s, es)
    ensures Run(s, es).dispatched + Run(s, es).final.queue == s.queue + Run(s, es).accepted
    decreases |es|
  {
    if es != [] {
      var e, q, rest := es[0], Apply(s, es[0]), es[1..];
      RunUnfold(s, es);
      StepIsFifo(s, e);
      RunIsFifo(q, rest);
      var t := Run(q, rest);
      SpliceFifo(Dispatched(s, e), Accepted(s, e), s.queue, q.queue, t.dispatched, t.accepted, t.final.queue);
    } else {
      assert Run(s, es) == Trace(s, [], [], multiset{});
    }
  }

  /** An event that does not reset the pool moves a task from dispatched to completed only through a busy worker. */
  lemma StepAccountsForTasks<T>(s: Pool<T>, e: Event<T>)
    requires Enabled(s, e) && !Resets(s, e)
    ensures multiset(BusyTasks(s.workers)) + multiset(Dispatched(s, e))
         == Completed(s, e) + multiset(BusyTasks(Apply(s, e).workers))
  {
    var r := Apply(s, e);
    if e.WorkerStepEv? {
      var w := e.worker;
      assert r == WorkerStep(s, w);
      BusyTasksUpdate(s.workers, w, r.workers[w]);
      if s.stop {
        assert Dispatched(s, e) == [];
      } else {
        assert Dispatched(s, e) == [s.queue[0]];
      }
    } else if e.FinishEv? {
      assert r == Finish(s, e.worker);
      BusyTasksUpdate(s.workers, e.worker, Idle);
    } else if e.StartEv? {
      IdleWorkersHoldNothing(r.workers);
    } else {
      assert Dispatched(s, e) == [] && Completed(s, e) == multiset{};
      assert r.workers == s.workers;
    }
  }

  /**
   Over any run without a reset, the tasks held at the start plus those
   dispatched are exactly those completed plus those still held: a task is
   completed only after it was dispatched, and at most once.
   */
  lemma {:induction false} RunAccountsForTasks<T>(s: Pool<T>, es: seq<Event<T>>)
    requires Runnable(s, es) && NoReset(s, es)
    ensures multiset(BusyTasks(s.workers)) + multiset(Run(s, es).dispatched)
         == Run(s, es).completed + multiset(BusyTasks(Run(s, es).final.workers))
    decreases |es|
  {
    if es != [] {
      var e, q, rest := es[0], Apply(s, es[0]), es[1..];
      RunUnfold(s, es);
      StepAccountsForTasks(s, e);
      RunAccountsForTasks(q, rest);
      var t := Run(q, rest);
      SpliceAccounts(multiset(BusyTasks(s.workers)), multiset(Dispatched(s, e)), Completed(s, e),
                     multiset(BusyTasks(q.workers)), multiset(t.dispatched), t.completed,
                     multiset(BusyTasks(t.final.workers)));
    } else {
      assert Run(s, es) == Trace(s, [], [], multiset{});
    }
  }

  /**
   The completion barrier: starting with nothing outstanding, once the
   request count is back at zero (so `Wait` may return) every task accepted
   since then has been dispatched, in submission order, and completed
   exactly once.
   */
  lemma BarrierCompletesEveryTask<T>(s: Pool<T>, es: seq<Event<T>>)
    requires Inv(s) && s.reqCount == 0
    requires Runnable(s, es) && NoReset(s, es) && |es| < ULongModulus
    requires Run(s, es).final.reqCount == 0
    ensures Run(s, es).dispatched == Run(s, es).accepted
    ensures Run(s, es).completed == multiset(Run(s, es).accepted)
  {
    RunPreservesInv(s, es);
    RunIsFifo(s, es);
    RunAccountsForTasks(s, es);
    var t := Run(s, es);
    assert s.queue == [] && BusyTasks(s.workers) == [];
    assert t.final.queue == [] && BusyTasks(t.final.workers) == [];
    assert t.dispatched == t.dispatched + t.final.queue;
    assert s.queue + t.accepted == t.accepted;
    assert multiset(BusyTasks(t.final.workers)) == multiset{};
  }

  /** Without a `Stop`, a running pool accepts every task handed to `Post`, in order. */
  lemma {:induction false} StopFreeRunAcceptsAll<T>(s: Pool<T>, es: seq<Event<T>>)
    requires !s.stop && Runnable(s, es)
    requires forall i | 0 <= i < |es| :: !es[i].StopEv?
    ensures Run(s, es).accepted == PostedTasks(es)
    ensures !Run(s, es).final.stop
    decreases |es|
  {
    if es != [] {
      assert forall i | 0 <= i < |es[1..]| :: !es[1..][i].StopEv? by {
        forall i | 0 <= i < |es[1..]| ensures !es[1..][i].StopEv? {
          assert es[1..][i] == es[i + 1];
        }
      }
      StopFreeRunAcceptsAll(Apply(s, es[0]), es[1..]);
    }
  }

  /**
   The example's pattern: a pool started with four threads, twenty tasks
   posted, workers scheduled in any order, no `Stop`. When `Wait` may return,
   each of the twenty tasks has run exactly once.
   */
  lemma FourWorkersTwentyTasks(es: seq<Event<int>>)
    requires Runnable(Start(Fresh(), 4).value, es) && NoReset(Start(Fresh(), 4).value, es)
    requires forall i | 0 <= i < |es| :: !es[i].StopEv?
    requires PostedTasks(es) == seq(20, i => i)
    requires |es| < ULongModulus
    requires Run(Start(Fresh(), 4).value, es).final.reqCount == 0
    ensures Run(Start(Fresh(), 4).value, es).completed == multiset(seq(20, i => i))
  {
    var s := Start(Fresh(), 4).value;
    StartPreservesInv(Fresh<int>(), 4);
    StopFreeRunAcceptsAll(s, es);
    BarrierCompletesEveryTask(s, es);
  }
}
