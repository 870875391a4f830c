/**
 Definitions shared by the two thread-pool headers: the fixed-width integer
 types of their fields, the errors their assertions and allocations raise,
 and the status of one worker thread as the pool's bookkeeping sees it.
 */
module PoolBasics {
  import opened Splices

  /** `unsigned long`, the type of `mReqCount` and `mStoppedCount` (LP64). */
  const ULongModulus: nat := 0x1_0000_0000_0000_0000
  type ULong = n: nat | n < ULongModulus

  /** `int`, the type of `threadCount` and `mThreadCount`. */
  const IntMin: int := -0x8000_0000
  const IntMax: int := 0x7fff_ffff
  type Int32 = n: int | IntMin <= n <= IntMax

  /** `++n` on an unsigned long: past the top it wraps to zero. */
  function Inc(n: ULong): (r: ULong)
    ensures n < ULongModulus - 1 ==> r == n + 1
    ensures n == ULongModulus - 1 ==> r == 0
  {
    (n + 1) % ULongModulus
  }

  /** `--n` on an unsigned long: below zero it wraps to the top. */
  function Dec(n: ULong): (r: ULong)
    ensures n > 0 ==> r == n - 1
    ensures n == 0 ==> r == ULongModulus - 1
  {
    (n + ULongModulus - 1) % ULongModulus
  }

  /** Increment and decrement undo each other on every unsigned long, wrap included. */
  lemma IncDecRoundTrip(n: ULong)
    ensures Dec(Inc(n)) == n
    ensures Inc(Dec(n)) == n
  {
  }

  /** How many threads `for(int i = 0; i < threadCount; ++i)` spawns. */
  function SpawnCount(threadCount: Int32): (k: nat)
    ensures k <= IntMax
    ensures threadCount >= 0 ==> k == threadCount
    ensures threadCount < 0 ==> k == 0
  {
    if threadCount < 0 then 0 else threadCount
  }

  /** What ends a pool operation abnormally. */
  datatype Failure =
    | InvalidState      // `assert(mThreads.empty())` fails
    | LengthError       // `std::vector::resize` given a size beyond `max_size()`
    | AssertionFailure  // one of the assertions after the legacy `Wait` wakes fails

  datatype Result<R> = Ok(value: R) | Err(error: Failure)

  /**
   Where one worker thread is in its loop. `Idle`: it holds no task (it is
   waiting, or about to re-check its wait predicate). `Busy(t)`: it took `t`
   off the queue and has not yet re-locked the pool to account for it.
   `Exited`: it saw the stop flag and counted itself in `mStoppedCount`.
   */
  datatype Worker<T> = Idle | Busy(task: T) | Exited

  /** The task a worker holds, as a multiset of at most one element. */
  function Held<T>(w: Worker<T>): multiset<T>
  {
    if w.Busy? then multiset{w.task} else multiset{}
  }

  /** The tasks held by busy workers, in worker order. */
  function BusyTasks<T>(ws: seq<Worker<T>>): (ts: seq<T>)
    ensures |ts| <= |ws|
  {
    if ws == [] then []
    else (if ws[0].Busy? then [ws[0].task] else []) + BusyTasks(ws[1..])
  }

  function ExitedCount<T>(ws: seq<Worker<T>>): (n: nat)
    ensures n <= |ws|
  {
    if ws == [] then 0
    else (if ws[0].Exited? then 1 else 0) + ExitedCount(ws[1..])
  }

  predicate AllIdle<T>(ws: seq<Worker<T>>)
  {
    forall i | 0 <= i < |ws| :: ws[i].Idle?
  }

  predicate AllExited<T>(ws: seq<Worker<T>>)
  {
    forall i | 0 <= i < |ws| :: ws[i].Exited?
  }

  /** `n` freshly spawned workers. */
  function Spawn<T>(n: nat): (ws: seq<Worker<T>>)
    ensures |ws| == n
    ensures AllIdle(ws)
  {
    seq(n, _ => Idle)
  }

  /** Replacing one worker's status changes the busy tasks by exactly what it held before and after. */
  lemma {:induction false} BusyTasksUpdate<T>(ws: seq<Worker<T>>, i: nat, x: Worker<T>)
    requires i < |ws|
    ensures multiset(BusyTasks(ws[i := x])) + Held(ws[i]) == multiset(BusyTasks(ws)) + Held(x)
  {
    if i == 0 {
      assert ws[i := x][1..] == ws[1..];
    } else {
      var tail := ws[1..];
      var head := BusyTasksSplit(ws, i, x);
      BusyTasksUpdate(tail, i - 1, x);
      ShiftMultiset(multiset(head), multiset(BusyTasks(tail[i - 1 := x])), multiset(BusyTasks(tail)), Held(ws[i]), Held(x));
    }
  }

  /** Below the head, replacing worker `i` is replacing worker `i - 1` of the tail. */
  lemma BusyTasksSplit<T>(ws: seq<Worker<T>>, i: nat, x: Worker<T>) returns (head: seq<T>)
    requires 0 < i < |ws|
    ensures ws[1..][i - 1] == ws[i]
    ensures BusyTasks(ws[i := x]) == head + BusyTasks(ws[1..][i - 1 := x])
    ensures BusyTasks(ws) == head + BusyTasks(ws[1..])
  {
    head := if ws[0].Busy? then [ws[0].task] else [];
    assert ws[i := x][0] == ws[0];
    assert ws[i := x][1..] == ws[1..][i - 1 := x];
  }

  /** The count form of `BusyTasksUpdate`. */
  lemma BusyCountUpdate<T>(ws: seq<Worker<T>>, i: nat, x: Worker<T>)
    requires i < |ws|
    ensures |BusyTasks(ws[i := x])| + |Held(ws[i])| == |BusyTasks(ws)| + |Held(x)|
  {
    BusyTasksUpdate(ws, i, x);
    var before, after := multiset(BusyTasks(ws)), multiset(BusyTasks(ws[i := x]));
    assert |after + Held(ws[i])| == |after| + |Held(ws[i])|;
    assert |before + Held(x)| == |before| + |Held(x)|;
  }

  /** Replacing one worker's status changes the exited count by whether it exited before and after. */
  lemma {:induction false} ExitedCountUpdate<T>(ws: seq<Worker<T>>, i: nat, x: Worker<T>)
    requires i < |ws|
    ensures ExitedCount(ws[i := x]) + (if ws[i].Exited? then 1 else 0)
         == ExitedCount(ws) + (if x.Exited? then 1 else 0)
  {
    if i == 0 {
      assert ws[i := x][1..] == ws[1..];
    } else {
      assert ws[i := x][1..] == ws[1..][i - 1 := x];
      ExitedCountUpdate(ws[1..], i - 1, x);
    }
  }

  /** A group of idle workers holds no task and has no exited member. */
  lemma {:induction false} IdleWorkersHoldNothing<T>(ws: seq<Worker<T>>)
    requires AllIdle(ws)
    ensures BusyTasks(ws) == []
    ensures ExitedCount(ws) == 0
  {
    if ws != [] {
      IdleWorkersHoldNothing(ws[1..]);
    }
  }

  /** Every worker has exited exactly when the exited count reaches the number of workers. */
  lemma {:induction false} AllExitedIffCount<T>(ws: seq<Worker<T>>)
    ensures AllExited(ws) <==> ExitedCount(ws) == |ws|
    ensures AllExited(ws) ==> BusyTasks(ws) == []
  {
    if ws != [] {
      AllExitedIffCount(ws[1..]);
      if ExitedCount(ws) == |ws| {
        assert ws[0].Exited?;
      }
      if AllExited(ws) {
        assert AllExited(ws[1..]);
      }
    }
  }
}
