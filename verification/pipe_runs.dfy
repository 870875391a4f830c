/**
 Sequences of pipe operations, as any interleaving of writer and reader
 threads produces them, and what they deliver: the capacity bound holds
 throughout and items come out in the order they went in.
 */
module PipeRuns {
  import opened Pipe
  import opened Splices

  /** One critical section on the pipe, by whichever thread performs it. */
  datatype Op<T> = PushOp(item: T) | PopOp | SetHasMoreOp(flag: bool) | ClearOp

  /** The operation does not block in this state. */
  predicate Enabled<T>(p: Pipe<T>, op: Op<T>)
  {
    match op
    case PushOp(_) => CanPush(p)
    case PopOp => CanPop(p)
    case SetHasMoreOp(_) => true
    case ClearOp => true
  }

  function Step<T>(p: Pipe<T>, op: Op<T>): Pipe<T>
    requires Enabled(p, op)
  {
    match op
    case PushOp(x) => Push(p, x)
    case PopOp => Pop(p).pipe
    case SetHasMoreOp(b) => SetHasMore(p, b)
    case ClearOp => Clear(p)
  }

  /** The item the operation hands to the pipe, if any. */
  function Input<T>(op: Op<T>): seq<T>
  {
    if op.PushOp? then [op.item] else []
  }

  /** The item the operation takes out of the pipe, if any. */
  function Output<T>(p: Pipe<T>, op: Op<T>): seq<T>
    requires Enabled(p, op)
  {
    if op.PopOp? && Pop(p).received.Item? then [Pop(p).received.value] else []
  }

  /** Every operation of `ops` is enabled when its turn comes. */
  predicate Runnable<T>(p: Pipe<T>, ops: seq<Op<T>>)
    decreases |ops|
  {
    ops == [] || (Enabled(p, ops[0]) && Runnable(Step(p, ops[0]), ops[1..]))
  }

  /** The state a run ends in, the items pushed and the items popped, in order. */
  datatype Trace<T> = Trace(final: Pipe<T>, pushed: seq<T>, popped: seq<T>)

  function Run<T>(p: Pipe<T>, ops: seq<Op<T>>): Trace<T>
    requires Runnable(p, ops)
    decreases |ops|
  {
    if ops == [] then Trace(p, [], [])
    else
      var t := Run(Step(p, ops[0]), ops[1..]);
      Trace(t.final, Input(ops[0]) + t.pushed, Output(p, ops[0]) + t.popped)
  }

  predicate ClearFree<T>(ops: seq<Op<T>>)
  {
    forall i | 0 <= i < |ops| :: !ops[i].ClearOp?
  }

  /** One operation keeps the capacity bound. */
  lemma StepPreservesValid<T>(p: Pipe<T>, op: Op<T>)
    requires Valid(p) && Enabled(p, op)
    ensures Valid(Step(p, op))
  {
  }

  /** One operation other than `Clear` moves items only at the ends: pushes at the tail, pops at the head. */
  lemma StepIsFifo<T>(p: Pipe<T>, op: Op<T>)
    requires Enabled(p, op) && !op.ClearOp?
    ensures Output(p, op) + Step(p, op).buffer == p.buffer + Input(op)
  {
  }

  /** The capacity bound holds after any run that starts within it. */
  lemma {:induction false} RunPreservesValid<T>(p: Pipe<T>, ops: seq<Op<T>>)
    requires Valid(p) && Runnable(p, ops)
    ensures Valid(Run(p, ops).final)
    decreases |ops|
  {
    if ops != [] {
      StepPreservesValid(p, ops[0]);
      RunPreservesValid(Step(p, ops[0]), ops[1..]);
    }
  }

  /** A run without `Clear` stays without `Clear` after its first operation. */
  lemma ClearFreeTail<T>(ops: seq<Op<T>>)
    requires ops != [] && ClearFree(ops)
    ensures !ops[0].ClearOp? && ClearFree(ops[1..])
  {
    forall i | 0 <= i < |ops[1..]| ensures !ops[1..][i].ClearOp? {
      assert ops[1..][i] == ops[i + 1];
    }
  }

  /**
   Strict FIFO under any interleaving without `Clear`: what was popped,
   followed by what is still buffered, is what was buffered at the start
   followed by what was pushed. Nothing is lost, duplicated or reordered.
   */
  lemma {:induction false} RunIsFifo<T>(p: Pipe<T>, ops: seq<Op<T>>)
    requires Runnable(p, ops) && ClearFree(ops)
    ensures Run(p, ops).popped + Run(p, ops).final.buffer == p.buffer + Run(p, ops).pushed
    decreases |ops|
  {
    if ops != [] {
      var op, q, rest := ops[0], Step(p, ops[0]), ops[1..];
      ClearFreeTail(ops);
      StepIsFifo(p, op);
      RunIsFifo(q, rest);
      var t := Run(q, rest);
      assert Run(p, ops) == Trace(t.final, Input(op) + t.pushed, Output(p, op) + t.popped);
      SpliceFifo(Output(p, op), Input(op), p.buffer, q.buffer, t.popped, t.pushed, t.final.buffer);
    } else {
      assert Run(p, ops) == Trace(p, [], []);
    }
  }

  /** A writer pushing all of `xs` without anyone reading: it needs room for all of them. */
  function PushAll<T>(p: Pipe<T>, xs: seq<T>): (q: Pipe<T>)
    requires p.capacity == 0 || |p.buffer| + |xs| <= p.capacity
    ensures q.buffer == p.buffer + xs
    ensures q.capacity == p.capacity && q.hasMore == p.hasMore
    decreases |xs|
  {
    if xs == [] then p
    else
      var q := Push(p, xs[0]);
      assert q.buffer + xs[1..] == p.buffer + xs;
      PushAll(q, xs[1..])
  }

  /**
   A reader looping `while(pipe.Pop(item))` after the writers are done: it
   receives exactly the buffered items, in order, and leaves the pipe empty.
   */
  function Drain<T>(p: Pipe<T>): (r: (seq<T>, Pipe<T>))
    requires !p.hasMore
    ensures r.0 == p.buffer
    ensures r.1 == p.(buffer := [])
    ensures Pop(r.1).received == NoMoreData
    decreases |p.buffer|
  {
    var first := Pop(p);
    if first.received.NoMoreData? then ([], p)
    else
      var rest := Drain(first.pipe);
      ([first.received.value] + rest.0, rest.1)
  }

  /**
   The writer/reader round trip: push `xs`, mark the end of writing, pop
   until `Pop` returns false; the reader sees `xs` in order and then the end.
   */
  lemma WriteThenReadRoundTrip<T>(xs: seq<T>)
    ensures var closed := SetHasMore(PushAll(NewDefault(), xs), false);
            && Drain(closed).0 == xs
            && Pop(Drain(closed).1).received == NoMoreData
  {
  }

  /** The twenty integers the example writer pushes come back as 0, 1, ..., 19. */
  lemma TwentyIntegersRoundTrip()
    ensures var xs := seq(20, i => i);
            var closed := SetHasMore(PushAll(NewDefault(), xs), false);
            Drain(closed).0 == xs
  {
    WriteThenReadRoundTrip(seq(20, i => i));
  }

  /**
   One writer and one reader sharing a pipe of the given capacity, scheduled
   so that the writer pushes whenever there is room and the reader pops
   otherwise; the writer then marks the end and the reader drains the pipe.
   The reader receives exactly `xs`, in order; the loop invariant keeps the
   capacity bound throughout.
   */
  method ProducerConsumer<T>(xs: seq<T>, capacity: nat) returns (received: seq<T>)
    ensures received == xs
  {
    var p: Pipe<T> := New(capacity);
    var i := 0;
    received := [];
    while i < |xs|
      invariant i <= |xs|
      invariant Valid(p) && p.hasMore && p.capacity == capacity
      invariant received + p.buffer == xs[..i]
      decreases 2 * (|xs| - i) + |p.buffer|
    {
      if CanPush(p) {
        assert xs[..i + 1] == xs[..i] + [xs[i]];
        p := Push(p, xs[i]);
        i := i + 1;
      } else {
        var r := Pop(p);
        received := received + [r.received.value];
        p := r.pipe;
      }
    }
    p := SetHasMore(p, false);
    var done := false;
    while !done
      invariant !p.hasMore
      invariant received + p.buffer == xs
      invariant done ==> p.buffer == []
      decreases |p.buffer| + (if done then 0 else 1)
    {
      var r := Pop(p);
      if r.received.Item? {
        received := received + [r.received.value];
        p := r.pipe;
      } else {
        done := true;
      }
    }
  }
}
