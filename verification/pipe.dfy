/**
 The bounded FIFO pipe of `Pipe.hpp`. Each critical section under the pipe's
 mutex is one transition on an immutable record; a condition-variable wait
 becomes the enabling predicate of the transition that follows it, so a
 transition whose predicate is false is one that blocks.
 */
module Pipe {

  /**
   `buffer` is `mDataList` with its front at index 0, `capacity` is
   `mCapacity` (0 means no bound) and `hasMore` is `mHasMore` (more data is
   still expected from the writers).
   */
  datatype Pipe<T> = Pipe(buffer: seq<T>, capacity: nat, hasMore: bool)

  /** The constructor's default capacity: no bound. */
  const DefaultCapacity: nat := 0

  /** `Pipe(size_t capacity)`: empty, bounded by `capacity`, expecting data. */
  function New<T>(capacity: nat): (p: Pipe<T>)
    ensures p.buffer == [] && p.capacity == capacity && p.hasMore
    ensures Valid(p)
  {
    Pipe([], capacity, true)
  }

  /** `Pipe()`: the constructor with its default argument. */
  function NewDefault<T>(): (p: Pipe<T>)
    ensures p.buffer == [] && p.hasMore
    ensures CanPush(p) && p.capacity == 0
  {
    New(DefaultCapacity)
  }

  /** The capacity bound: a bounded pipe never holds more than its capacity. */
  predicate Valid<T>(p: Pipe<T>)
  {
    p.capacity > 0 ==> |p.buffer| <= p.capacity
  }

  /** The negation of the guard of the wait loop in `Push`: there is room for one more item. */
  predicate CanPush<T>(p: Pipe<T>)
  {
    p.capacity == 0 || |p.buffer| < p.capacity
  }

  /**
   Both `Push` overloads (copy and move differ only in how the item is
   transferred): append the item at the tail once there is room.
   */
  function Push<T>(p: Pipe<T>, item: T): (q: Pipe<T>)
    requires CanPush(p)
    ensures |q.buffer| == |p.buffer| + 1
    ensures q.buffer[..|p.buffer|] == p.buffer && q.buffer[|p.buffer|..] == [item]
    ensures q.capacity == p.capacity && q.hasMore == p.hasMore
    ensures Valid(q)
  {
    p.(buffer := p.buffer + [item])
  }

  /** What `Pop` hands back: an item (it returns true) or the end of the stream (it returns false). */
  datatype Received<T> = Item(value: T) | NoMoreData

  datatype PopResult<T> = PopResult(pipe: Pipe<T>, received: Received<T>)

  /**
   The negation of the guard of the wait loop in `Pop`: an item is buffered,
   or none is expected any more. Together with the early return before the
   loop this is exactly when `Pop` does not block.
   */
  predicate CanPop<T>(p: Pipe<T>)
  {
    p.buffer != [] || !p.hasMore
  }

  /**
   `Pop`: on an empty pipe that expects no more data it reports the end of
   the stream and changes nothing; otherwise it removes and returns the
   head item, whatever `hasMore` says.
   */
  function Pop<T>(p: Pipe<T>): (r: PopResult<T>)
    requires CanPop(p)
    ensures r.received.NoMoreData? <==> p.buffer == []
    ensures r.received.NoMoreData? ==> r.pipe == p && !p.hasMore
    ensures r.received.Item? ==>
              && [r.received.value] + r.pipe.buffer == p.buffer
              && r.pipe.capacity == p.capacity
              && r.pipe.hasMore == p.hasMore
  {
    if p.buffer == [] then PopResult(p, NoMoreData)
    else PopResult(p.(buffer := p.buffer[1..]), Item(p.buffer[0]))
  }

  /** `SetHasMore`: only the flag changes. */
  function SetHasMore<T>(p: Pipe<T>, hasMore: bool): (q: Pipe<T>)
    ensures q.hasMore == hasMore
    ensures q.buffer == p.buffer && q.capacity == p.capacity
  {
    p.(hasMore := hasMore)
  }

  /** `Clear`: the pipe becomes what a default-constructed pipe is. */
  function Clear<T>(p: Pipe<T>): (q: Pipe<T>)
    ensures q == NewDefault()
  {
    Pipe([], 0, true)
  }

  /** On a full bounded pipe `Push` blocks; on an unbounded pipe it never does. */
  lemma PushBlocksExactlyWhenFull<T>(p: Pipe<T>)
    requires Valid(p)
    ensures !CanPush(p) <==> p.capacity > 0 && |p.buffer| == p.capacity
  {
  }

  /** `Pop` blocks exactly on an empty pipe that still expects data. */
  lemma PopBlocksExactlyWhenAwaitingData<T>(p: Pipe<T>)
    ensures !CanPop(p) <==> p.buffer == [] && p.hasMore
  {
  }

  /** A pushed item on an empty pipe is popped straight back and the pipe is as before. */
  lemma PushThenPopRoundTrip<T>(p: Pipe<T>, item: T)
    requires p.buffer == [] && CanPush(p)
    ensures CanPop(Push(p, item))
    ensures Pop(Push(p, item)) == PopResult(p, Item(item))
  {
  }

  /** Once the pipe is empty and closed, every further `Pop` reports the end of the stream. */
  lemma {:induction false} EndOfStreamIsFinal<T>(p: Pipe<T>, k: nat)
    requires p.buffer == [] && !p.hasMore
    ensures PopTimes(p, k) == seq(k, _ => NoMoreData)
  {
    if k > 0 {
      EndOfStreamIsFinal(Pop(p).pipe, k - 1);
      assert Pop(p).pipe == p;
    }
  }

  /** What `k` consecutive pops report on a pipe that is empty and closed. */
  function PopTimes<T>(p: Pipe<T>, k: nat): (rs: seq<Received<T>>)
    requires p.buffer == [] && !p.hasMore
    decreases k
  {
    if k == 0 then [] else [Pop(p).received] + PopTimes(Pop(p).pipe, k - 1)
  }
}
