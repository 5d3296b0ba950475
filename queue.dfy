/** The first-in-first-out container used by the level-order tree traversal
    (packages/queue/src/Queue.ts): an array read from `start` and written at
    `end`, compacted once the dead prefix outweighs the live part. */
module Queues {
  import opened Refs

  /** `Queue._MaxChunk`, that is `1 << 10`. */
  const MaxChunk: nat := 1024

  /** The compaction test of `enqueue`: `start / end <= 0.5` fails and the
      queue holds more than `MaxChunk` values. With `end > 0`, the quotient
      exceeds one half exactly when `2 * start > end`. */
  predicate ShouldCompact(start: nat, end: nat, size: nat)
  {
    2 * start > end && size > MaxChunk
  }

  class Queue<T> {
    /** `_data`: slots before `start` are stale, the live values are `data[start..end]`. */
    var data: seq<T>
    var start: nat
    var end: nat
    var size: nat

    ghost predicate Valid()
      reads this
    {
      start <= end == |data| && size == end - start
    }

    /** The live contents, front first. */
    ghost function Contents(): seq<T>
      reads this
      requires Valid()
    {
      data[start..end]
    }

    /** Enqueues every element of `init` in order. */
    constructor (init: seq<T>)
      ensures Valid() && Contents() == init
    {
      data, start, end, size := [], 0, 0, 0;
      new;
      var i := 0;
      while i < |init|
        invariant 0 <= i <= |init|
        invariant Valid() && Contents() == init[..i]
      {
        Enqueue(init[i]);
        i := i + 1;
      }
    }

    predicate IsEmpty()
      reads this
    {
      size == 0
    }

    /** Writes at `end`, then compacts the array when `ShouldCompact` holds. */
    method Enqueue(value: T)
      requires Valid()
      modifies this
      ensures Valid() && Contents() == old(Contents()) + [value]
      ensures size == old(size) + 1
      ensures if ShouldCompact(old(start), old(end) + 1, size)
              then start == 0 && end == size
              else start == old(start) && end == old(end) + 1
    {
      data := data + [value];
      end := end + 1;
      size := size + 1;
      if !ShouldCompact(start, end, size) {
        return;
      }
      data := data[start..end];
      start := 0;
      end := size;
    }

    /** Removes and returns the front value; an empty queue yields `None` and is left alone. */
    method Dequeue() returns (r: Option<T>)
      requires Valid()
      modifies this
      ensures Valid() && data == old(data) && end == old(end)
      ensures old(Contents()) == [] ==> r == None && start == old(start) && size == 0
      ensures old(Contents()) != [] ==>
        r == Some(old(Contents())[0]) && Contents() == old(Contents())[1..] && start == old(start) + 1
    {
      if IsEmpty() {
        return None;
      }
      r := Some(data[start]);
      size := size - 1;
      start := start + 1;
    }

    /** The front value, or `None` when empty; nothing changes. */
    function Peek(): (r: Option<T>)
      reads this
      requires Valid()
      ensures r == None <==> Contents() == []
      ensures r != None ==> r.value == Contents()[0]
    {
      if IsEmpty() then None else Some(data[start])
    }

    method Clear()
      requires Valid()
      modifies this
      ensures Valid() && Contents() == [] && start == end == size == 0
    {
      data := [];
      size, end, start := 0, 0, 0;
    }

    /** The live values, front to back. */
    method Values() returns (out: seq<T>)
      requires Valid()
      ensures out == Contents()
    {
      out := [];
      var i := start;
      while i < end
        invariant start <= i <= end
        invariant out == data[start..i]
      {
        out := out + [data[i]];
        i := i + 1;
      }
    }
  }
}
