/**
 * The FIFO queue of the game engine (src/game/queue.ts).
 *
 * The queue keeps its elements in a dictionary keyed by ever-increasing
 * integer counters: `tail` is the key the next enqueued element gets and
 * `head` the key of the oldest element still present. Nothing is ever
 * renumbered, so the keys in use are exactly `head .. tail - 1`.
 */
module Queues {

  class Queue<T> {
    // implementation, as in the source
    var elements: map<int, T>
    var head: int
    var tail: int

    // abstract view: the elements from the oldest to the newest
    ghost var Contents: seq<T>

    /** Ties the counters and the dictionary to the abstract sequence. */
    ghost predicate Valid()
      reads this
    {
      && 0 <= head <= tail
      && |Contents| == tail - head
      && (forall k :: k in elements <==> head <= k < tail)
      && (forall k :: head <= k < tail ==> elements[k] == Contents[k - head])
    }

    /** A fresh queue: no elements, both counters at zero. */
    constructor ()
      ensures Valid()
      ensures Contents == []
      ensures head == 0 && tail == 0
    {
      elements := map[];
      head := 0;
      tail := 0;
      Contents := [];
    }

    /** Appends `xs` one by one, in argument order, after the existing elements. */
    method Enqueue(xs: seq<T>)
      requires Valid()
      modifies this
      ensures Valid()
      ensures Contents == old(Contents) + xs
      ensures head == old(head) && tail == old(tail) + |xs|
    {
      var i := 0;
      while i < |xs|
        invariant 0 <= i <= |xs|
        invariant Valid()
        invariant Contents == old(Contents) + xs[..i]
        invariant head == old(head) && tail == old(tail) + i
      {
        elements := elements[tail := xs[i]];
        tail := tail + 1;
        Contents := Contents + [xs[i]];
        i := i + 1;
      }
      assert xs[..i] == xs;
    }

    /** Removes and returns the oldest element. */
    method Dequeue() returns (item: T)
      requires Valid()
      requires Contents != []
      modifies this
      ensures Valid()
      ensures item == old(Contents)[0]
      ensures Contents == old(Contents)[1..]
      ensures head == old(head) + 1 && tail == old(tail)
    {
      item := elements[head];
      elements := elements - {head};
      head := head + 1;
      Contents := Contents[1..];
    }

    /** The oldest element, the one the next Dequeue returns; nothing changes. */
    method Peek() returns (item: T)
      requires Valid()
      requires Contents != []
      ensures item == Contents[0]
    {
      item := elements[head];
    }

    /** The number of elements present. */
    function Length(): (n: int)
      reads this
      requires Valid()
      ensures n == |Contents|
    {
      tail - head
    }

    /** Whether no element is present. */
    function IsEmpty(): (b: bool)
      reads this
      requires Valid()
      ensures b <==> Contents == []
    {
      Length() == 0
    }
  }

  /**
   * FIFO order: a fresh queue that is given `xs` and then emptied by
   * repeated Dequeue hands the elements back in exactly the order they
   * were enqueued.
   */
  method DrainInOrder<T>(xs: seq<T>) returns (out: seq<T>)
    ensures out == xs
  {
    var q := new Queue<T>();
    q.Enqueue(xs);
    out := [];
    while !q.IsEmpty()
      invariant q.Valid()
      invariant out + q.Contents == xs
      decreases |q.Contents|
    {
      var x := q.Dequeue();
      out := out + [x];
    }
  }
}
