// A bounded FIFO queue over a circular buffer: the elements live in the
// slots from takeIndex onwards, wrapping round at the end of the array,
// and the next element goes in at putIndex. Locking and signalling are
// not modelled: a wait that only another thread could end becomes a
// precondition, and a timed wait runs against a clock passed in.

module BlockingQueues {
  import opened Optional

  /** Slot i places past slot take in a buffer of n slots, wrapping round
      once past the end. */
  function Slot(take: nat, i: nat, n: nat): (r: nat)
    requires take < n && i <= n
    ensures r < n
  {
    if take + i < n then take + i else take + i - n
  }

  /** Slot is the remainder of take + i by n. */
  lemma SlotIsMod(take: nat, i: nat, n: nat)
    requires take < n && i <= n
    ensures Slot(take, i, n) == (take + i) % n
  {
    var a := take + i;
    if a < n {
      assert a % n == a;
    } else {
      assert a % n == a - n;
    }
  }

  /** The count elements of a circular buffer starting at slot take,
      oldest first. */
  function Window<E>(items: seq<E>, take: nat, count: nat): (r: seq<E>)
    requires count <= |items| && (count == 0 || take < |items|)
    ensures |r| == count
  {
    seq(count, i requires 0 <= i < count => items[Slot(take, i, |items|)])
  }

  /** The slot after p in a buffer of n slots: p + 1, or 0 past the end. */
  function Next(p: nat, n: nat): (r: nat)
    requires p < n
    ensures r == Slot(p, 1, n)
  {
    if p + 1 == n then 0 else p + 1
  }

  /** Writing x into the slot just past the window adds x at its end and
      changes nothing in it. */
  lemma WindowEnqueue<E>(items: seq<E>, take: nat, count: nat, x: E)
    requires count < |items| && take < |items|
    ensures Window(items[Slot(take, count, |items|) := x], take, count + 1) == Window(items, take, count) + [x]
  {
    var n := |items|;
    var after := Window(items[Slot(take, count, n) := x], take, count + 1);
    var before := Window(items, take, count);
    forall i | 0 <= i < count
      ensures after[i] == before[i]
    {
      assert Slot(take, i, n) != Slot(take, count, n);
    }
  }

  /** Advancing the take index drops the oldest element of the window. */
  lemma WindowDequeue<E>(items: seq<E>, take: nat, count: nat)
    requires 0 < count <= |items| && take < |items|
    ensures Window(items, take, count)[0] == items[take]
    ensures Window(items, Next(take, |items|), count - 1) == Window(items, take, count)[1..]
  {
    var n := |items|;
    var after := Window(items, Next(take, n), count - 1);
    var before := Window(items, take, count);
    forall i | 0 <= i < count - 1
      ensures after[i] == before[i + 1]
    {
      assert Slot(Next(take, n), i, n) == Slot(take, i + 1, n);
    }
  }

  /** A buffer of items.Length slots; the two indices and the count. */
  class BlockingQueue<E(0)> {
    const items: array<E>
    var takeIndex: nat
    var putIndex: nat
    var count: nat

    /** The count elements sit from takeIndex onwards, and putIndex is the
        slot just past them. */
    ghost predicate Valid()
      reads this
    {
      && count <= items.Length
      && (items.Length == 0 ==> takeIndex == 0 && putIndex == 0)
      && (items.Length > 0 ==>
            takeIndex < items.Length && putIndex == Slot(takeIndex, count, items.Length))
    }

    /** The elements held, oldest first. */
    ghost function Contents(): seq<E>
      reads this, items
      requires Valid()
    {
      Window(items[..], takeIndex, count)
    }

    constructor (capacity: nat)
      ensures Valid() && fresh(items) && items.Length == capacity
      ensures takeIndex == 0 && putIndex == 0 && count == 0 && Contents() == []
    {
      items := new E[capacity];
      takeIndex, putIndex, count := 0, 0, 0;
    }

    /** Writes x at putIndex, then advances putIndex round the buffer. */
    method Enqueue(x: E)
      requires Valid() && count < items.Length
      modifies this`putIndex, this`count, items
      ensures Valid() && Contents() == old(Contents()) + [x]
      ensures items[..] == old(items[..])[old(putIndex) := x]
      ensures putIndex == Slot(old(putIndex), 1, items.Length)
      ensures count == old(count) + 1
    {
      WindowEnqueue(items[..], takeIndex, count, x);
      items[putIndex] := x;
      putIndex := putIndex + 1;
      if putIndex == items.Length {
        putIndex := 0;
      }
      count := count + 1;
    }

    /** Reads the slot at takeIndex, then advances takeIndex round the
        buffer. The slot is left as it was. */
    method Dequeue() returns (e: E)
      requires Valid() && 0 < count
      modifies this`takeIndex, this`count
      ensures Valid() && [e] + Contents() == old(Contents())
      ensures e == old(items[takeIndex])
      ensures takeIndex == Slot(old(takeIndex), 1, items.Length)
      ensures count == old(count) - 1
    {
      WindowDequeue(items[..], takeIndex, count);
      e := items[takeIndex];
      takeIndex := takeIndex + 1;
      if takeIndex == items.Length {
        takeIndex := 0;
      }
      count := count - 1;
    }

    /** Adds e at the tail; the queue must have room, since waiting for
        room is left to other threads. */
    method Put(e: E)
      requires Valid() && count < items.Length
      modifies this`putIndex, this`count, items
      ensures Valid() && Contents() == old(Contents()) + [e]
    {
      Enqueue(e);
    }

    /** Removes the head; the queue must hold an element. */
    method Take() returns (e: E)
      requires Valid() && 0 < count
      modifies this`takeIndex, this`count
      ensures Valid() && old(Contents()) == [e] + Contents()
    {
      e := Dequeue();
    }

    /** Adds e unless the queue stays full until the time runs out.
        `await` is the clock: given the time left it returns the time left
        after waiting, which is less. */
    method Offer(e: E, nanos: int, await: int -> int) returns (r: bool)
      requires Valid()
      requires forall t :: 0 < t ==> await(t) < t
      modifies this`putIndex, this`count, items
      ensures Valid()
      ensures r <==> old(count) < items.Length
      ensures r ==> Contents() == old(Contents()) + [e]
      ensures !r ==> Contents() == old(Contents()) && unchanged(this, items)
    {
      var left := nanos;
      while count == items.Length
        invariant Valid() && unchanged(this, items)
        decreases if left <= 0 then 0 else left
      {
        if left <= 0 {
          return false;
        }
        left := await(left);
      }
      Enqueue(e);
      return true;
    }

    /** Removes the head unless the queue stays empty until the time runs
        out, in which case the result is None. */
    method Poll(nanos: int, await: int -> int) returns (r: Option<E>)
      requires Valid()
      requires forall t :: 0 < t ==> await(t) < t
      modifies this`takeIndex, this`count
      ensures Valid()
      ensures r.Some? <==> old(count) > 0
      ensures r.Some? ==> old(Contents()) == [r.value] + Contents()
      ensures r.None? ==> Contents() == old(Contents()) && unchanged(this)
    {
      var left := nanos;
      while count == 0
        invariant Valid() && unchanged(this)
        decreases if left <= 0 then 0 else left
      {
        if left <= 0 {
          return None;
        }
        left := await(left);
      }
      var e := Dequeue();
      return Some(e);
    }
  }
}
