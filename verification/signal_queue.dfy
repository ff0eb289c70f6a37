/**
  SignalQueue as its two callers run it when neither interrupts the other: push and pop
  update the buffer and the cursors in place, and together are a bounded FIFO. The module
  SpscRing proves the same FIFO for every interleaving of their atomic steps.
*/
module SignalQueues {
  import opened BoundedFifo
  import opened IntegerFacts

  class SignalQueue<T> {
    const size: nat
    const buffer: array<T>
    var head: nat
    var tail: nat
    // how many pushes and pops have succeeded: the cursors without their wrap-around
    ghost var pushes: nat
    ghost var pops: nat

    ghost predicate Valid()
      reads this, buffer
    {
      && 2 <= size == buffer.Length
      && head == pushes % size && tail == pops % size
      && pops <= pushes <= pops + size - 1
    }

    /** The queued items, oldest first. */
    ghost function Contents(): (items: seq<T>)
      reads this, buffer
      requires Valid()
      ensures |items| == pushes - pops
    {
      seq(pushes - pops, i requires 0 <= i < pushes - pops && Valid() reads this, buffer => buffer[(pops + i) % size])
    }

    constructor (size: nat, initial: T)
      requires 2 <= size
      ensures Valid() && fresh(buffer) && this.size == size && Contents() == []
    {
      this.size := size;
      buffer := new T[size](i => initial);
      head, tail := 0, 0;
      pushes, pops := 0, 0;
    }

    /** Appends, or leaves a full queue as it is: the incoming value is the one refused. */
    method Push(value: T) returns (ok: bool)
      requires Valid()
      modifies this`head, this`pushes, buffer
      ensures Valid()
      ensures ok <==> |old(Contents())| < size - 1
      ensures Contents() == Pushed(size - 1, old(Contents()), value)
    {
      var next := (head + 1) % size;
      NextResidue(pushes, size);
      CursorsMeet(pushes + 1, pops, size);
      if next == tail {
        return false;
      }
      forall i | pops <= i < pushes
        ensures i % size != head
      {
        if i % size == head {
          SameResidue(i, pushes, size);
        }
      }
      buffer[head] := value;
      head := next;
      pushes := pushes + 1;
      assert Contents() == old(Contents()) + [value];
      return true;
    }

    /** Takes the oldest item, or leaves `out` and an empty queue as they are. */
    method Pop(out: T) returns (ok: bool, popped: T)
      requires Valid()
      modifies this`tail, this`pops
      ensures Valid()
      ensures ok <==> old(Contents()) != []
      ensures if ok then [popped] + Contents() == old(Contents())
              else popped == out && Contents() == []
    {
      if tail == head {
        CursorsMeet(pushes, pops, size);
        return false, out;
      }
      popped := buffer[tail];
      NextResidue(pops, size);
      assert old(Contents())[0] == popped;
      tail := (tail + 1) % size;
      pops := pops + 1;
      assert Contents() == old(Contents())[1..];
      return true, popped;
    }
  }
}
