/** The abstract queue: a bounded FIFO, as values and as a labelled transition system. */
module BoundedFifo {

  /** A push when `capacity` items are held is refused; the held items stay. */
  function Pushed<T>(capacity: nat, queue: seq<T>, value: T): seq<T> {
    if |queue| < capacity then queue + [value] else queue
  }

  datatype Event<T> = Enqueued(value: T) | Dequeued(value: T) | Silent

  ghost predicate FifoStep<T>(capacity: nat, queue: seq<T>, event: Event<T>, next: seq<T>) {
    match event
    case Enqueued(value) => |queue| < capacity && next == queue + [value]
    case Dequeued(value) => queue == [value] + next
    case Silent => next == queue
  }

  /** `events` takes the queue from `first` to `last`. */
  ghost predicate FifoRun<T(!new)>(capacity: nat, first: seq<T>, events: seq<Event<T>>, last: seq<T>)
    decreases events
  {
    if events == [] then first == last
    else exists next :: FifoStep(capacity, first, events[0], next) && FifoRun(capacity, next, events[1..], last)
  }

  ghost function EnqueuedIn<T>(events: seq<Event<T>>): seq<T> {
    if events == [] then []
    else if events[0].Enqueued? then [events[0].value] + EnqueuedIn(events[1..])
    else EnqueuedIn(events[1..])
  }

  ghost function DequeuedIn<T>(events: seq<Event<T>>): seq<T> {
    if events == [] then []
    else if events[0].Dequeued? then [events[0].value] + DequeuedIn(events[1..])
    else DequeuedIn(events[1..])
  }

  lemma MovedAcross<T>(first: seq<T>, value: T, rest: seq<T>)
    ensures first + ([value] + rest) == first + [value] + rest
  {}

  lemma MovedOut<T>(value: T, a: seq<T>, b: seq<T>)
    ensures [value] + a + b == [value] + (a + b)
  {}

  /** First in, first out, nothing lost, and never more than the capacity. */
  lemma {:induction false} RunIsFifo<T(!new)>(capacity: nat, first: seq<T>, events: seq<Event<T>>, last: seq<T>)
    requires FifoRun(capacity, first, events, last)
    ensures first + EnqueuedIn(events) == DequeuedIn(events) + last
    ensures |first| <= capacity ==> |last| <= capacity
    decreases events
  {
    if events != [] {
      var next :| FifoStep(capacity, first, events[0], next) && FifoRun(capacity, next, events[1..], last);
      RunIsFifo(capacity, next, events[1..], last);
      var enqueued, dequeued := EnqueuedIn(events[1..]), DequeuedIn(events[1..]);
      hide FifoRun;
      match events[0]
      case Enqueued(value) => MovedAcross(first, value, enqueued);
      case Dequeued(value) =>
        MovedOut(value, next, enqueued);
        MovedOut(value, dequeued, last);
      case Silent =>
    }
  }
}
