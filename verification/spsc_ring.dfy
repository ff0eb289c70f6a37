/**
  The single-producer / single-consumer ring as a state machine over its atomic steps.

  Memory is modelled as C++ orders it (release and acquire operations, ISO C++17 sections
  32.4 and 4.7.1). Each cursor keeps the whole sequence of values stored to it. A load may
  return any of them that is not older than the newest one the loading thread already
  knows. A store publishes, with its value, everything its thread knows; an acquire load
  learns what the store it reads from published, a relaxed load does not. The slots are
  plain memory: a read may return any write that a known later write has not hidden, and
  an access to a slot races when the other thread's conflicting access is not yet known.

  Nothing here assumes which load returns what: that the producer reads its own newest
  cursor, that payloads are visible and that accesses do not race are all proved.
*/
module SpscRing {
  import opened BoundedFifo
  import opened IntegerFacts

  function Max(a: nat, b: nat): nat {
    if a < b then b else a
  }

  /** What a thread knows to have happened: the newest store it knows of each cursor, and
      how many slot writes and slot reads happen before its next step. */
  datatype View = View(head: nat, tail: nat, written: nat, copied: nat)
  {
    function Join(other: View): View {
      View(Max(head, other.head), Max(tail, other.tail), Max(written, other.written), Max(copied, other.copied))
    }
  }

  /** One store to a cursor, with the view it releases. */
  datatype Store = Store(value: nat, view: View)

  datatype Write<T> = Write(slot: nat, value: T)

  /** Where push is: each constructor carries the locals computed so far. */
  datatype Producer<T> =
    | PushIdle
    | PushCalled(value: T)
    | HeadLoaded(value: T, head: nat)
    | RoomSeen(value: T, head: nat)
    | SlotWritten(value: T, head: nat)

  /** Where pop is. */
  datatype Consumer<T> =
    | PopIdle
    | PopCalled
    | TailLoaded(tail: nat)
    | ItemSeen(tail: nat)
    | SlotCopied(tail: nat, out: T)

  datatype Ring<T> = Ring(
    size: nat,
    initial: T,
    headStores: seq<Store>,
    tailStores: seq<Store>,
    slotWrites: seq<Write<T>>,
    slotReads: seq<nat>,
    producer: Producer<T>,
    producerView: View,
    consumer: Consumer<T>,
    consumerView: View,
    accepted: seq<T>,   // values whose head store happened, in order
    popped: seq<T>)     // values whose tail store happened, in order
  {
    /** Items stored and not yet released: the abstract queue. */
    function Queue(): seq<T>
      requires |popped| <= |accepted|
    {
      accepted[|popped|..]
    }
  }

  /** One atomic step. Loads carry which store they read from, a slot read which write it
      returns (-1 for the slot's initial value). */
  datatype Step<T> =
    | CallPush(value: T)
    | LoadOwnHead(from: nat)
    | LoadTail(from: nat)
    | WriteSlot
    | StoreHead
    | CallPop
    | LoadOwnTail(from: nat)
    | LoadHead(from: nat)
    | ReadSlot(write: int)
    | StoreTail

  predicate IsConsumerStep<T>(step: Step<T>) {
    step.CallPop? || step.LoadOwnTail? || step.LoadHead? || step.ReadSlot? || step.StoreTail?
  }

  function Initial<T>(size: nat, initial: T): Ring<T> {
    var start := View(0, 0, 0, 0);
    Ring(size, initial, [Store(0, start)], [Store(0, start)], [], [],
         PushIdle, start, PopIdle, start, [], [])
  }

  /** Write `i` to `slot` is not hidden by a later write among the first `known`. */
  ghost predicate Visible<T>(writes: seq<Write<T>>, known: nat, slot: nat, i: int) {
    && -1 <= i < |writes|
    && (0 <= i ==> writes[i].slot == slot)
    && forall k :: i < k < |writes| && k < known && 0 <= k ==> writes[k].slot != slot
  }

  ghost predicate Enabled<T>(r: Ring<T>, step: Step<T>)
  {
    match step
    case CallPush(_) => r.producer.PushIdle?
    case LoadOwnHead(from) => r.producer.PushCalled? && r.producerView.head <= from < |r.headStores|
    case LoadTail(from) => r.producer.HeadLoaded? && r.producerView.tail <= from < |r.tailStores|
    case WriteSlot => r.producer.RoomSeen?
    case StoreHead => r.producer.SlotWritten?
    case CallPop => r.consumer.PopIdle?
    case LoadOwnTail(from) => r.consumer.PopCalled? && r.consumerView.tail <= from < |r.tailStores|
    case LoadHead(from) => r.consumer.TailLoaded? && r.consumerView.head <= from < |r.headStores|
    case ReadSlot(i) => r.consumer.ItemSeen? && Visible(r.slotWrites, r.consumerView.written, r.consumer.tail, i)
    case StoreTail => r.consumer.SlotCopied?
  }

  /** `next` of push, and the consumer's new cursor. */
  function Next(cursor: nat, size: nat): nat
    requires 0 < size
  {
    (cursor + 1) % size
  }

  ghost function Apply<T>(r: Ring<T>, step: Step<T>): Ring<T>
    requires 0 < r.size && Enabled(r, step)
  {
    match step
    case CallPush(value) => r.(producer := PushCalled(value))
    case LoadOwnHead(from) =>
      r.(producer := HeadLoaded(r.producer.value, r.headStores[from].value),
         producerView := r.producerView.(head := from))
    case LoadTail(from) =>
      var full := Next(r.producer.head, r.size) == r.tailStores[from].value;
      r.(producer := if full then PushIdle else RoomSeen(r.producer.value, r.producer.head),
         producerView := r.producerView.Join(r.tailStores[from].view).(tail := from))
    case WriteSlot =>
      r.(producer := SlotWritten(r.producer.value, r.producer.head),
         slotWrites := r.slotWrites + [Write(r.producer.head, r.producer.value)],
         producerView := r.producerView.(written := r.producerView.written + 1))
    case StoreHead =>
      var view := r.producerView.(head := |r.headStores|);
      r.(producer := PushIdle,
         headStores := r.headStores + [Store(Next(r.producer.head, r.size), view)],
         producerView := view,
         accepted := r.accepted + [r.producer.value])
    case CallPop => r.(consumer := PopCalled)
    case LoadOwnTail(from) =>
      r.(consumer := TailLoaded(r.tailStores[from].value),
         consumerView := r.consumerView.(tail := from))
    case LoadHead(from) =>
      var empty := r.consumer.tail == r.headStores[from].value;
      r.(consumer := if empty then PopIdle else ItemSeen(r.consumer.tail),
         consumerView := r.consumerView.Join(r.headStores[from].view).(head := from))
    case ReadSlot(i) =>
      r.(consumer := SlotCopied(r.consumer.tail, if i < 0 then r.initial else r.slotWrites[i].value),
         slotReads := r.slotReads + [r.consumer.tail],
         consumerView := r.consumerView.(copied := r.consumerView.copied + 1))
    case StoreTail =>
      var view := r.consumerView.(tail := |r.tailStores|);
      r.(consumer := PopIdle,
         tailStores := r.tailStores + [Store(Next(r.consumer.tail, r.size), view)],
         consumerView := view,
         popped := r.popped + [r.consumer.out])
  }

  /** A run: each step enabled where it is taken. */
  ghost predicate Legal<T>(r: Ring<T>, steps: seq<Step<T>>)
    decreases steps
  {
    0 < r.size && (steps != [] ==> Enabled(r, steps[0]) && Legal(Apply(r, steps[0]), steps[1..]))
  }

  ghost function Run<T>(r: Ring<T>, steps: seq<Step<T>>): Ring<T>
    requires Legal(r, steps)
    decreases steps
  {
    if steps == [] then r else Run(Apply(r, steps[0]), steps[1..])
  }

  // ---------- the invariant ----------

  /** Views never get ahead of the logs, knowing the k-th head store means knowing the
      first k slot writes, and knowing the k-th tail store means knowing the first k slot
      reads: this is what makes payloads visible. */
  ghost predicate Sound<T>(r: Ring<T>, view: View) {
    && view.head <= view.written <= |r.slotWrites| && view.head < |r.headStores|
    && view.tail <= view.copied <= |r.slotReads| && view.tail < |r.tailStores|
  }

  /** The k-th store to a cursor wrote k modulo the size. */
  ghost predicate CursorsOk<T>(r: Ring<T>)
    requires 0 < r.size
  {
    && |r.headStores| == |r.accepted| + 1 && |r.tailStores| == |r.popped| + 1
    && (forall k :: 0 <= k < |r.headStores| ==>
          && r.headStores[k].value == k % r.size
          && r.headStores[k].view.head == k
          && Sound(r, r.headStores[k].view))
    && (forall k :: 0 <= k < |r.tailStores| ==>
          && r.tailStores[k].value == k % r.size
          && r.tailStores[k].view.tail == k
          && Sound(r, r.tailStores[k].view))
  }

  /** Slots are written and read round the ring, in order. */
  ghost predicate SlotsOk<T>(r: Ring<T>)
    requires 0 < r.size
  {
    && |r.slotWrites| == |r.accepted| + (if r.producer.SlotWritten? then 1 else 0)
    && (forall k :: 0 <= k < |r.slotWrites| ==>
          && r.slotWrites[k].slot == k % r.size
          && r.slotWrites[k].value == if k < |r.accepted| then r.accepted[k] else r.producer.value)
    && |r.slotReads| == |r.popped| + (if r.consumer.SlotCopied? then 1 else 0)
    && (forall k :: 0 <= k < |r.slotReads| ==> r.slotReads[k] == k % r.size)
  }

  /** The producer knows its own actions; what it has seen of the tail bounds its lead. */
  ghost predicate ProducerOk<T>(r: Ring<T>)
    requires 0 < r.size
  {
    var h, view := |r.accepted|, r.producerView;
    && Sound(r, view) && view.head == h && view.written == |r.slotWrites|
    && h <= view.tail + r.size - 1
    && (r.producer.HeadLoaded? || r.producer.RoomSeen? || r.producer.SlotWritten? ==>
          r.producer.head == h % r.size)
    && (r.producer.RoomSeen? || r.producer.SlotWritten? ==> h <= view.tail + r.size - 2)
  }

  /** The consumer knows its own actions; it has seen every head it popped below. */
  ghost predicate ConsumerOk<T>(r: Ring<T>)
    requires 0 < r.size
  {
    var t, view := |r.popped|, r.consumerView;
    && Sound(r, view) && view.tail == t && view.copied == |r.slotReads|
    && t <= view.head
    && (r.consumer.TailLoaded? || r.consumer.ItemSeen? || r.consumer.SlotCopied? ==>
          r.consumer.tail == t % r.size)
    && (r.consumer.ItemSeen? || r.consumer.SlotCopied? ==> t < view.head)
    && (r.consumer.SlotCopied? ==> t < |r.accepted| && r.consumer.out == r.accepted[t])
    && r.popped <= r.accepted
  }

  ghost predicate Inv<T>(r: Ring<T>) {
    2 <= r.size && CursorsOk(r) && SlotsOk(r) && ProducerOk(r) && ConsumerOk(r)
  }

  lemma InvInitially<T>(size: nat, initial: T)
    requires 2 <= size
    ensures Inv(Initial(size, initial))
  {}

  /** Payload visibility: the only write the consumer's read can return is the one that
      filled the oldest queued item. */
  lemma ReadReturnsOldest<T>(r: Ring<T>, i: int)
    requires Inv(r) && r.consumer.ItemSeen?
    requires Visible(r.slotWrites, r.consumerView.written, r.consumer.tail, i)
    ensures |r.popped| < |r.accepted| && i == |r.popped|
    ensures r.slotWrites[i].value == r.accepted[|r.popped|]
  {
    var t := |r.popped|;
    assert r.slotWrites[t].slot == r.consumer.tail;
    assert t <= i;
    SameResidue(t, i, r.size);
  }

  lemma FullOnlyAtCapacity<T>(r: Ring<T>, from: nat)
    requires Inv(r) && Enabled(r, LoadTail(from)) && r.producer.HeadLoaded?
    ensures Next(r.producer.head, r.size) == r.tailStores[from].value <==> |r.accepted| == from + r.size - 1
  {
    NextResidue(|r.accepted|, r.size);
    CursorsMeet(|r.accepted| + 1, from, r.size);
  }

  lemma EmptyOnlyAtTail<T>(r: Ring<T>, from: nat)
    requires Inv(r) && Enabled(r, LoadHead(from))
    ensures r.consumer.tail == r.headStores[from].value <==> |r.popped| == from
  {
    CursorsMeet(from, |r.popped|, r.size);
  }

  lemma StoreHeadCursors<T>(r: Ring<T>)
    requires Inv(r) && r.producer.SlotWritten?
    ensures CursorsOk(Apply(r, StoreHead))
  {
    NextResidue(|r.accepted|, r.size);
  }

  lemma StoreHeadStep<T>(r: Ring<T>)
    requires Inv(r) && r.producer.SlotWritten?
    ensures Inv(Apply(r, StoreHead))
  {
    StoreHeadCursors(r);
    assert |r.headStores| == |r.accepted| + 1 && |r.tailStores| == |r.popped| + 1;
    hide CursorsOk;
  }

  lemma StoreTailCursors<T>(r: Ring<T>)
    requires Inv(r) && r.consumer.SlotCopied?
    ensures CursorsOk(Apply(r, StoreTail))
  {
    NextResidue(|r.popped|, r.size);
  }

  lemma StoreTailStep<T>(r: Ring<T>)
    requires Inv(r) && r.consumer.SlotCopied?
    ensures Inv(Apply(r, StoreTail))
  {
    StoreTailCursors(r);
    assert |r.headStores| == |r.accepted| + 1 && |r.tailStores| == |r.popped| + 1;
    hide CursorsOk;
  }

  lemma ReadSlotStep<T>(r: Ring<T>, i: int)
    requires Inv(r) && Enabled(r, ReadSlot(i))
    ensures Inv(Apply(r, ReadSlot(i)))
  {
    ReadReturnsOldest(r, i);
  }

  lemma LoadTailStep<T>(r: Ring<T>, from: nat)
    requires Inv(r) && Enabled(r, LoadTail(from))
    ensures Inv(Apply(r, LoadTail(from)))
  {
    FullOnlyAtCapacity(r, from);
  }

  lemma LoadHeadStep<T>(r: Ring<T>, from: nat)
    requires Inv(r) && Enabled(r, LoadHead(from))
    ensures Inv(Apply(r, LoadHead(from)))
  {
    EmptyOnlyAtTail(r, from);
  }

  lemma LocalStep<T>(r: Ring<T>, step: Step<T>)
    requires Inv(r) && Enabled(r, step)
    requires step.CallPush? || step.LoadOwnHead? || step.WriteSlot? || step.CallPop? || step.LoadOwnTail?
    ensures Inv(Apply(r, step))
  {}

  lemma InvPreserved<T>(r: Ring<T>, step: Step<T>)
    requires Inv(r) && Enabled(r, step)
    ensures Inv(Apply(r, step))
  {
    match step
    case StoreHead => StoreHeadStep(r);
    case StoreTail => StoreTailStep(r);
    case ReadSlot(i) => ReadSlotStep(r, i);
    case LoadTail(from) => LoadTailStep(r, from);
    case LoadHead(from) => LoadHeadStep(r, from);
    case _ => LocalStep(r, step);
  }

  lemma {:induction false} RunInv<T>(r: Ring<T>, steps: seq<Step<T>>)
    requires Inv(r) && Legal(r, steps)
    ensures Inv(Run(r, steps))
    decreases steps
  {
    if steps != [] {
      InvPreserved(r, steps[0]);
      RunInv(Apply(r, steps[0]), steps[1..]);
    }
  }

  // ---------- what every run keeps ----------

  ghost predicate Reachable<T(!new)>(r: Ring<T>) {
    2 <= r.size && exists steps ::
      Legal(Initial(r.size, r.initial), steps) && r == Run(Initial(r.size, r.initial), steps)
  }

  /** Every reachable state satisfies the invariant; what follows from the invariant is
      stated from it, so that it also holds of a ring that is part of a larger machine. */
  lemma ReachableInv<T(!new)>(r: Ring<T>)
    requires Reachable(r)
    ensures Inv(r)
  {
    var steps :| Legal(Initial(r.size, r.initial), steps) && r == Run(Initial(r.size, r.initial), steps);
    RunInv(Initial(r.size, r.initial), steps);
  }

  /** What was popped is a prefix of what was accepted, and never more than size - 1
      items are queued. */
  lemma PopsArePrefix<T(!new)>(r: Ring<T>)
    requires Reachable(r)
    ensures r.popped <= r.accepted && |r.accepted| - |r.popped| <= r.size - 1
    ensures r.popped + r.Queue() == r.accepted
  {
    ReachableInv(r);
  }

  /** From the full check to the head store, and from the empty check to the tail store. */
  ghost predicate Writing<T>(r: Ring<T>) {
    r.producer.RoomSeen? || r.producer.SlotWritten?
  }

  ghost predicate Copying<T>(r: Ring<T>) {
    r.consumer.ItemSeen? || r.consumer.SlotCopied?
  }

  ghost function ProducerSlot<T>(r: Ring<T>): nat
    requires Writing(r)
  {
    r.producer.head
  }

  ghost function ConsumerSlot<T>(r: Ring<T>): nat
    requires Copying(r)
  {
    r.consumer.tail
  }

  /** The slot being written holds no unread item and is not the slot being copied. */
  lemma SlotExclusive<T>(r: Ring<T>)
    requires Inv(r) && Writing(r)
    ensures forall k :: |r.popped| <= k < |r.accepted| ==> k % r.size != ProducerSlot(r)
    ensures Copying(r) ==> ConsumerSlot(r) != ProducerSlot(r)
  {
    forall k | |r.popped| <= k < |r.accepted|
      ensures k % r.size != ProducerSlot(r)
    {
      if k % r.size == ProducerSlot(r) {
        SameResidue(k, |r.accepted|, r.size);
      }
    }
  }

  /** A conflicting access by the other thread that the accessing thread does not know of. */
  ghost predicate WriteRaces<T>(r: Ring<T>) {
    && r.producer.RoomSeen?
    && exists k :: r.producerView.copied <= k < |r.slotReads| && r.slotReads[k] == r.producer.head
  }

  ghost predicate ReadRaces<T>(r: Ring<T>) {
    && r.consumer.ItemSeen?
    && exists k :: r.consumerView.written <= k < |r.slotWrites| && r.slotWrites[k].slot == r.consumer.tail
  }

  /** Every slot access happens after the conflicting accesses of the other thread. */
  lemma RaceFree<T>(r: Ring<T>)
    requires Inv(r)
    ensures !WriteRaces(r) && !ReadRaces(r)
  {
    if WriteRaces(r) {
      var k :| r.producerView.copied <= k < |r.slotReads| && r.slotReads[k] == r.producer.head;
      SameResidue(k, |r.accepted|, r.size);
    }
    if ReadRaces(r) {
      var k :| r.consumerView.written <= k < |r.slotWrites| && r.slotWrites[k].slot == r.consumer.tail;
      SameResidue(k, |r.popped|, r.size);
    }
  }

  lemma OldestIsReadable<T>(r: Ring<T>)
    requires Inv(r) && r.consumer.ItemSeen?
    ensures Enabled(r, ReadSlot(|r.popped|))
  {
    var t := |r.popped|;
    forall k | t < k < |r.slotWrites|
      ensures r.slotWrites[k].slot != r.consumer.tail
    {
      if r.slotWrites[k].slot == r.consumer.tail {
        SameResidue(t, k, r.size);
      }
    }
  }

  /** A slot read has exactly one possible result: the payload stored with the oldest
      queued item. */
  lemma PayloadVisible<T>(r: Ring<T>, i: int)
    requires Inv(r) && r.consumer.ItemSeen?
    ensures |r.popped| < |r.accepted|
    ensures Enabled(r, ReadSlot(i)) <==> i == |r.popped|
    ensures Enabled(r, ReadSlot(i)) ==> Apply(r, ReadSlot(i)).consumer.out == r.Queue()[0]
  {
    OldestIsReadable(r);
    if Enabled(r, ReadSlot(i)) {
      ReadReturnsOldest(r, i);
    }
  }

  /** A relaxed load of a thread's own cursor can only return its own newest store. */
  lemma OwnCursorIsCurrent<T(!new)>(r: Ring<T>, from: nat)
    requires Reachable(r)
    ensures Enabled(r, LoadOwnHead(from)) ==> from == |r.accepted|
    ensures Enabled(r, LoadOwnTail(from)) ==> from == |r.popped|
  {
    ReachableInv(r);
  }

  // ---------- what one step changes ----------

  lemma ProducerStep<T>(r: Ring<T>, step: Step<T>)
    requires 0 < r.size && Enabled(r, step) && !IsConsumerStep(step)
    ensures var s := Apply(r, step);
            && s.size == r.size && s.initial == r.initial && s.consumer == r.consumer && s.popped == r.popped
            && s.accepted == (if step.StoreHead? then r.accepted + [r.producer.value] else r.accepted)
            && (s.producer.PushIdle? ==> step.LoadTail? || step.StoreHead?)
            && (step.StoreHead? ==> s.producer.PushIdle?)
            && (step.CallPush? <==> r.producer.PushIdle?)
            && (!step.CallPush? && !s.producer.PushIdle? ==> s.producer.value == r.producer.value)
  {}

  lemma ConsumerStep<T>(r: Ring<T>, step: Step<T>)
    requires 0 < r.size && Enabled(r, step) && IsConsumerStep(step)
    ensures var s := Apply(r, step);
            && s.size == r.size && s.initial == r.initial && s.producer == r.producer
            && s.producerView == r.producerView && s.accepted == r.accepted
            && s.popped == (if step.StoreTail? then r.popped + [r.consumer.out] else r.popped)
            && (s.consumer.PopIdle? ==> step.LoadHead? || step.StoreTail?)
            && (step.StoreTail? ==> s.consumer.PopIdle?)
            && (step.CallPop? <==> r.consumer.PopIdle?)
  {}

  // ---------- refinement of a bounded FIFO ----------

  ghost function EventOf<T>(r: Ring<T>, step: Step<T>): Event<T>
    requires Enabled(r, step)
  {
    match step
    case StoreHead => Enqueued(r.producer.value)
    case StoreTail => Dequeued(r.consumer.out)
    case _ => Silent
  }

  lemma StepRefines<T>(r: Ring<T>, step: Step<T>)
    requires Inv(r) && Enabled(r, step)
    ensures Inv(Apply(r, step))
    ensures FifoStep(r.size - 1, r.Queue(), EventOf(r, step), Apply(r, step).Queue())
  {
    InvPreserved(r, step);
  }

  ghost function Events<T>(r: Ring<T>, steps: seq<Step<T>>): seq<Event<T>>
    requires Legal(r, steps)
    decreases steps
  {
    if steps == [] then [] else [EventOf(r, steps[0])] + Events(Apply(r, steps[0]), steps[1..])
  }

  lemma {:induction false} RunRefines<T(!new)>(r: Ring<T>, steps: seq<Step<T>>)
    requires Inv(r) && Legal(r, steps)
    ensures Inv(Run(r, steps))
    ensures FifoRun(r.size - 1, r.Queue(), Events(r, steps), Run(r, steps).Queue())
    decreases steps
  {
    hide Inv, EventOf, FifoStep;
    if steps != [] {
      var next := Apply(r, steps[0]);
      StepRefines(r, steps[0]);
      RunRefines(next, steps[1..]);
      assert Events(r, steps)[1..] == Events(next, steps[1..]);
    }
  }

  /** Every interleaving, with every stale load, is a run of a FIFO of capacity size - 1. */
  lemma Refinement<T(!new)>(size: nat, initial: T, steps: seq<Step<T>>)
    requires 2 <= size && Legal(Initial(size, initial), steps)
    ensures Inv(Run(Initial(size, initial), steps))
    ensures FifoRun(size - 1, [], Events(Initial(size, initial), steps), Run(Initial(size, initial), steps).Queue())
  {
    InvInitially(size, initial);
    assert Initial(size, initial).size == size && Initial(size, initial).Queue() == [];
    hide Inv, Legal, Run, Events, FifoRun, Initial;
    RunRefines(Initial(size, initial), steps);
  }

  /** The events of a run are the values it accepts and pops. */
  lemma {:induction false} EventsAreItems<T>(r: Ring<T>, steps: seq<Step<T>>)
    requires Legal(r, steps)
    ensures Run(r, steps).accepted == r.accepted + EnqueuedIn(Events(r, steps))
    ensures Run(r, steps).popped == r.popped + DequeuedIn(Events(r, steps))
    decreases steps
  {
    hide Apply, Enabled;
    if steps != [] {
      var next := Apply(r, steps[0]);
      assert Events(r, steps) == [EventOf(r, steps[0])] + Events(next, steps[1..]);
      assert Events(r, steps)[1..] == Events(next, steps[1..]);
      if IsConsumerStep(steps[0]) {
        ConsumerStep(r, steps[0]);
      } else {
        ProducerStep(r, steps[0]);
      }
      EventsAreItems(next, steps[1..]);
    }
  }

  /** push gives up exactly when size - 1 items are not known to be released; with a
      current load of the tail, exactly when size - 1 items are queued. */
  lemma RejectedExactly<T>(r: Ring<T>, from: nat)
    requires Inv(r) && Enabled(r, LoadTail(from))
    ensures from <= |r.popped| <= |r.accepted|
    ensures Apply(r, LoadTail(from)).producer.PushIdle? <==> |r.Queue()| + (|r.popped| - from) == r.size - 1
    ensures from == |r.tailStores| - 1 ==>
      (Apply(r, LoadTail(from)).producer.PushIdle? <==> |r.Queue()| == r.size - 1)
  {
    FullOnlyAtCapacity(r, from);
  }

  /** pop gives up exactly when no item is known to be stored; with a current load of the
      head, exactly when none is queued. */
  lemma EmptyExactly<T>(r: Ring<T>, from: nat)
    requires Inv(r) && Enabled(r, LoadHead(from))
    ensures |r.popped| <= from <= |r.accepted|
    ensures Apply(r, LoadHead(from)).consumer.PopIdle? <==> from == |r.popped|
    ensures from == |r.headStores| - 1 ==> (Apply(r, LoadHead(from)).consumer.PopIdle? <==> r.Queue() == [])
  {
    EmptyOnlyAtTail(r, from);
  }

  // ---------- uninterrupted calls ----------

  lemma {:induction false} RunAppend<T>(r: Ring<T>, a: seq<Step<T>>, b: seq<Step<T>>)
    requires Legal(r, a) && Legal(Run(r, a), b)
    ensures Legal(r, a + b) && Run(r, a + b) == Run(Run(r, a), b)
    decreases a
  {
    if a == [] {
      assert a + b == b;
    } else {
      assert (a + b)[1..] == a[1..] + b;
      RunAppend(Apply(r, a[0]), a[1..], b);
    }
  }

  lemma RunTwo<T>(r: Ring<T>, first: Step<T>, second: Step<T>)
    requires 0 < r.size && Enabled(r, first) && Enabled(Apply(r, first), second)
    ensures Legal(r, [first, second]) && Run(r, [first, second]) == Apply(Apply(r, first), second)
  {
    var last := Apply(Apply(r, first), second);
    assert Legal(last, []) && Run(last, []) == last;
    assert [first, second][1..] == [second] && [second][1..] == [];
    assert Legal(Apply(r, first), [second]) && Run(Apply(r, first), [second]) == last;
  }

  ghost function CallSteps<T>(r: Ring<T>, value: T): seq<Step<T>>
    requires Inv(r)
  {
    [CallPush(value)] + [LoadOwnHead(|r.accepted|), LoadTail(|r.popped|)]
  }

  lemma RunOne<T>(r: Ring<T>, step: Step<T>)
    requires 0 < r.size && Enabled(r, step)
    ensures Legal(r, [step]) && Run(r, [step]) == Apply(r, step)
  {
    assert [step][1..] == [] && Legal(Apply(r, step), []);
  }

  lemma PushLoads<T>(r: Ring<T>)
    requires Inv(r) && r.producer.PushCalled?
    ensures var loads := [LoadOwnHead(|r.accepted|), LoadTail(|r.popped|)];
            && Legal(r, loads)
            && var s := Run(r, loads);
            && s.accepted == r.accepted && s.popped == r.popped && s.size == r.size
            && s.producer ==
                 if |r.Queue()| < r.size - 1 then RoomSeen(r.producer.value, |r.accepted| % r.size) else PushIdle
  {
    var loaded := Apply(r, LoadOwnHead(|r.accepted|));
    InvPreserved(r, LoadOwnHead(|r.accepted|));
    FullOnlyAtCapacity(loaded, |r.popped|);
    RunTwo(r, LoadOwnHead(|r.accepted|), LoadTail(|r.popped|));
  }

  lemma PushChecks<T>(r: Ring<T>, value: T)
    requires Inv(r) && r.producer.PushIdle?
    ensures Legal(r, CallSteps(r, value)) && Inv(Run(r, CallSteps(r, value)))
    ensures var s := Run(r, CallSteps(r, value));
            && s.accepted == r.accepted && s.popped == r.popped && s.size == r.size
            && if |r.Queue()| < r.size - 1 then s.producer.RoomSeen? && s.producer.value == value
               else s.producer.PushIdle?
  {
    RunOne(r, CallPush(value));
    InvPreserved(r, CallPush(value));
    PushLoads(Apply(r, CallPush(value)));
    RunAppend(r, [CallPush(value)], [LoadOwnHead(|r.accepted|), LoadTail(|r.popped|)]);
    RunInv(r, CallSteps(r, value));
  }

  lemma PushStores<T>(r: Ring<T>)
    requires Inv(r) && r.producer.RoomSeen?
    ensures Legal(r, [WriteSlot, StoreHead]) && Inv(Run(r, [WriteSlot, StoreHead]))
    ensures var s := Run(r, [WriteSlot, StoreHead]);
            && s.producer.PushIdle? && s.size == r.size && s.popped == r.popped
            && s.accepted == r.accepted + [r.producer.value]
  {
    RunTwo(r, WriteSlot, StoreHead);
    RunInv(r, [WriteSlot, StoreHead]);
  }

  lemma PushAppends<T>(r: Ring<T>, value: T)
    requires Inv(r) && r.producer.PushIdle? && |r.Queue()| < r.size - 1
    ensures var steps := CallSteps(r, value) + [WriteSlot, StoreHead];
            && Legal(r, steps) && Inv(Run(r, steps))
            && var s := Run(r, steps);
            s.producer.PushIdle? && s.popped == r.popped && s.accepted == r.accepted + [value]
  {
    assert |r.popped| <= |r.accepted|;
    hide Inv, Legal, Run, CallSteps;
    PushChecks(r, value);
    PushStores(Run(r, CallSteps(r, value)));
    RunAppend(r, CallSteps(r, value), [WriteSlot, StoreHead]);
  }

  ghost function PushSteps<T>(r: Ring<T>, value: T): seq<Step<T>>
    requires Inv(r)
  {
    CallSteps(r, value) + if |r.Queue()| < r.size - 1 then [WriteSlot, StoreHead] else []
  }

  lemma QueueAppended<T>(accepted: seq<T>, popped: nat, value: T)
    requires popped <= |accepted|
    ensures (accepted + [value])[popped..] == accepted[popped..] + [value]
  {}

  /** Without interference push appends or, when full, refuses the incoming value. */
  lemma UninterruptedPush<T>(r: Ring<T>, value: T)
    requires Inv(r) && r.producer.PushIdle?
    ensures Legal(r, PushSteps(r, value)) && Inv(Run(r, PushSteps(r, value)))
    ensures var s := Run(r, PushSteps(r, value));
            && s.producer.PushIdle? && s.popped == r.popped
            && s.Queue() == Pushed(r.size - 1, r.Queue(), value)
  {
    assert |r.popped| <= |r.accepted|;
    hide Inv, Legal, Run, Apply, Enabled, CallSteps;
    if |r.Queue()| < r.size - 1 {
      PushAppends(r, value);
      QueueAppended(r.accepted, |r.popped|, value);
    } else {
      PushChecks(r, value);
      assert PushSteps(r, value) == CallSteps(r, value);
    }
  }

  ghost function PopCallSteps<T>(r: Ring<T>): seq<Step<T>>
    requires Inv(r)
  {
    [CallPop] + [LoadOwnTail(|r.popped|), LoadHead(|r.accepted|)]
  }

  lemma PopLoads<T>(r: Ring<T>)
    requires Inv(r) && r.consumer.PopCalled?
    ensures var loads := [LoadOwnTail(|r.popped|), LoadHead(|r.accepted|)];
            && Legal(r, loads)
            && var s := Run(r, loads);
            && s.accepted == r.accepted && s.popped == r.popped && s.size == r.size
            && if r.Queue() != [] then s.consumer.ItemSeen? else s.consumer.PopIdle?
  {
    var loaded := Apply(r, LoadOwnTail(|r.popped|));
    InvPreserved(r, LoadOwnTail(|r.popped|));
    EmptyOnlyAtTail(loaded, |r.accepted|);
    RunTwo(r, LoadOwnTail(|r.popped|), LoadHead(|r.accepted|));
  }

  lemma PopChecks<T>(r: Ring<T>)
    requires Inv(r) && r.consumer.PopIdle?
    ensures Legal(r, PopCallSteps(r)) && Inv(Run(r, PopCallSteps(r)))
    ensures var s := Run(r, PopCallSteps(r));
            && s.accepted == r.accepted && s.popped == r.popped && s.size == r.size
            && if r.Queue() != [] then s.consumer.ItemSeen? else s.consumer.PopIdle?
  {
    RunOne(r, CallPop);
    InvPreserved(r, CallPop);
    PopLoads(Apply(r, CallPop));
    RunAppend(r, [CallPop], [LoadOwnTail(|r.popped|), LoadHead(|r.accepted|)]);
    RunInv(r, PopCallSteps(r));
  }

  lemma PopTakes<T>(r: Ring<T>)
    requires Inv(r) && r.consumer.ItemSeen?
    ensures |r.popped| < |r.accepted|
    ensures var steps := [ReadSlot(|r.popped|), StoreTail];
            && Legal(r, steps) && Inv(Run(r, steps))
            && var s := Run(r, steps);
            s.consumer.PopIdle? && s.accepted == r.accepted && s.popped == r.popped + [r.Queue()[0]]
  {
    OldestIsReadable(r);
    ReadReturnsOldest(r, |r.popped|);
    RunTwo(r, ReadSlot(|r.popped|), StoreTail);
    RunInv(r, [ReadSlot(|r.popped|), StoreTail]);
  }

  ghost function PopSteps<T>(r: Ring<T>): seq<Step<T>>
    requires Inv(r)
  {
    PopCallSteps(r) + if r.Queue() != [] then [ReadSlot(|r.popped|), StoreTail] else []
  }

  lemma QueueTaken<T>(accepted: seq<T>, popped: nat)
    requires popped < |accepted|
    ensures accepted[popped + 1..] == accepted[popped..][1..]
  {}

  /** Without interference pop takes the oldest item, or leaves an empty queue empty. */
  lemma UninterruptedPop<T>(r: Ring<T>)
    requires Inv(r) && r.consumer.PopIdle?
    ensures Legal(r, PopSteps(r)) && Inv(Run(r, PopSteps(r)))
    ensures var s := Run(r, PopSteps(r));
            && s.consumer.PopIdle?
            && if r.Queue() == [] then s.popped == r.popped && s.Queue() == []
               else s.popped == r.popped + [r.Queue()[0]] && s.Queue() == r.Queue()[1..]
  {
    PopChecks(r);
    var checked := Run(r, PopCallSteps(r));
    assert |r.popped| <= |r.accepted|;
    hide Inv, Legal, Run, Apply, Enabled, PopCallSteps;
    if r.Queue() != [] {
      PopTakes(checked);
      QueueTaken(r.accepted, |r.popped|);
      RunAppend(r, PopCallSteps(r), [ReadSlot(|r.popped|), StoreTail]);
    } else {
      assert PopSteps(r) == PopCallSteps(r);
    }
  }

  // ---------- stale loads ----------

  lemma {:induction false} RunKeepsSize<T>(r: Ring<T>, steps: seq<Step<T>>)
    requires Legal(r, steps)
    ensures Run(r, steps).size == r.size && Run(r, steps).initial == r.initial
    decreases steps
  {
    if steps != [] {
      RunKeepsSize(Apply(r, steps[0]), steps[1..]);
    }
  }

  lemma ReachableRun<T(!new)>(r: Ring<T>, steps: seq<Step<T>>)
    requires Reachable(r) && Legal(r, steps)
    ensures Reachable(Run(r, steps))
  {
    var start := Initial(r.size, r.initial);
    var before :| Legal(start, before) && r == Run(start, before);
    RunAppend(start, before, steps);
    RunKeepsSize(r, steps);
    assert Legal(start, before + steps) && Run(r, steps) == Run(start, before + steps);
  }

  lemma {:induction false} ConsumerRun<T>(r: Ring<T>, steps: seq<Step<T>>)
    requires Legal(r, steps) && forall i :: 0 <= i < |steps| ==> IsConsumerStep(steps[i])
    ensures var s := Run(r, steps);
            s.producer == r.producer && s.producerView == r.producerView && s.accepted == r.accepted
    decreases steps
  {
    if steps != [] {
      ConsumerRun(Apply(r, steps[0]), steps[1..]);
    }
  }

  lemma {:induction false} ProducerRun<T>(r: Ring<T>, steps: seq<Step<T>>)
    requires Legal(r, steps) && forall i :: 0 <= i < |steps| ==> !IsConsumerStep(steps[i])
    ensures Run(r, steps).consumer == r.consumer && Run(r, steps).consumerView == r.consumerView
    decreases steps
  {
    if steps != [] {
      ProducerRun(Apply(r, steps[0]), steps[1..]);
    }
  }

  lemma InitiallyReachable<T(!new)>(size: nat, initial: T)
    requires 2 <= size
    ensures Reachable(Initial(size, initial)) && Inv(Initial(size, initial))
  {
    assert Legal(Initial(size, initial), []) && Run(Initial(size, initial), []) == Initial(size, initial);
  }

  lemma OnePushed<T(!new)>(value: T) returns (r: Ring<T>)
    ensures Reachable(r) && Inv(r) && r.size == 2 && r.producer.PushIdle? && r.consumer.PopIdle?
    ensures |r.accepted| == 1 && r.popped == []
    ensures r.consumerView == View(0, 0, 0, 0) && r.producerView.copied == 0
  {
    var start := Initial(2, value);
    InitiallyReachable(2, value);
    var steps := PushSteps(start, value);
    assert forall i :: 0 <= i < |steps| ==> !IsConsumerStep(steps[i]);
    hide Inv, Legal, Run, Apply, Enabled, Reachable, PushSteps, CallSteps;
    UninterruptedPush(start, value);
    ReachableRun(start, steps);
    RunKeepsSize(start, steps);
    ProducerRun(start, steps);
    r := Run(start, steps);
    PopsArePrefix(r);
  }

  /** One item has gone through a ring of two slots, and the producer has not looked at the
      tail since. */
  lemma OneThrough<T(!new)>(value: T) returns (r: Ring<T>)
    ensures Reachable(r) && r.size == 2 && r.producer.PushIdle?
    ensures |r.accepted| == |r.popped| == 1 && r.producerView.tail == r.producerView.copied == 0
    ensures r.consumer.PopIdle?
  {
    var pushed := OnePushed(value);
    UninterruptedPop(pushed);
    var steps := PopSteps(pushed);
    ReachableRun(pushed, steps);
    RunKeepsSize(pushed, steps);
    ConsumerRun(pushed, steps);
    r := Run(pushed, steps);
  }

  /** A stale load can make an empty queue refuse a push; with a current load of the tail
      it cannot (RejectedExactly). */
  lemma StaleRejection<T(!new)>(value: T) returns (r: Ring<T>)
    ensures Reachable(r) && r.popped == r.accepted && Enabled(r, LoadTail(0))
    ensures Apply(r, LoadTail(0)).producer.PushIdle?
  {
    var through := OneThrough(value);
    ReachableInv(through);
    RunTwo(through, CallPush(value), LoadOwnHead(1));
    ReachableRun(through, [CallPush(value), LoadOwnHead(1)]);
    r := Run(through, [CallPush(value), LoadOwnHead(1)]);
    ReachableInv(r);
    FullOnlyAtCapacity(r, 0);
  }

  /** A stale load of the head can make pop miss an item that is queued; with a current load
      it cannot (EmptyExactly). */
  lemma StaleEmptiness<T(!new)>(value: T) returns (r: Ring<T>)
    ensures Reachable(r) && |r.popped| < |r.accepted| && Enabled(r, LoadHead(0))
    ensures Apply(r, LoadHead(0)).consumer.PopIdle?
  {
    var pushed := OnePushed(value);
    RunTwo(pushed, CallPop, LoadOwnTail(0));
    ReachableRun(pushed, [CallPop, LoadOwnTail(0)]);
    r := Run(pushed, [CallPop, LoadOwnTail(0)]);
    ReachableInv(r);
    EmptyOnlyAtTail(r, 0);
  }

  /** It is the acquire load that makes the payload visible: one that learnt nothing from the
      store it reads could still be followed by a read of the slot's initial value, and that
      read would race with the write. */
  lemma AcquireNeeded<T(!new)>(value: T) returns (r: Ring<T>)
    ensures Reachable(r) && |r.accepted| == 1 && r.popped == [] && r.consumerView.written == 0
    ensures Visible(r.slotWrites, r.consumerView.written, 0, -1) && r.headStores != []
    ensures var learnt := r.consumerView.Join(r.headStores[|r.headStores| - 1].view);
            !Visible(r.slotWrites, learnt.written, 0, -1)
    ensures ReadRaces(r.(consumer := ItemSeen(0)))
  {
    r := OnePushed(value);
    assert |r.headStores| == 2 && r.headStores[1].view.head == 1;
    assert 0 < |r.slotWrites| && r.slotWrites[0].slot == 0;
  }

  /** So is the producer's: without having learnt of the slot's last read, its write to the
      slot would race with that read. */
  lemma ProducerAcquireNeeded<T(!new)>(value: T) returns (r: Ring<T>)
    ensures Reachable(r) && r.size == 2 && r.producerView.copied == 0
    ensures WriteRaces(r.(producer := RoomSeen(value, 0)))
  {
    r := OneThrough(value);
    ReachableInv(r);
    assert 0 < |r.slotReads| && r.slotReads[0] == 0;
  }
}
