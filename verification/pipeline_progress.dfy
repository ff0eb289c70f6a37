/**
  What the callbacks and the drain of the pipeline can always do. A callback that is not
  interrupted takes its report in, or counts it as dropped; a drain that is not interrupted
  empties every queue. Both may start in any state of the other channels.
*/
module PipelineProgress {
  import opened Options
  import opened ReportPipeline
  import opened SpscRing

  // ---------- one callback ----------

  ghost predicate IsCallbackAction<T>(action: ChannelStep<T>) {
    action.Callback? || action.CountDrop? || (action.Push? && !IsConsumerStep(action.step))
  }

  /** One step of a callback changes its channel, and the drop counter where it counts. */
  lemma CallbackStep<T>(p: Pipeline<T>, topic: nat, action: ChannelStep<T>)
    requires PipelineInv(p) && topic < |p.channels| && IsCallbackAction(action)
    requires ChannelEnabled(p.channels[topic], action, true)
    ensures PipelineEnabled(p, At(topic, action)) && PipelineInv(PipelineApply(p, At(topic, action)))
    ensures ChannelInv(p.channels[topic]) && ChannelInv(ChannelApply(p.channels[topic], action))
    ensures PipelineApply(p, At(topic, action)) == Pipeline(
      p.channels[topic := ChannelApply(p.channels[topic], action)],
      p.dropped + (if action.CountDrop? then 1 else 0),
      p.draining)
  {
    assert ChannelInv(p.channels[topic]);
    hide ChannelInv, ChannelsInv, OneDrained, Total, ChannelApply;
    PipelinePreserved(p, At(topic, action));
    ChannelPreserved(p.channels[topic], action);
  }

  /** Nothing but the callback's own state differs. */
  ghost predicate SameItems<T>(c: Channel<T>, d: Channel<T>) {
    && d.ring.size == c.ring.size && d.ring.accepted == c.ring.accepted && d.ring.popped == c.ring.popped
    && d.held == c.held && d.published == c.published
  }

  lemma Called<T>(c: Channel<T>, value: T)
    requires ChannelInv(c) && c.ring.producer.PushIdle? && !c.refused
    ensures ChannelEnabled(c, Callback(Some(value)), true)
    ensures var d := ChannelApply(c, Callback(Some(value)));
            SameItems(c, d) && d.ring.producer == PushCalled(value) && d.offered == c.offered + [value] && !d.refused
  {}

  lemma Loaded<T>(c: Channel<T>)
    requires ChannelInv(c) && c.ring.producer.PushCalled?
    ensures ChannelEnabled(c, Push(LoadOwnHead(|c.ring.accepted|)), true)
    ensures var d := ChannelApply(c, Push(LoadOwnHead(|c.ring.accepted|)));
            && SameItems(c, d) && d.offered == c.offered && !d.refused
            && d.ring.producer.HeadLoaded? && d.ring.producer.value == c.ring.producer.value
  {}

  lemma Checked<T>(c: Channel<T>)
    requires ChannelInv(c) && c.ring.producer.HeadLoaded?
    ensures ChannelEnabled(c, Push(LoadTail(|c.ring.popped|)), true)
    ensures var d := ChannelApply(c, Push(LoadTail(|c.ring.popped|)));
            && SameItems(c, d) && d.offered == c.offered
            && if |c.ring.accepted| - |c.ring.popped| < c.ring.size - 1
               then !d.refused && d.ring.producer.RoomSeen? && d.ring.producer.value == c.ring.producer.value
               else d.refused && d.ring.producer.PushIdle?
  {
    RejectedExactly(c.ring, |c.ring.popped|);
  }

  lemma Written<T>(c: Channel<T>)
    requires ChannelInv(c) && c.ring.producer.RoomSeen?
    ensures ChannelEnabled(c, Push(WriteSlot), true)
    ensures var d := ChannelApply(c, Push(WriteSlot));
            && SameItems(c, d) && d.offered == c.offered && !d.refused
            && d.ring.producer.SlotWritten? && d.ring.producer.value == c.ring.producer.value
  {}

  lemma Stored<T>(c: Channel<T>)
    requires ChannelInv(c) && c.ring.producer.SlotWritten?
    ensures ChannelEnabled(c, Push(StoreHead), true)
    ensures var d := ChannelApply(c, Push(StoreHead));
            && d.ring.size == c.ring.size && d.ring.popped == c.ring.popped
            && d.ring.accepted == c.ring.accepted + [c.ring.producer.value]
            && d.held == c.held && d.published == c.published && d.offered == c.offered
            && !d.refused && d.ring.producer.PushIdle?
  {}

  /** Only the topic's channel differs. */
  ghost predicate OnlyAt<T>(p: Pipeline<T>, q: Pipeline<T>, topic: nat) {
    && |q.channels| == |p.channels| && q.draining == p.draining
    && forall i :: 0 <= i < |p.channels| && i != topic ==> q.channels[i] == p.channels[i]
  }

  /** From `before`, the callback has put its report behind the others; or the ring was full,
      and one drop is counted. */
  ghost predicate QueuedOrCounted<T>(before: Channel<T>, after: Channel<T>, drops: nat, drops': nat, value: T) {
    && after.ring.producer.PushIdle? && !after.refused
    && after.ring.size == before.ring.size && after.ring.popped == before.ring.popped
    && after.held == before.held && after.published == before.published
    && if |before.ring.accepted| - |before.ring.popped| < before.ring.size - 1
       then after.ring.accepted == before.ring.accepted + [value] && drops' == drops
       else after.ring.accepted == before.ring.accepted && drops' == drops + 1
  }

  lemma RunSingle<T>(p: Pipeline<T>, step: PipelineStep<T>)
    requires PipelineInv(p) && PipelineEnabled(p, step) && PipelineInv(PipelineApply(p, step))
    ensures PipelineLegal(p, [step]) && PipelineRun(p, [step]) == PipelineApply(p, step)
  {
    hide PipelineInv, PipelineEnabled, PipelineApply;
    assert [step][1..] == [] && PipelineLegal(PipelineApply(p, step), []);
  }

  lemma CountsDrop<T>(p: Pipeline<T>, topic: nat) returns (steps: seq<PipelineStep<T>>)
    requires PipelineInv(p) && topic < |p.channels| && p.channels[topic].refused
    requires p.channels[topic].ring.producer.PushIdle?
    ensures PipelineLegal(p, steps) && OnlyAt(p, PipelineRun(p, steps), topic)
    ensures PipelineRun(p, steps).channels[topic] == p.channels[topic].(refused := false)
    ensures PipelineRun(p, steps).dropped == p.dropped + 1
  {
    CallbackStep(p, topic, CountDrop);
    hide PipelineInv, PipelineEnabled, PipelineApply;
    RunSingle(p, At(topic, CountDrop));
    steps := [At(topic, CountDrop)];
  }

  lemma Stores<T>(p: Pipeline<T>, topic: nat) returns (steps: seq<PipelineStep<T>>)
    requires PipelineInv(p) && topic < |p.channels| && p.channels[topic].ring.producer.RoomSeen?
    ensures PipelineLegal(p, steps) && OnlyAt(p, PipelineRun(p, steps), topic)
    ensures PipelineRun(p, steps).dropped == p.dropped
    ensures var c, d := p.channels[topic], PipelineRun(p, steps).channels[topic];
            && d.ring.size == c.ring.size && d.ring.popped == c.ring.popped
            && d.ring.accepted == c.ring.accepted + [c.ring.producer.value]
            && d.held == c.held && d.published == c.published && d.offered == c.offered
            && !d.refused && d.ring.producer.PushIdle?
  {
    assert ChannelInv(p.channels[topic]);
    hide PipelineInv, PipelineEnabled, PipelineApply, ChannelInv, ChannelApply, ChannelEnabled;
    var write, store := At(topic, Push(WriteSlot)), At(topic, Push(StoreHead));
    Written(p.channels[topic]);
    CallbackStep(p, topic, Push(WriteSlot));
    var next := PipelineApply(p, write);
    Stored(next.channels[topic]);
    CallbackStep(next, topic, Push(StoreHead));
    RunSingle(next, store);
    RunFirst(p, write, [store]);
    steps := [write] + [store];
  }

  lemma DropSettles<T>(c: Channel<T>, checked: Channel<T>, drops: nat, value: T)
    requires SameItems(c, checked) && checked.ring.producer.PushIdle?
    requires |c.ring.accepted| - |c.ring.popped| >= c.ring.size - 1
    ensures QueuedOrCounted(c, checked.(refused := false), drops, drops + 1, value)
  {}

  lemma StoreSettles<T>(c: Channel<T>, checked: Channel<T>, last: Channel<T>, drops: nat)
    requires SameItems(c, checked) && checked.ring.producer.RoomSeen?
    requires |c.ring.accepted| - |c.ring.popped| < c.ring.size - 1
    requires last.ring.size == checked.ring.size && last.ring.popped == checked.ring.popped
    requires last.ring.accepted == checked.ring.accepted + [checked.ring.producer.value]
    requires last.held == checked.held && last.published == checked.published
    requires !last.refused && last.ring.producer.PushIdle?
    ensures QueuedOrCounted(c, last, drops, drops, checked.ring.producer.value)
  {}

  lemma ChecksRoom<T>(p: Pipeline<T>, topic: nat) returns (step: PipelineStep<T>)
    requires PipelineInv(p) && topic < |p.channels| && p.channels[topic].ring.producer.HeadLoaded?
    ensures PipelineEnabled(p, step) && PipelineInv(PipelineApply(p, step))
    ensures var q := PipelineApply(p, step);
            && OnlyAt(p, q, topic) && q.dropped == p.dropped
            && var c, d := p.channels[topic], q.channels[topic];
            && SameItems(c, d) && d.offered == c.offered
            && |c.ring.popped| <= |c.ring.accepted|
            && if |c.ring.accepted| - |c.ring.popped| < c.ring.size - 1
               then d.ring.producer.RoomSeen? && d.ring.producer.value == c.ring.producer.value
               else d.refused && d.ring.producer.PushIdle?
  {
    var c := p.channels[topic];
    assert ChannelInv(c) && |c.ring.popped| <= |c.ring.accepted|;
    hide PipelineInv, PipelineEnabled, PipelineApply, ChannelInv, ChannelApply, ChannelEnabled, SameItems;
    Checked(c);
    step := At(topic, Push(LoadTail(|c.ring.popped|)));
    CallbackStep(p, topic, step.action);
  }

  lemma Joined<T>(p: Pipeline<T>, next: Pipeline<T>, last: Pipeline<T>, topic: nat)
    requires OnlyAt(p, next, topic) && OnlyAt(next, last, topic)
    ensures OnlyAt(p, last, topic)
  {}

  /** From the load of its own head a push goes on to its end. */
  lemma ChecksAndFinishes<T>(p: Pipeline<T>, topic: nat) returns (steps: seq<PipelineStep<T>>)
    requires PipelineInv(p) && topic < |p.channels| && p.channels[topic].ring.producer.HeadLoaded?
    ensures PipelineLegal(p, steps) && |PipelineRun(p, steps).channels| == |p.channels|
    ensures OnlyAt(p, PipelineRun(p, steps), topic)
    ensures PipelineRun(p, steps).channels[topic].offered == p.channels[topic].offered
    ensures QueuedOrCounted(
      p.channels[topic], PipelineRun(p, steps).channels[topic], p.dropped, PipelineRun(p, steps).dropped,
      p.channels[topic].ring.producer.value)
  {
    var c := p.channels[topic];
    var check := ChecksRoom(p, topic);
    var next := PipelineApply(p, check);
    assert |next.channels| == |p.channels|;
    hide *;
    var rest;
    if |c.ring.accepted| - |c.ring.popped| < c.ring.size - 1 {
      rest := Stores(next, topic);
      StoreSettles(c, next.channels[topic], PipelineRun(next, rest).channels[topic], next.dropped);
    } else {
      rest := CountsDrop(next, topic);
      DropSettles(c, next.channels[topic], next.dropped, c.ring.producer.value);
    }
    RunFirst(p, check, rest);
    Joined(p, next, PipelineRun(next, rest), topic);
    steps := [check] + rest;
  }

  lemma CallsAndLoads<T>(p: Pipeline<T>, topic: nat, value: T) returns (next: Pipeline<T>, steps: seq<PipelineStep<T>>)
    requires PipelineInv(p) && topic < |p.channels|
    requires p.channels[topic].ring.producer.PushIdle? && !p.channels[topic].refused
    ensures PipelineLegal(p, steps) && next == PipelineRun(p, steps) && OnlyAt(p, next, topic)
    ensures |steps| == 2 && steps[0] == At(topic, Callback(Some(value)))
    ensures next.dropped == p.dropped && SameItems(p.channels[topic], next.channels[topic])
    ensures next.channels[topic].offered == p.channels[topic].offered + [value]
    ensures next.channels[topic].ring.producer.HeadLoaded? && next.channels[topic].ring.producer.value == value
  {
    assert ChannelInv(p.channels[topic]);
    hide PipelineInv, PipelineEnabled, PipelineApply, ChannelInv, ChannelApply, ChannelEnabled;
    Called(p.channels[topic], value);
    var call := At(topic, Callback(Some(value)));
    CallbackStep(p, topic, call.action);
    var called := PipelineApply(p, call);
    Loaded(called.channels[topic]);
    var load := At(topic, Push(LoadOwnHead(|called.channels[topic].ring.accepted|)));
    CallbackStep(called, topic, load.action);
    next := PipelineApply(called, load);
    RunSingle(called, load);
    RunFirst(p, call, [load]);
    steps := [call] + [load];
  }

  lemma {:induction false} RunAfter<T>(p: Pipeline<T>, a: seq<PipelineStep<T>>, b: seq<PipelineStep<T>>)
    requires PipelineInv(p) && PipelineLegal(p, a) && PipelineLegal(PipelineRun(p, a), b)
    ensures PipelineLegal(p, a + b) && PipelineRun(p, a + b) == PipelineRun(PipelineRun(p, a), b)
    decreases a
  {
    hide PipelineInv, PipelineEnabled, PipelineApply;
    if a == [] {
      assert a + b == b;
    } else {
      PipelinePreserved(p, a[0]);
      RunAfter(PipelineApply(p, a[0]), a[1..], b);
      RunFirst(p, a[0], a[1..] + b);
      assert a + b == [a[0]] + (a[1..] + b);
    }
  }

  /** Whatever the other callbacks and the drain are doing, a callback that runs to its end
      queues its report behind the others, or finds the ring full and counts the drop. */
  lemma CallbackTakesIn<T>(p: Pipeline<T>, topic: nat, value: T) returns (steps: seq<PipelineStep<T>>)
    requires PipelineInv(p) && topic < |p.channels|
    requires p.channels[topic].ring.producer.PushIdle? && !p.channels[topic].refused
    ensures PipelineLegal(p, steps) && steps != [] && steps[0] == At(topic, Callback(Some(value)))
    ensures OnlyAt(p, PipelineRun(p, steps), topic)
    ensures PipelineRun(p, steps).channels[topic].offered == p.channels[topic].offered + [value]
    ensures QueuedOrCounted(
      p.channels[topic], PipelineRun(p, steps).channels[topic], p.dropped, PipelineRun(p, steps).dropped, value)
  {
    hide PipelineInv, PipelineLegal, PipelineRun;
    var loaded, first := CallsAndLoads(p, topic, value);
    var rest := ChecksAndFinishes(loaded, topic);
    RunAfter(p, first, rest);
    steps := first + rest;
  }

  // ---------- capacity ----------

  lemma RingSizeStays<T>(c: Channel<T>, action: ChannelStep<T>)
    requires 0 < c.ring.size && ChannelEnabled(c, action, true)
    ensures ChannelApply(c, action).ring.size == c.ring.size
  {
    hide Apply, Enabled;
    match action
    case Callback(Some(v)) => ProducerStep(c.ring, CallPush(v));
    case Push(step) => ProducerStep(c.ring, step);
    case Pop(step) => ConsumerStep(c.ring, step);
    case _ =>
  }

  lemma SizeStays<T>(p: Pipeline<T>, step: PipelineStep<T>, topic: nat)
    requires PipelineInv(p) && PipelineEnabled(p, step) && topic < |p.channels|
    ensures PipelineInv(PipelineApply(p, step)) && |PipelineApply(p, step).channels| == |p.channels|
    ensures PipelineApply(p, step).channels[topic].ring.size == p.channels[topic].ring.size
  {
    PipelinePreserved(p, step);
    if step.At? {
      var c := p.channels[step.channel];
      assert ChannelInv(c) && ChannelEnabled(c, step.action, true);
      assert 0 < c.ring.size;
      hide ChannelInv, ChannelsInv, OneDrained, Total, ChannelApply, ChannelEnabled, FoundEmpty;
      RingSizeStays(c, step.action);
    }
  }

  lemma {:induction false} SizesStay<T>(p: Pipeline<T>, steps: seq<PipelineStep<T>>, topic: nat)
    requires PipelineInv(p) && PipelineLegal(p, steps) && topic < |p.channels|
    ensures PipelineRun(p, steps).channels[topic].ring.size == p.channels[topic].ring.size
    decreases steps
  {
    if steps != [] {
      SizeStays(p, steps[0], topic);
      hide PipelineInv, PipelineEnabled, PipelineApply;
      SizesStay(PipelineApply(p, steps[0]), steps[1..], topic);
    }
  }

  lemma InvOfChannel<T>(p: Pipeline<T>, topic: nat)
    requires PipelineInv(p) && topic < |p.channels|
    ensures Inv(p.channels[topic].ring)
  {
    assert ChannelInv(p.channels[topic]);
  }

  lemma RingCapacity<T>(r: Ring<T>)
    requires Inv(r)
    ensures |r.popped| <= |r.accepted| && |r.Queue()| <= r.size - 1
    ensures r.producer.HeadLoaded? ==>
      && Enabled(r, LoadTail(|r.popped|))
      && (Apply(r, LoadTail(|r.popped|)).producer.PushIdle? <==> |r.Queue()| == r.size - 1)
  {
    if r.producer.HeadLoaded? {
      RejectedExactly(r, |r.popped|);
    }
  }

  /** In every run of the bridge the four report queues hold at most 63 reports and the
      frame queue at most 255 frames, and with a current load that is when they refuse. */
  lemma Capacities<T>(blank: T, steps: seq<PipelineStep<T>>, topic: nat)
    requires topic < 5
    ensures PipelineInv(Start(QUEUE_SIZES, blank)) && |QUEUE_SIZES| == 5
    ensures PipelineLegal(Start(QUEUE_SIZES, blank), steps) ==>
      var c := PipelineRun(Start(QUEUE_SIZES, blank), steps).channels[topic];
      var capacity := if topic == 4 then 255 else 63;
      && |c.ring.popped| <= |c.ring.accepted| && |c.ring.Queue()| <= capacity
      && (c.ring.producer.HeadLoaded? ==>
            && Enabled(c.ring, LoadTail(|c.ring.popped|))
            && (Apply(c.ring, LoadTail(|c.ring.popped|)).producer.PushIdle? <==> |c.ring.Queue()| == capacity))
  {
    FreshInv(QUEUE_SIZES, blank);
    var p := Start(QUEUE_SIZES, blank);
    assert PipelineInv(p) && p.channels[topic].ring.size == if topic == 4 then 256 else 64;
    hide ChannelsInv, OneDrained, Total, Start, Fresh, Inv, Enabled, Apply, Accounts, PipelineRun, PipelineLegal;
    if PipelineLegal(p, steps) {
      SizesStay(p, steps, topic);
      var c := PipelineRun(p, steps).channels[topic];
      InvOfChannel(PipelineRun(p, steps), topic);
      RingCapacity(c.ring);
    }
  }

  // ---------- arrivals ----------

  ghost function AcceptedBy<T>(c: Channel<T>): int { |c.ring.accepted| }

  lemma AcceptedStep<T>(c: Channel<T>, action: ChannelStep<T>)
    requires 0 < c.ring.size && ChannelEnabled(c, action, true)
    ensures AcceptedBy(ChannelApply(c, action)) ==
      AcceptedBy(c) + if action.Push? && action.step.StoreHead? then 1 else 0
  {
    hide Apply, Enabled;
    match action
    case Callback(Some(v)) => ProducerStep(c.ring, CallPush(v));
    case Push(step) => ProducerStep(c.ring, step);
    case Pop(step) => ConsumerStep(c.ring, step);
    case _ =>
  }

  lemma AcceptedCounted<T>(p: Pipeline<T>, step: PipelineStep<T>)
    requires PipelineInv(p) && PipelineEnabled(p, step)
    ensures Total(PipelineApply(p, step).channels, AcceptedBy)
         == Total(p.channels, AcceptedBy) + if IsArrival(step) then 1 else 0
  {
    if step.At? {
      var i := step.channel;
      assert ChannelInv(p.channels[i]) && ChannelEnabled(p.channels[i], step.action, true);
      assert 0 < p.channels[i].ring.size;
      hide ChannelInv, ChannelsInv, OneDrained, ChannelApply, ChannelEnabled, FoundEmpty, Total, AcceptedBy;
      AcceptedStep(p.channels[i], step.action);
      TotalUpdate(p.channels, i, ChannelApply(p.channels[i], step.action), AcceptedBy);
    }
  }

  /** The arrivals that the drain's bounds count are the reports accepted during the run. */
  lemma {:induction false} ArrivalsAreAccepted<T>(p: Pipeline<T>, steps: seq<PipelineStep<T>>)
    requires PipelineInv(p) && PipelineLegal(p, steps)
    ensures Count(steps, IsArrival) == Total(PipelineRun(p, steps).channels, AcceptedBy) - Total(p.channels, AcceptedBy)
    decreases steps
  {
    hide PipelineInv, PipelineEnabled, PipelineApply, Total, IsArrival;
    if steps != [] {
      PipelinePreserved(p, steps[0]);
      AcceptedCounted(p, steps[0]);
      ArrivalsAreAccepted(PipelineApply(p, steps[0]), steps[1..]);
    }
  }

  // ---------- one drain ----------

  /** A drain that is not interrupted runs from its start to its end and leaves every queue
      empty, with everything accepted published. */
  lemma DrainEmptiesAll<T>(p: Pipeline<T>) returns (steps: seq<PipelineStep<T>>)
    requires PipelineInv(p) && p.draining == |p.channels|
    ensures PipelineLegal(p, steps) && steps != [] && steps[0].BeginDrain?
    ensures |steps| <= 1 + 6 * Total(p.channels, QueuedIn) + 3 * |p.channels|
    ensures var q := PipelineRun(p, steps);
            && q.draining == |q.channels| == |p.channels|
            && forall i :: 0 <= i < |q.channels| ==> Emptied(q.channels[i])
  {
    assert PipelineEnabled(p, BeginDrain);
    PipelinePreserved(p, BeginDrain);
    WorkAtStart(p);
    var begun := PipelineApply(p, BeginDrain);
    assert begun.draining == 0 && |begun.channels| == |p.channels|;
    hide PipelineInv, PipelineEnabled, PipelineApply, Total, Emptied, Work;
    var rest := DrainFinishes(begun);
    steps := [BeginDrain] + rest;
    RunFirst(p, BeginDrain, rest);
  }
}
