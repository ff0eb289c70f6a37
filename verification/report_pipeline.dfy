/**
  The bridge's report path as a state machine: five rings filled by signal-handler
  callbacks, one shared drop counter, and one drain that walks the rings in order. Every
  callback and the drain may interleave at every atomic step.
*/
module ReportPipeline {
  import opened Options
  import opened SpscRing

  datatype Channel<T> = Channel(
    ring: Ring<T>,
    offered: seq<T>,      // non-null reports handed to the callback
    verdicts: seq<bool>,  // for each finished push, whether it was accepted
    refused: bool,        // a push was refused and the drop is not counted yet
    held: seq<T>,         // popped and not yet published: at most one
    published: seq<T>)

  datatype Pipeline<T> = Pipeline(
    channels: seq<Channel<T>>,
    dropped: nat,
    draining: nat)        // the channel the drain is at; |channels| when it is not running

  datatype ChannelStep<T> =
    | Callback(report: Option<T>)
    | Push(step: Step<T>)
    | CountDrop
    | Pop(step: Step<T>)
    | Publish

  datatype PipelineStep<T> =
    | BeginDrain
    | At(channel: nat, action: ChannelStep<T>)

  // ---------- one channel ----------

  predicate IsPush<T>(step: Step<T>) {
    step.LoadOwnHead? || step.LoadTail? || step.WriteSlot? || step.StoreHead?
  }

  /** The drain touches a channel only while it is at it. */
  ghost predicate ChannelEnabled<T>(c: Channel<T>, action: ChannelStep<T>, draining: bool) {
    match action
    case Callback(_) => c.ring.producer.PushIdle? && !c.refused
    case Push(step) => IsPush(step) && Enabled(c.ring, step)
    case CountDrop => c.refused
    case Pop(step) => draining && c.held == [] && IsConsumerStep(step) && Enabled(c.ring, step)
    case Publish => draining && c.held != []
  }

  ghost function ChannelApply<T>(c: Channel<T>, action: ChannelStep<T>): Channel<T>
    requires 0 < c.ring.size && ChannelEnabled(c, action, true)
  {
    match action
    case Callback(None) => c
    case Callback(Some(v)) => c.(ring := Apply(c.ring, CallPush(v)), offered := c.offered + [v])
    case Push(step) =>
      var next := Apply(c.ring, step);
      var done := next.producer.PushIdle?;
      c.(ring := next,
         verdicts := if done then c.verdicts + [step.StoreHead?] else c.verdicts,
         refused := done && step.LoadTail?)
    case CountDrop => c.(refused := false)
    case Pop(step) =>
      c.(ring := Apply(c.ring, step),
         held := if step.StoreTail? then [c.ring.consumer.out] else c.held)
    case Publish => c.(held := [], published := c.published + c.held)
  }

  /** The pop just returned false: the drain moves on. */
  ghost predicate FoundEmpty<T>(c: Channel<T>, action: ChannelStep<T>)
    requires 0 < c.ring.size && ChannelEnabled(c, action, true)
  {
    action.Pop? && action.step.LoadHead? && ChannelApply(c, action).ring.consumer.PopIdle?
  }

  ghost function Selected<T>(items: seq<T>, verdicts: seq<bool>): seq<T>
    requires |verdicts| <= |items|
  {
    if verdicts == [] then []
    else Selected(items, verdicts[..|verdicts| - 1])
         + if verdicts[|verdicts| - 1] then [items[|verdicts| - 1]] else []
  }

  ghost function Refusals(verdicts: seq<bool>): nat {
    if verdicts == [] then 0
    else Refusals(verdicts[..|verdicts| - 1]) + if verdicts[|verdicts| - 1] then 0 else 1
  }

  lemma {:induction false} SelectedSize<T>(items: seq<T>, verdicts: seq<bool>)
    requires |verdicts| <= |items|
    ensures |Selected(items, verdicts)| + Refusals(verdicts) == |verdicts|
  {
    if verdicts != [] {
      SelectedSize(items, verdicts[..|verdicts| - 1]);
    }
  }

  lemma {:induction false} SelectedGrows<T>(items: seq<T>, more: seq<T>, verdicts: seq<bool>)
    requires |verdicts| <= |items|
    ensures Selected(items + more, verdicts) == Selected(items, verdicts)
  {
    if verdicts != [] {
      SelectedGrows(items, more, verdicts[..|verdicts| - 1]);
    }
  }

  lemma VerdictAdded<T>(items: seq<T>, verdicts: seq<bool>, accepted: bool)
    requires |verdicts| < |items|
    ensures Selected(items, verdicts + [accepted])
         == if accepted then Selected(items, verdicts) + [items[|verdicts|]] else Selected(items, verdicts)
    ensures Refusals(verdicts + [accepted]) == Refusals(verdicts) + if accepted then 0 else 1
  {
    assert (verdicts + [accepted])[..|verdicts|] == verdicts;
  }

  /** Drops of this channel that the shared counter has counted. */
  ghost function Counted<T>(c: Channel<T>): int {
    Refusals(c.verdicts) - if c.refused then 1 else 0
  }

  /** A report in the callback's hands: being pushed, or refused and not yet counted. */
  ghost function InCallback<T>(c: Channel<T>): nat {
    (if c.ring.producer.PushIdle? then 0 else 1) + if c.refused then 1 else 0
  }

  /** The verdicts are those of the finished pushes, and the accepted and popped items are
      the reports they say. */
  ghost predicate Accounts<T>(c: Channel<T>) {
    && |c.offered| == |c.verdicts| + (if c.ring.producer.PushIdle? then 0 else 1)
    && (!c.ring.producer.PushIdle? ==> c.ring.producer.value == c.offered[|c.verdicts|] && !c.refused)
    && c.ring.accepted == Selected(c.offered, c.verdicts)
    && c.published + c.held == c.ring.popped && |c.held| <= 1
    && (c.held != [] ==> c.ring.consumer.PopIdle?)
    && (c.refused ==> 0 < Refusals(c.verdicts))
  }

  ghost predicate ChannelInv<T>(c: Channel<T>) {
    Inv(c.ring) && Accounts(c)
  }

  lemma PushAccounts<T>(c: Channel<T>, step: Step<T>)
    requires 0 < c.ring.size && Accounts(c) && ChannelEnabled(c, Push(step), true)
    ensures Accounts(ChannelApply(c, Push(step)))
    ensures Counted(ChannelApply(c, Push(step))) == Counted(c)
  {
    hide Apply, Enabled, Selected, Refusals;
    ProducerStep(c.ring, step);
    if Apply(c.ring, step).producer.PushIdle? {
      VerdictAdded(c.offered, c.verdicts, step.StoreHead?);
    }
  }

  lemma ChannelPush<T>(c: Channel<T>, step: Step<T>)
    requires ChannelInv(c) && ChannelEnabled(c, Push(step), true)
    ensures ChannelInv(ChannelApply(c, Push(step)))
    ensures Counted(ChannelApply(c, Push(step))) == Counted(c)
  {
    InvPreserved(c.ring, step);
    PushAccounts(c, step);
  }

  lemma ChannelPop<T>(c: Channel<T>, step: Step<T>)
    requires ChannelInv(c) && ChannelEnabled(c, Pop(step), true)
    ensures ChannelInv(ChannelApply(c, Pop(step)))
  {
    assert 0 < c.ring.size;
    hide Inv, Apply, Enabled, Selected, Refusals;
    InvPreserved(c.ring, step);
    ConsumerStep(c.ring, step);
  }

  lemma ChannelPreserved<T>(c: Channel<T>, action: ChannelStep<T>)
    requires ChannelInv(c) && ChannelEnabled(c, action, true)
    ensures ChannelInv(ChannelApply(c, action))
    ensures Counted(ChannelApply(c, action)) == Counted(c) + if action.CountDrop? then 1 else 0
  {
    match action
    case Callback(None) =>
    case Callback(Some(v)) =>
      InvPreserved(c.ring, CallPush(v));
      SelectedGrows(c.offered, [v], c.verdicts);
    case Push(step) => ChannelPush(c, step);
    case CountDrop =>
    case Pop(step) => ChannelPop(c, step);
    case Publish =>
  }

  /** This load of the tail shows no room: size - 1 items are not known to be released.
      With a current load size - 1 items are queued; with a stale one it may be fewer. */
  ghost predicate ShowsNoRoom<T>(c: Channel<T>, step: Step<T>)
    requires ChannelInv(c)
  {
    step.LoadTail? && |c.ring.Queue()| + (|c.ring.popped| - step.from) == c.ring.size - 1
  }

  /** A report is accepted exactly at its push's head store, and refused exactly at a load
      of the tail that shows no room. */
  lemma VerdictExactly<T>(c: Channel<T>, action: ChannelStep<T>)
    requires ChannelInv(c) && ChannelEnabled(c, action, true)
    ensures ChannelApply(c, action).verdicts ==
      if action.Push? && action.step.StoreHead? then c.verdicts + [true]
      else if action.Push? && ShowsNoRoom(c, action.step) then c.verdicts + [false]
      else c.verdicts
  {
    assert 0 < c.ring.size;
    hide Inv, Apply, Enabled;
    if action.Push? {
      ProducerStep(c.ring, action.step);
      if action.step.LoadTail? {
        RejectedExactly(c.ring, action.step.from);
      }
    }
  }

  lemma ChannelBalance<T>(c: Channel<T>)
    requires ChannelInv(c)
    ensures |c.offered| == |c.published| + |c.held| + |c.ring.Queue()| + InCallback(c) + Counted(c)
    ensures c.published + c.held + c.ring.Queue() == Selected(c.offered, c.verdicts)
  {
    SelectedSize(c.offered, c.verdicts);
  }

  // ---------- all channels ----------

  ghost function Total<T>(cs: seq<Channel<T>>, measure: Channel<T> -> int): int {
    if cs == [] then 0 else measure(cs[0]) + Total(cs[1..], measure)
  }

  lemma {:induction false} TotalUpdate<T>(cs: seq<Channel<T>>, i: nat, c: Channel<T>, measure: Channel<T> -> int)
    requires i < |cs|
    ensures Total(cs[i := c], measure) == Total(cs, measure) - measure(cs[i]) + measure(c)
  {
    if i == 0 {
      assert cs[i := c][1..] == cs[1..];
    } else {
      assert cs[i := c][1..] == cs[1..][i - 1 := c];
      TotalUpdate(cs[1..], i - 1, c, measure);
    }
  }

  ghost predicate ChannelsInv<T>(cs: seq<Channel<T>>) {
    forall i :: 0 <= i < |cs| ==> ChannelInv(cs[i])
  }

  /** The drain is inside pop, or holds an item, only at the channel it is draining. */
  ghost predicate OneDrained<T>(cs: seq<Channel<T>>, draining: nat) {
    forall i :: 0 <= i < |cs| && i != draining ==> cs[i].ring.consumer.PopIdle? && cs[i].held == []
  }

  ghost predicate PipelineInv<T>(p: Pipeline<T>) {
    && ChannelsInv(p.channels)
    && p.dropped == Total(p.channels, Counted)
    && p.draining <= |p.channels|
    && OneDrained(p.channels, p.draining)
  }

  ghost predicate PipelineEnabled<T>(p: Pipeline<T>, step: PipelineStep<T>) {
    match step
    case BeginDrain => p.draining == |p.channels|
    case At(i, action) => i < |p.channels| && ChannelEnabled(p.channels[i], action, i == p.draining)
  }

  ghost function PipelineApply<T>(p: Pipeline<T>, step: PipelineStep<T>): Pipeline<T>
    requires PipelineInv(p) && PipelineEnabled(p, step)
  {
    match step
    case BeginDrain => p.(draining := 0)
    case At(i, action) =>
      p.(channels := p.channels[i := ChannelApply(p.channels[i], action)],
         dropped := if action.CountDrop? then p.dropped + 1 else p.dropped,
         draining := if FoundEmpty(p.channels[i], action) then p.draining + 1 else p.draining)
  }

  /** Only the drain's own steps touch the consumer, and finding a ring empty leaves it idle. */
  lemma ConsumerAfter<T>(c: Channel<T>, action: ChannelStep<T>)
    requires 0 < c.ring.size && ChannelEnabled(c, action, true)
    ensures !action.Pop? && !action.Publish? ==>
      ChannelApply(c, action).ring.consumer == c.ring.consumer && ChannelApply(c, action).held == c.held
    ensures FoundEmpty(c, action) ==>
      ChannelApply(c, action).ring.consumer.PopIdle? && ChannelApply(c, action).held == []
  {
    hide Apply, Enabled;
    if action.Push? {
      ProducerStep(c.ring, action.step);
    } else if action.Callback? && action.report.Some? {
      ProducerStep(c.ring, CallPush(action.report.value));
    }
  }

  lemma DrainStaysAlone<T>(p: Pipeline<T>, step: PipelineStep<T>)
    requires PipelineInv(p) && PipelineEnabled(p, step) && step.At?
    ensures OneDrained(PipelineApply(p, step).channels, PipelineApply(p, step).draining)
  {
    assert ChannelInv(p.channels[step.channel]);
    assert 0 < p.channels[step.channel].ring.size;
    hide ChannelInv, ChannelApply, FoundEmpty, Total;
    ConsumerAfter(p.channels[step.channel], step.action);
  }

  lemma ChannelsUpdate<T>(cs: seq<Channel<T>>, i: nat, action: ChannelStep<T>)
    requires ChannelsInv(cs) && i < |cs| && ChannelEnabled(cs[i], action, true)
    ensures ChannelsInv(cs[i := ChannelApply(cs[i], action)])
    ensures Total(cs[i := ChannelApply(cs[i], action)], Counted)
         == Total(cs, Counted) + if action.CountDrop? then 1 else 0
  {
    assert ChannelInv(cs[i]);
    hide ChannelInv, ChannelApply, Counted;
    ChannelPreserved(cs[i], action);
    TotalUpdate(cs, i, ChannelApply(cs[i], action), Counted);
  }

  lemma PipelinePreserved<T>(p: Pipeline<T>, step: PipelineStep<T>)
    requires PipelineInv(p) && PipelineEnabled(p, step)
    ensures PipelineInv(PipelineApply(p, step))
  {
    if step.At? {
      var i := step.channel;
      assert ChannelEnabled(p.channels[i], step.action, true);
      DrainStaysAlone(p, step);
      hide ChannelsInv, ChannelApply, ChannelEnabled, OneDrained, Total, FoundEmpty;
      ChannelsUpdate(p.channels, i, step.action);
    }
  }

  /** A run from `p`. */
  ghost predicate PipelineLegal<T>(p: Pipeline<T>, steps: seq<PipelineStep<T>>)
    requires PipelineInv(p)
    decreases steps
  {
    steps != [] ==>
      && PipelineEnabled(p, steps[0])
      && (PipelinePreserved(p, steps[0]); PipelineLegal(PipelineApply(p, steps[0]), steps[1..]))
  }

  ghost function PipelineRun<T>(p: Pipeline<T>, steps: seq<PipelineStep<T>>): (q: Pipeline<T>)
    requires PipelineInv(p) && PipelineLegal(p, steps)
    ensures PipelineInv(q) && |q.channels| == |p.channels|
    decreases steps
  {
    if steps == [] then p
    else
      hide PipelineInv, PipelineEnabled;
      PipelinePreserved(p, steps[0]);
      PipelineRun(PipelineApply(p, steps[0]), steps[1..])
  }

  /** Ring sizes of the brake, steering, throttle, fault and OBD queues. */
  const QUEUE_SIZES: seq<nat> := [64, 64, 64, 64, 256]

  ghost function Fresh<T>(sizes: seq<nat>, blank: T): (cs: seq<Channel<T>>)
    ensures |cs| == |sizes|
    ensures forall i :: 0 <= i < |sizes| ==> cs[i] == Channel(Initial(sizes[i], blank), [], [], false, [], [])
  {
    if sizes == [] then []
    else [Channel(Initial(sizes[0], blank), [], [], false, [], [])] + Fresh(sizes[1..], blank)
  }

  ghost function Start<T>(sizes: seq<nat>, blank: T): Pipeline<T> {
    Pipeline(Fresh(sizes, blank), 0, |sizes|)
  }

  lemma {:induction false} FreshInv<T>(sizes: seq<nat>, blank: T)
    requires forall i :: 0 <= i < |sizes| ==> 2 <= sizes[i]
    ensures ChannelsInv(Fresh(sizes, blank)) && Total(Fresh(sizes, blank), Counted) == 0
  {
    if sizes != [] {
      InvInitially(sizes[0], blank);
      FreshInv(sizes[1..], blank);
      assert Fresh(sizes, blank)[1..] == Fresh(sizes[1..], blank);
      forall i | 0 <= i < |sizes|
        ensures ChannelInv(Fresh(sizes, blank)[i])
      {
        InvInitially(sizes[i], blank);
      }
    }
  }

  // ---------- conservation and order ----------

  /** The reports a run's callbacks are handed for one topic, in order. */
  ghost function Arriving<T>(steps: seq<PipelineStep<T>>, topic: nat): seq<T> {
    if steps == [] then []
    else
      match steps[0]
      case At(i, Callback(Some(v))) => (if i == topic then [v] else []) + Arriving(steps[1..], topic)
      case _ => Arriving(steps[1..], topic)
  }

  predicate IsOffer<T>(step: PipelineStep<T>) {
    step.At? && step.action.Callback? && step.action.report.Some?
  }

  ghost function Count<T>(steps: seq<PipelineStep<T>>, counts: PipelineStep<T> -> bool): nat {
    if steps == [] then 0 else (if counts(steps[0]) then 1 else 0) + Count(steps[1..], counts)
  }

  lemma OfferedAfter<T>(c: Channel<T>, action: ChannelStep<T>)
    requires 0 < c.ring.size && ChannelEnabled(c, action, true)
    ensures ChannelApply(c, action).offered ==
      if action.Callback? && action.report.Some? then c.offered + [action.report.value] else c.offered
  {
    hide Apply, Enabled;
  }

  ghost function OfferedTo<T>(c: Channel<T>): int { |c.offered| }

  lemma ArrivingOne<T>(step: PipelineStep<T>, topic: nat)
    ensures Arriving([step], topic) ==
      if IsOffer(step) && step.channel == topic then [step.action.report.value] else []
  {
    assert [step][1..] == [] && Arriving([step][1..], topic) == [];
  }

  lemma OfferedStep<T>(p: Pipeline<T>, step: PipelineStep<T>, topic: nat)
    requires PipelineInv(p) && PipelineEnabled(p, step) && topic < |p.channels|
    ensures PipelineInv(PipelineApply(p, step)) && |PipelineApply(p, step).channels| == |p.channels|
    ensures PipelineApply(p, step).channels[topic].offered == p.channels[topic].offered + Arriving([step], topic)
  {
    PipelinePreserved(p, step);
    ArrivingOne(step, topic);
    if step.At? {
      assert ChannelInv(p.channels[step.channel]) && ChannelEnabled(p.channels[step.channel], step.action, true);
      assert 0 < p.channels[step.channel].ring.size;
      hide ChannelInv, ChannelsInv, OneDrained, ChannelApply, ChannelEnabled, FoundEmpty, Total, Arriving;
      OfferedAfter(p.channels[step.channel], step.action);
    } else {
      hide ChannelsInv, OneDrained, Total, Arriving;
    }
  }

  lemma OfferCounted<T>(p: Pipeline<T>, step: PipelineStep<T>)
    requires PipelineInv(p) && PipelineEnabled(p, step)
    ensures Total(PipelineApply(p, step).channels, OfferedTo)
         == Total(p.channels, OfferedTo) + if IsOffer(step) then 1 else 0
  {
    if step.At? {
      var i := step.channel;
      assert ChannelInv(p.channels[i]) && ChannelEnabled(p.channels[i], step.action, true);
      assert 0 < p.channels[i].ring.size;
      hide ChannelInv, ChannelsInv, OneDrained, ChannelApply, ChannelEnabled, FoundEmpty, Total;
      OfferedAfter(p.channels[i], step.action);
      TotalUpdate(p.channels, i, ChannelApply(p.channels[i], step.action), OfferedTo);
    }
  }

  lemma ArrivingFirst<T>(step: PipelineStep<T>, rest: seq<PipelineStep<T>>, topic: nat)
    ensures Arriving([step] + rest, topic) == Arriving([step], topic) + Arriving(rest, topic)
  {
    assert ([step] + rest)[1..] == rest && [step][1..] == [] && Arriving([step][1..], topic) == [];
  }

  /** Every report a callback is handed is on record: the offers to a topic, and their
      number over all topics, are those of the run's steps. */
  lemma {:induction false} OfferedRun<T>(p: Pipeline<T>, steps: seq<PipelineStep<T>>, topic: nat)
    requires PipelineInv(p) && PipelineLegal(p, steps) && topic < |p.channels|
    ensures PipelineRun(p, steps).channels[topic].offered == p.channels[topic].offered + Arriving(steps, topic)
    ensures Total(PipelineRun(p, steps).channels, OfferedTo) == Total(p.channels, OfferedTo) + Count(steps, IsOffer)
    decreases steps
  {
    hide PipelineInv, PipelineEnabled, PipelineApply, Total, IsOffer;
    if steps != [] {
      OfferedStep(p, steps[0], topic);
      OfferCounted(p, steps[0]);
      OfferedRun(PipelineApply(p, steps[0]), steps[1..], topic);
      assert steps == [steps[0]] + steps[1..];
      ArrivingFirst(steps[0], steps[1..], topic);
    }
  }

  ghost function PublishedBy<T>(c: Channel<T>): int { |c.published| }
  ghost function QueuedIn<T>(c: Channel<T>): int { |c.ring.accepted| - |c.ring.popped| }
  ghost function InFlight<T>(c: Channel<T>): int { InCallback(c) + |c.held| }

  lemma {:induction false} TotalBalance<T>(cs: seq<Channel<T>>)
    requires ChannelsInv(cs)
    ensures Total(cs, OfferedTo)
         == Total(cs, PublishedBy) + Total(cs, QueuedIn) + Total(cs, InFlight) + Total(cs, Counted)
  {
    if cs != [] {
      ChannelBalance(cs[0]);
      TotalBalance(cs[1..]);
    }
  }

  lemma {:induction false} FreshOffers<T>(sizes: seq<nat>, blank: T)
    ensures Total(Fresh(sizes, blank), OfferedTo) == 0
  {
    if sizes != [] {
      FreshOffers(sizes[1..], blank);
      assert Fresh(sizes, blank)[1..] == Fresh(sizes[1..], blank);
    }
  }

  /** In every run, the reports handed to the callbacks are as many as those published,
      queued, in flight, and counted by the one shared drop counter. */
  lemma Conservation<T>(blank: T, steps: seq<PipelineStep<T>>)
    ensures PipelineInv(Start(QUEUE_SIZES, blank))
    ensures PipelineLegal(Start(QUEUE_SIZES, blank), steps) ==>
      var p := PipelineRun(Start(QUEUE_SIZES, blank), steps);
      Count(steps, IsOffer)
      == Total(p.channels, PublishedBy) + Total(p.channels, QueuedIn) + Total(p.channels, InFlight) + p.dropped
  {
    FreshInv(QUEUE_SIZES, blank);
    var p := Start(QUEUE_SIZES, blank);
    assert PipelineInv(p);
    if PipelineLegal(p, steps) {
      FreshOffers(QUEUE_SIZES, blank);
      OfferedRun(p, steps, 0);
      TotalBalance(PipelineRun(p, steps).channels);
    }
  }

  /** On each topic, what was published, then what the drain holds, then what is queued is
      exactly the accepted ones of the reports the callbacks were handed, in that order,
      payload and stamp unchanged. When the others were refused is what VerdictExactly says. */
  lemma TopicOrder<T>(p: Pipeline<T>, steps: seq<PipelineStep<T>>, topic: nat)
    requires PipelineInv(p) && PipelineLegal(p, steps) && topic < |p.channels|
    ensures var c := PipelineRun(p, steps).channels[topic];
            var reports := p.channels[topic].offered + Arriving(steps, topic);
            && c.offered == reports
            && c.ring.popped <= c.ring.accepted && |c.verdicts| <= |reports| <= |c.verdicts| + 1
            && c.published + c.held + c.ring.Queue() == Selected(reports, c.verdicts)
            && |c.held| <= 1 && |c.ring.Queue()| <= c.ring.size - 1
  {
    var c := PipelineRun(p, steps).channels[topic];
    assert ChannelInv(c);
    OfferedRun(p, steps, topic);
    ChannelBalance(c);
  }

  // ---------- the drain ends ----------

  ghost function Rank<T>(c: Consumer<T>): nat {
    match c
    case PopIdle => 0
    case PopCalled => 1
    case TailLoaded(_) => 2
    case ItemSeen(_) => 3
    case SlotCopied(_, _) => 4
  }

  /** Steps the drain may still take at a channel: six for each queued item, three for
      the pop that finds nothing, one to publish an item it holds. */
  ghost function ChannelWork<T>(c: Channel<T>): int {
    6 * QueuedIn(c) + 3 - Rank(c.ring.consumer) + |c.held|
  }

  ghost function Work<T>(p: Pipeline<T>): int
    requires p.draining <= |p.channels|
  {
    Total(p.channels[p.draining..], ChannelWork)
  }

  predicate IsDrainStep<T>(step: PipelineStep<T>) {
    step.At? && (step.action.Pop? || step.action.Publish?)
  }

  predicate IsArrival<T>(step: PipelineStep<T>) {
    step.At? && step.action.Push? && step.action.step.StoreHead?
  }

  lemma PopWork<T>(c: Channel<T>, step: Step<T>)
    requires 0 < c.ring.size && ChannelEnabled(c, Pop(step), true)
    ensures ChannelWork(ChannelApply(c, Pop(step))) == ChannelWork(c) + if FoundEmpty(c, Pop(step)) then 2 else -1
    ensures FoundEmpty(c, Pop(step)) ==> Rank(c.ring.consumer) == 2 && c.held == []
  {
    hide Visible;
  }

  lemma ChannelWorkStep<T>(c: Channel<T>, action: ChannelStep<T>)
    requires ChannelInv(c) && ChannelEnabled(c, action, true)
    ensures ChannelWork(ChannelApply(c, action)) ==
      ChannelWork(c) + if action.Push? && action.step.StoreHead? then 6
                       else if FoundEmpty(c, action) then 2
                       else if action.Pop? || action.Publish? then -1
                       else 0
    ensures FoundEmpty(c, action) ==> 1 <= ChannelWork(c)
    ensures 0 <= ChannelWork(c)
  {
    assert |c.ring.popped| <= |c.ring.accepted| && 0 < c.ring.size;
    hide Inv, Accounts, Apply, Enabled;
    match action
    case Callback(None) =>
    case Callback(Some(v)) => ProducerStep(c.ring, CallPush(v));
    case Push(step) => ProducerStep(c.ring, step);
    case CountDrop =>
    case Pop(step) => PopWork(c, step);
    case Publish =>
  }

  lemma {:induction false} TotalNonNegative<T>(cs: seq<Channel<T>>)
    requires ChannelsInv(cs)
    ensures 0 <= Total(cs, ChannelWork)
  {
    if cs != [] {
      assert ChannelInv(cs[0]);
      TotalNonNegative(cs[1..]);
    }
  }

  lemma WorkAfter<T>(p: Pipeline<T>, i: nat, c: Channel<T>)
    requires p.draining <= |p.channels| && i < |p.channels|
    ensures Total(p.channels[i := c][p.draining..], ChannelWork)
         == Total(p.channels[p.draining..], ChannelWork)
            + if p.draining <= i then ChannelWork(c) - ChannelWork(p.channels[i]) else 0
  {
    var d := p.draining;
    if d <= i {
      assert p.channels[i := c][d..] == p.channels[d..][i - d := c];
      TotalUpdate(p.channels[d..], i - d, c, ChannelWork);
    } else {
      assert p.channels[i := c][d..] == p.channels[d..];
    }
  }

  lemma WorkStep<T>(p: Pipeline<T>, step: PipelineStep<T>)
    requires PipelineInv(p) && PipelineEnabled(p, step) && step.At?
    ensures PipelineInv(PipelineApply(p, step))
    ensures Work(PipelineApply(p, step)) + (if IsDrainStep(step) then 1 else 0)
         <= Work(p) + if IsArrival(step) then 6 else 0
  {
    PipelinePreserved(p, step);
    var i, c := step.channel, p.channels[step.channel];
    assert ChannelInv(c) && ChannelEnabled(c, step.action, true);
    assert i < p.draining ==> !step.action.Pop? && !step.action.Publish?;
    assert FoundEmpty(c, step.action) ==> step.action.Pop? && i == p.draining;
    hide ChannelInv, ChannelApply, ChannelEnabled, FoundEmpty, OneDrained, ChannelWork;
    var next := ChannelApply(c, step.action);
    ChannelWorkStep(c, step.action);
    if FoundEmpty(c, step.action) {
      assert p.channels[i := next][i + 1..] == p.channels[i..][1..];
    } else {
      WorkAfter(p, i, next);
    }
  }

  lemma {:induction false} IdleWork<T>(cs: seq<Channel<T>>)
    requires forall i :: 0 <= i < |cs| ==> cs[i].ring.consumer.PopIdle? && cs[i].held == []
    ensures Total(cs, ChannelWork) == 6 * Total(cs, QueuedIn) + 3 * |cs|
  {
    if cs != [] {
      IdleWork(cs[1..]);
    }
  }

  /** A drain starts with six steps of work for each queued item and three for each queue. */
  lemma WorkAtStart<T>(p: Pipeline<T>)
    requires PipelineInv(p) && PipelineEnabled(p, BeginDrain)
    ensures Work(PipelineApply(p, BeginDrain)) == 6 * Total(p.channels, QueuedIn) + 3 * |p.channels|
  {
    assert p.channels[0..] == p.channels;
    IdleWork(p.channels);
  }

  /** One drain takes at most as many steps as the work it found plus six for each report
      that arrives meanwhile, so with finitely many arrivals it ends. */
  lemma {:induction false} DrainBounded<T>(p: Pipeline<T>, steps: seq<PipelineStep<T>>)
    requires PipelineInv(p) && PipelineLegal(p, steps)
    requires forall i :: 0 <= i < |steps| ==> steps[i].At?
    ensures Count(steps, IsDrainStep) <= Work(p) + 6 * Count(steps, IsArrival)
    decreases steps
  {
    if steps == [] {
      TotalNonNegative(p.channels[p.draining..]);
    } else {
      WorkStep(p, steps[0]);
      DrainBounded(PipelineApply(p, steps[0]), steps[1..]);
    }
  }

  /** One drain from its start: at most six steps for each item queued then or arriving
      meanwhile, and three for each queue. */
  lemma WholeDrainBounded<T>(p: Pipeline<T>, steps: seq<PipelineStep<T>>)
    requires PipelineInv(p) && PipelineEnabled(p, BeginDrain)
    requires PipelineInv(PipelineApply(p, BeginDrain)) && PipelineLegal(PipelineApply(p, BeginDrain), steps)
    requires forall i :: 0 <= i < |steps| ==> steps[i].At?
    ensures Count(steps, IsDrainStep)
         <= 6 * (Total(p.channels, QueuedIn) + Count(steps, IsArrival)) + 3 * |p.channels|
  {
    WorkAtStart(p);
    DrainBounded(PipelineApply(p, BeginDrain), steps);
  }

  /** The drain's own next step, with a current load. */
  ghost function NextDrainStep<T>(c: Channel<T>): ChannelStep<T> {
    if c.held != [] then Publish else
      match c.ring.consumer
      case PopIdle => Pop(CallPop)
      case PopCalled => Pop(LoadOwnTail(|c.ring.popped|))
      case TailLoaded(_) => Pop(LoadHead(|c.ring.accepted|))
      case ItemSeen(_) => Pop(ReadSlot(|c.ring.popped|))
      case SlotCopied(_, _) => Pop(StoreTail)
  }

  /** A running drain can always take a step: with the bound above, it reaches its end. */
  lemma DrainNeverStuck<T>(p: Pipeline<T>)
    requires PipelineInv(p) && p.draining < |p.channels|
    ensures PipelineEnabled(p, At(p.draining, NextDrainStep(p.channels[p.draining])))
    ensures IsDrainStep(At(p.draining, NextDrainStep(p.channels[p.draining])))
  {
    var c := p.channels[p.draining];
    assert ChannelInv(c);
    if c.held == [] && c.ring.consumer.ItemSeen? {
      OldestIsReadable(c.ring);
    }
  }

  lemma {:induction false} CountAppend<T>(
      steps: seq<PipelineStep<T>>, step: PipelineStep<T>, counts: PipelineStep<T> -> bool)
    ensures Count(steps + [step], counts) == Count(steps, counts) + if counts(step) then 1 else 0
  {
    if steps == [] {
      assert steps + [step] == [step];
    } else {
      assert (steps + [step])[1..] == steps[1..] + [step];
      CountAppend(steps[1..], step, counts);
    }
  }

  lemma {:induction false} LegalAppend<T>(p: Pipeline<T>, steps: seq<PipelineStep<T>>, step: PipelineStep<T>)
    requires PipelineInv(p) && PipelineLegal(p, steps) && PipelineEnabled(PipelineRun(p, steps), step)
    ensures PipelineLegal(p, steps + [step])
    decreases steps
  {
    hide PipelineInv, PipelineEnabled;
    if steps == [] {
      assert steps + [step] == [step] && [step][1..] == [];
      PipelinePreserved(p, step);
    } else {
      assert (steps + [step])[0] == steps[0] && (steps + [step])[1..] == steps[1..] + [step];
      PipelinePreserved(p, steps[0]);
      LegalAppend(PipelineApply(p, steps[0]), steps[1..], step);
    }
  }

  lemma NotAnArrival<T>(step: PipelineStep<T>)
    requires IsDrainStep(step)
    ensures step.At? && !IsArrival(step)
  {}

  /** A drain ends, whatever the callbacks do meanwhile and whatever its loads return: as
      long as it has not, it can take a step of its own, and it has taken fewer than six for
      each item queued at its start or arriving meanwhile and three for each queue. */
  lemma DrainEnds<T>(p: Pipeline<T>, steps: seq<PipelineStep<T>>)
    requires PipelineInv(p) && PipelineEnabled(p, BeginDrain)
    requires PipelineInv(PipelineApply(p, BeginDrain)) && PipelineLegal(PipelineApply(p, BeginDrain), steps)
    requires forall i :: 0 <= i < |steps| ==> steps[i].At?
    ensures var q := PipelineRun(PipelineApply(p, BeginDrain), steps);
            q.draining < |q.channels| ==>
              && PipelineEnabled(q, At(q.draining, NextDrainStep(q.channels[q.draining])))
              && Count(steps, IsDrainStep)
                 < 6 * (Total(p.channels, QueuedIn) + Count(steps, IsArrival)) + 3 * |p.channels|
  {
    var start := PipelineApply(p, BeginDrain);
    var q := PipelineRun(start, steps);
    if q.draining < |q.channels| {
      var next := At(q.draining, NextDrainStep(q.channels[q.draining]));
      DrainNeverStuck(q);
      hide *;
      LegalAppend(start, steps, next);
      CountAppend(steps, next, IsDrainStep);
      CountAppend(steps, next, IsArrival);
      NotAnArrival(next);
      WholeDrainBounded(p, steps + [next]);
    }
  }

  /** Drain steps leave the channels behind the drain alone. */
  ghost predicate SameBehind<T>(p: Pipeline<T>, q: Pipeline<T>) {
    && |q.channels| == |p.channels| && p.draining <= q.draining <= |p.channels|
    && forall i :: 0 <= i < p.draining ==> q.channels[i] == p.channels[i]
  }

  /** Everything accepted is published. */
  ghost predicate Emptied<T>(c: Channel<T>) {
    c.ring.popped == c.ring.accepted && c.published == c.ring.accepted
  }

  lemma EmptyWhenFound<T>(c: Channel<T>, action: ChannelStep<T>)
    requires ChannelInv(c) && action == NextDrainStep(c) && ChannelEnabled(c, action, true)
    ensures FoundEmpty(c, action) ==> Emptied(ChannelApply(c, action))
  {
    if FoundEmpty(c, action) {
      EmptyExactly(c.ring, |c.ring.accepted|);
    }
  }

  lemma WorkNonNegative<T>(p: Pipeline<T>)
    requires PipelineInv(p)
    ensures p.draining <= |p.channels| && 0 <= Work(p)
  {
    TotalNonNegative(p.channels[p.draining..]);
  }

  lemma NextDrainStepStays<T>(p: Pipeline<T>)
    requires PipelineInv(p) && p.draining < |p.channels|
    requires PipelineEnabled(p, At(p.draining, NextDrainStep(p.channels[p.draining])))
    ensures var q := PipelineApply(p, At(p.draining, NextDrainStep(p.channels[p.draining])));
            && SameBehind(p, q)
            && (p.draining < q.draining ==> q.draining == p.draining + 1 && Emptied(q.channels[p.draining]))
  {
    var c := p.channels[p.draining];
    assert ChannelInv(c) && ChannelEnabled(c, NextDrainStep(c), true);
    hide ChannelInv, ChannelApply, ChannelEnabled, FoundEmpty, Emptied, OneDrained, ChannelsInv, Total, NextDrainStep;
    EmptyWhenFound(c, NextDrainStep(c));
  }

  lemma NextDrainStepWorks<T>(p: Pipeline<T>) returns (step: PipelineStep<T>)
    requires PipelineInv(p) && p.draining < |p.channels|
    ensures PipelineEnabled(p, step) && IsDrainStep(step) && PipelineInv(PipelineApply(p, step))
    ensures 0 <= Work(PipelineApply(p, step)) < Work(p)
    ensures var q := PipelineApply(p, step);
            && SameBehind(p, q)
            && (p.draining < q.draining ==> q.draining == p.draining + 1 && Emptied(q.channels[p.draining]))
  {
    step := At(p.draining, NextDrainStep(p.channels[p.draining]));
    assert p.draining < |p.channels| && step.At?;
    hide PipelineInv, PipelineEnabled, PipelineApply, Work, NextDrainStep, SameBehind, Emptied;
    DrainNeverStuck(p);
    WorkStep(p, step);
    WorkNonNegative(PipelineApply(p, step));
    NextDrainStepStays(p);
  }

  ghost predicate EmptiedFrom<T>(q: Pipeline<T>, from: nat) {
    forall i :: from <= i < |q.channels| ==> Emptied(q.channels[i])
  }

  lemma StillEmptied<T>(p: Pipeline<T>, next: Pipeline<T>, last: Pipeline<T>)
    requires SameBehind(p, next) && SameBehind(next, last) && EmptiedFrom(last, next.draining)
    requires p.draining < next.draining ==> next.draining == p.draining + 1 && Emptied(next.channels[p.draining])
    ensures SameBehind(p, last) && EmptiedFrom(last, p.draining)
  {
    hide Emptied;
  }

  lemma RunFirst<T>(p: Pipeline<T>, step: PipelineStep<T>, rest: seq<PipelineStep<T>>)
    requires PipelineInv(p) && PipelineEnabled(p, step) && PipelineInv(PipelineApply(p, step))
    requires PipelineLegal(PipelineApply(p, step), rest)
    ensures PipelineLegal(p, [step] + rest)
    ensures PipelineRun(p, [step] + rest) == PipelineRun(PipelineApply(p, step), rest)
  {
    hide PipelineInv, PipelineEnabled, PipelineApply;
    assert ([step] + rest)[1..] == rest;
  }

  lemma AtEnd<T>(p: Pipeline<T>)
    requires PipelineInv(p) && p.draining == |p.channels|
    ensures PipelineLegal(p, [])
    ensures var q := PipelineRun(p, []);
            SameBehind(p, q) && q.draining == |p.channels| && EmptiedFrom(q, p.draining)
  {}

  /** Left to itself, a running drain reaches its end within its remaining work, and leaves
      every queue it still had before it empty, with all that was accepted published. */
  lemma {:induction false} DrainFinishes<T>(p: Pipeline<T>) returns (steps: seq<PipelineStep<T>>)
    requires PipelineInv(p)
    ensures PipelineLegal(p, steps) && |steps| <= Work(p)
    ensures forall i :: 0 <= i < |steps| ==> IsDrainStep(steps[i])
    ensures var q := PipelineRun(p, steps);
            SameBehind(p, q) && q.draining == |p.channels| && EmptiedFrom(q, p.draining)
    decreases if Work(p) < 0 then 0 else Work(p)
  {
    hide *;
    WorkNonNegative(p);
    if p.draining == |p.channels| {
      AtEnd(p);
      steps := [];
    } else {
      var step := NextDrainStepWorks(p);
      var next := PipelineApply(p, step);
      var rest := DrainFinishes(next);
      steps := [step] + rest;
      RunFirst(p, step, rest);
      StillEmptied(p, next, PipelineRun(next, rest));
    }
  }

  /** In every run, interleaved with the other channels, a ring stays race-free, its
      consumer reads only the oldest item and its producer writes only a free slot. */
  lemma RingsStaySafe<T>(p: Pipeline<T>, steps: seq<PipelineStep<T>>, topic: nat, read: int)
    requires PipelineInv(p) && PipelineLegal(p, steps) && topic < |p.channels|
    ensures var r := PipelineRun(p, steps).channels[topic].ring;
            && !WriteRaces(r) && !ReadRaces(r)
            && (r.consumer.ItemSeen? ==> (Enabled(r, ReadSlot(read)) <==> read == |r.popped|))
            && (Writing(r) ==> forall k :: |r.popped| <= k < |r.accepted| ==> k % r.size != ProducerSlot(r))
            && (Writing(r) && Copying(r) ==> ConsumerSlot(r) != ProducerSlot(r))
  {
    var c := PipelineRun(p, steps).channels[topic];
    assert ChannelInv(c);
    hide PipelineRun, PipelineInv, Enabled, WriteRaces, ReadRaces;
    RaceFree(c.ring);
    if c.ring.consumer.ItemSeen? {
      PayloadVisible(c.ring, read);
    }
    if Writing(c.ring) {
      SlotExclusive(c.ring);
    }
  }
}
