/**
  OsccToRos: the callbacks enqueue stamped reports, the drain empties the five queues onto
  their topics and feeds each CAN frame to the OBD decoder. This is the drain without
  arrivals in its midst; ReportPipeline covers the interleavings.
*/
module OsccToRosBridge {
  import opened ObdFeedbacks
  import opened Options
  import opened Reports
  import opened SignalQueues

  /** What a callback does to its queue and to the shared drop count: a null report
      changes nothing; any other is queued, or refused and counted. */
  ghost predicate Taken<T>(
    report: Option<T>, now: Timespec, before: seq<Stamped<T>>, after: seq<Stamped<T>>, size: nat,
    drops: nat, drops': nat)
  {
    match report
    case None => after == before && drops' == drops
    case Some(value) =>
      if |before| < size - 1 then after == before + [Stamped(value, now)] && drops' == drops
      else after == before && drops' == drops + 1
  }

  /** A callback loses nothing it does not count: the queue keeps its items, a report is
      appended with its stamp while there is room, and counted as dropped when there is not. */
  lemma TakenAccounts<T>(
    report: Option<T>, now: Timespec, before: seq<Stamped<T>>, after: seq<Stamped<T>>, size: nat,
    drops: nat, drops': nat)
    requires Taken(report, now, before, after, size, drops, drops') && |before| <= size - 1
    ensures |after| + drops' == |before| + drops + if report.Some? then 1 else 0
    ensures before <= after && drops <= drops'
    ensures drops < drops' <==> report.Some? && |before| == size - 1
    ensures |before| < |after| ==> after[|before|].data == report.value && after[|before|].stamp == now
  {}

  method Enqueue<T>(queue: SignalQueue<Stamped<T>>, report: Option<T>, now: Timespec, dropped: nat) returns (drops: nat)
    requires queue.Valid()
    modifies queue`head, queue`pushes, queue.buffer
    ensures queue.Valid()
    ensures Taken(report, now, old(queue.Contents()), queue.Contents(), queue.size, dropped, drops)
  {
    if report.None? {
      return dropped;
    }
    var ok := queue.Push(Stamped(report.value, now));
    drops := if ok then dropped else dropped + 1;
  }

  /** A topic after the first `k` items have gone out. */
  ghost function AfterItems<A, M>(topic: seq<M>, convert: A -> M, items: seq<A>, k: nat): seq<M>
    requires k <= |items|
  {
    topic + Map(convert, items[..k])
  }

  lemma NoItemsYet<A, M>(topic: seq<M>, convert: A -> M, items: seq<A>)
    ensures items[0..] == items && AfterItems(topic, convert, items, 0) == topic
  {}

  lemma ItemGoesOut<A, M>(topic: seq<M>, convert: A -> M, items: seq<A>, k: nat)
    requires k < |items|
    ensures AfterItems(topic, convert, items, k + 1) == AfterItems(topic, convert, items, k) + [convert(items[k])]
  {}

  /** What the pop loop of one topic does to its queue and topic, if the drain reaches it:
      the items go out in order up to the first whose stamp throws, which ends the drain. */
  ghost predicate Drained<T, M>(
    reached: bool, convert: Stamped<T> -> M, items: seq<Stamped<T>>, left: seq<Stamped<T>>,
    topic: seq<M>, published: seq<M>)
  {
    if reached then
      left == Untouched(items) && published == AfterItems(topic, convert, items, Timely(items))
    else
      left == items && published == topic
  }

  /** The items divide into those that went out, the one lost to the exception if there was
      one, and those left. */
  lemma DrainedParts<T, M>(
      convert: Stamped<T> -> M, items: seq<Stamped<T>>, left: seq<Stamped<T>>, topic: seq<M>, published: seq<M>)
    returns (sent: seq<Stamped<T>>, lost: seq<Stamped<T>>)
    requires Drained(true, convert, items, left, topic, published)
    ensures items == sent + lost + left && published == topic + Map(convert, sent)
    ensures forall i :: 0 <= i < |sent| ==> !TimeThrows(sent[i].stamp)
    ensures if AllTimely(items) then lost == [] && left == [] else |lost| == 1 && TimeThrows(lost[0].stamp)
  {
    var k := Timely(items);
    sent := items[..k];
    lost := if k < |items| then [items[k]] else [];
    assert left == items[k + |lost|..];
    assert published == topic + Map(convert, sent);
    hide Timely, Untouched, Map;
    assert items == sent + lost + left;
  }

  /** With every stamp in range all items go out and the queue is left empty. */
  lemma DrainedAll<T, M>(
      convert: Stamped<T> -> M, items: seq<Stamped<T>>, left: seq<Stamped<T>>, topic: seq<M>, published: seq<M>)
    requires Drained(true, convert, items, left, topic, published) && AllTimely(items)
    ensures left == [] && published == topic + Map(convert, items)
  {
    assert items[..|items|] == items;
  }

  /** The item just popped is the next one, and decides whether the loop goes on. */
  lemma NextItem<T>(items: seq<Stamped<T>>, k: nat, item: Stamped<T>, rest: seq<Stamped<T>>)
    requires k <= Timely(items) && items[k..] == [item] + rest
    ensures k < |items| && items[k] == item && items[k + 1..] == rest
    ensures if TimeThrows(item.stamp) then k == Timely(items) && !AllTimely(items) && Untouched(items) == rest
            else k + 1 <= Timely(items)
  {
    assert items[k..][0] == items[k] && items[k..][1..] == items[k + 1..];
  }

  lemma NoMoreItems<T>(items: seq<Stamped<T>>, k: nat)
    requires k <= Timely(items) && k == |items|
    ensures AllTimely(items) && Untouched(items) == []
  {}

  /** The pop loop of one topic; it publishes at most size - 1 items. */
  method DrainQueue<T, M>(queue: SignalQueue<Stamped<T>>, blank: Stamped<T>, convert: Stamped<T> -> M, topic: seq<M>)
    returns (published: seq<M>, threw: bool, ghost rounds: nat)
    requires queue.Valid()
    modifies queue`tail, queue`pops
    ensures queue.Valid()
    ensures Drained(true, convert, old(queue.Contents()), queue.Contents(), topic, published)
    ensures threw <==> !AllTimely(old(queue.Contents()))
    ensures rounds == Timely(old(queue.Contents())) <= queue.size - 1
  {
    published, threw, rounds := topic, false, 0;
    ghost var items := queue.Contents();
    assert |items| <= queue.size - 1;
    hide SignalQueue.Valid, SignalQueue.Contents, AfterItems, Timely, Untouched, AllTimely, TimeThrows;
    NoItemsYet(topic, convert, items);
    var ok, item := queue.Pop(blank);
    while ok
      invariant queue.Valid() && rounds <= Timely(items)
      invariant if ok then items[rounds..] == [item] + queue.Contents()
                else rounds == |items| && queue.Contents() == []
      invariant published == AfterItems(topic, convert, items, rounds)
      decreases |items| - rounds
    {
      NextItem(items, rounds, item, queue.Contents());
      if TimeThrows(item.stamp) {
        return published, true, rounds;
      }
      ItemGoesOut(topic, convert, items, rounds);
      published := published + [convert(item)];
      rounds := rounds + 1;
      ok, item := queue.Pop(item);
    }
    NoMoreItems(items, rounds);
  }

  method PublishFrame(item: Stamped<CanFrame>, out: Arrival, feedback: ObdFeedback, topic: seq<Arrival>)
    returns (published: seq<Arrival>)
    requires out.data == item.data && feedback.Valid() && feedback.processed == topic
    modifies feedback
    ensures published == topic + [out]
    ensures feedback.Valid() && feedback.processed == published
  {
    hide ObdFeedback.Valid;
    published := topic + [out];
    feedback.Process(item.data, out.stamp);
  }

  /** The pop loop of the OBD topic: every frame goes out, and then to the decoder. */
  method DrainObd(
      queue: SignalQueue<Stamped<CanFrame>>, blank: Stamped<CanFrame>, feedback: ObdFeedback, topic: seq<Arrival>)
    returns (published: seq<Arrival>, threw: bool)
    requires queue.Valid() && feedback.Valid() && feedback.processed == topic
    modifies queue`tail, queue`pops, feedback
    ensures queue.Valid()
    ensures Drained(true, FrameMessage, old(queue.Contents()), queue.Contents(), topic, published)
    ensures threw <==> !AllTimely(old(queue.Contents()))
    ensures feedback.Valid() && feedback.processed == published
  {
    hide SignalQueue.Valid, SignalQueue.Contents, AfterItems, Timely, Untouched, AllTimely, TimeThrows;
    hide ObdFeedback.Valid, FrameMessage;
    published, threw := topic, false;
    ghost var items, k := queue.Contents(), 0;
    NoItemsYet(topic, FrameMessage, items);
    var ok, item := queue.Pop(blank);
    while ok
      invariant queue.Valid() && k <= Timely(items)
      invariant if ok then items[k..] == [item] + queue.Contents() else k == |items| && queue.Contents() == []
      invariant published == AfterItems(topic, FrameMessage, items, k)
      invariant feedback.Valid() && feedback.processed == published
      decreases |items| - k
    {
      NextItem(items, k, item, queue.Contents());
      if TimeThrows(item.stamp) {
        return published, true;
      }
      ItemGoesOut(topic, FrameMessage, items, k);
      published := PublishFrame(item, FrameMessage(item), feedback, published);
      k := k + 1;
      ok, item := queue.Pop(item);
    }
    NoMoreItems(items, k);
  }

  class OsccToRos {
    const brakeQueue: SignalQueue<Stamped<ModuleReport>>
    const steeringQueue: SignalQueue<Stamped<ModuleReport>>
    const throttleQueue: SignalQueue<Stamped<ModuleReport>>
    const faultQueue: SignalQueue<Stamped<FaultReport>>
    const obdQueue: SignalQueue<Stamped<CanFrame>>
    const feedback: ObdFeedback
    var dropped: nat
    var lastReportedDrops: nat
    var brakePub: seq<Message<ModuleReport>>
    var steeringPub: seq<Message<ModuleReport>>
    var throttlePub: seq<Message<ModuleReport>>
    var faultPub: seq<Message<FaultReport>>
    var obdPub: seq<Message<CanFrame>>

    ghost predicate Valid()
      reads this, feedback, brakeQueue, steeringQueue, throttleQueue, faultQueue, obdQueue
      reads brakeQueue.buffer, steeringQueue.buffer, throttleQueue.buffer, faultQueue.buffer, obdQueue.buffer
    {
      && brakeQueue != steeringQueue && brakeQueue != throttleQueue && steeringQueue != throttleQueue
      && brakeQueue.buffer != steeringQueue.buffer && brakeQueue.buffer != throttleQueue.buffer
      && steeringQueue.buffer != throttleQueue.buffer
      && brakeQueue.Valid() && steeringQueue.Valid() && throttleQueue.Valid()
      && faultQueue.Valid() && obdQueue.Valid()
      && feedback.Valid()
      // the decoder has seen exactly the published frames, in order
      && feedback.processed == obdPub
    }

    /** The queues and the drop counter are static: they may hold reports already. */
    constructor (
        brake: SignalQueue<Stamped<ModuleReport>>, steering: SignalQueue<Stamped<ModuleReport>>,
        throttle: SignalQueue<Stamped<ModuleReport>>, fault: SignalQueue<Stamped<FaultReport>>,
        obd: SignalQueue<Stamped<CanFrame>>, drops: nat, declared: Settings)
      requires brake.Valid() && steering.Valid() && throttle.Valid() && fault.Valid() && obd.Valid()
      requires brake != steering && brake != throttle && steering != throttle
      requires brake.buffer != steering.buffer && brake.buffer != throttle.buffer && steering.buffer != throttle.buffer
      requires declared.InRange()
      ensures Valid() && dropped == drops && lastReportedDrops == 0
      ensures brakePub == steeringPub == throttlePub == [] && faultPub == [] && obdPub == []
      ensures brakeQueue == brake && steeringQueue == steering && throttleQueue == throttle
      ensures faultQueue == fault && obdQueue == obd
      ensures fresh(feedback)
      ensures feedback.settings ==
        declared.(steering := Checked(declared.steering), brakePedal := Checked(declared.brakePedal))
    {
      brakeQueue, steeringQueue, throttleQueue := brake, steering, throttle;
      faultQueue, obdQueue := fault, obd;
      feedback := new ObdFeedback(declared);
      dropped, lastReportedDrops := drops, 0;
      brakePub, steeringPub, throttlePub, faultPub, obdPub := [], [], [], [], [];
    }

    method BrakeCallback(report: Option<ModuleReport>, now: Timespec)
      requires Valid()
      modifies this`dropped, brakeQueue`head, brakeQueue`pushes, brakeQueue.buffer
      ensures Valid()
      ensures Taken(
        report, now, old(brakeQueue.Contents()), brakeQueue.Contents(), brakeQueue.size, old(dropped), dropped)
    {
      dropped := Enqueue(brakeQueue, report, now, dropped);
    }

    method SteeringCallback(report: Option<ModuleReport>, now: Timespec)
      requires Valid()
      modifies this`dropped, steeringQueue`head, steeringQueue`pushes, steeringQueue.buffer
      ensures Valid()
      ensures Taken(
        report, now, old(steeringQueue.Contents()), steeringQueue.Contents(), steeringQueue.size, old(dropped), dropped)
    {
      dropped := Enqueue(steeringQueue, report, now, dropped);
    }

    method ThrottleCallback(report: Option<ModuleReport>, now: Timespec)
      requires Valid()
      modifies this`dropped, throttleQueue`head, throttleQueue`pushes, throttleQueue.buffer
      ensures Valid()
      ensures Taken(
        report, now, old(throttleQueue.Contents()), throttleQueue.Contents(), throttleQueue.size, old(dropped), dropped)
    {
      dropped := Enqueue(throttleQueue, report, now, dropped);
    }

    method FaultCallback(report: Option<FaultReport>, now: Timespec)
      requires Valid()
      modifies this`dropped, faultQueue`head, faultQueue`pushes, faultQueue.buffer
      ensures Valid()
      ensures Taken(
        report, now, old(faultQueue.Contents()), faultQueue.Contents(), faultQueue.size, old(dropped), dropped)
    {
      dropped := Enqueue(faultQueue, report, now, dropped);
    }

    method ObdCallback(frame: Option<CanFrame>, now: Timespec)
      requires Valid()
      modifies this`dropped, obdQueue`head, obdQueue`pushes, obdQueue.buffer
      ensures Valid()
      ensures Taken(
        frame, now, old(obdQueue.Contents()), obdQueue.Contents(), obdQueue.size, old(dropped), dropped)
    {
      dropped := Enqueue(obdQueue, frame, now, dropped);
    }

    // The five pop loops of drain, one topic each.

    method DrainBrake(blank: Stamped<ModuleReport>) returns (threw: bool)
      requires Valid()
      modifies brakeQueue`tail, brakeQueue`pops, this`brakePub
      ensures Valid() && (threw <==> !AllTimely(old(brakeQueue.Contents())))
      ensures Drained(true, ModuleMessage, old(brakeQueue.Contents()), brakeQueue.Contents(), old(brakePub), brakePub)
    {
      hide ObdFeedback.Valid;
      ghost var rounds: nat;
      brakePub, threw, rounds := DrainQueue(brakeQueue, blank, ModuleMessage, brakePub);
    }

    method DrainSteering(blank: Stamped<ModuleReport>) returns (threw: bool)
      requires Valid()
      modifies steeringQueue`tail, steeringQueue`pops, this`steeringPub
      ensures Valid() && (threw <==> !AllTimely(old(steeringQueue.Contents())))
      ensures Drained(
        true, ModuleMessage, old(steeringQueue.Contents()), steeringQueue.Contents(), old(steeringPub), steeringPub)
    {
      hide ObdFeedback.Valid;
      ghost var rounds: nat;
      steeringPub, threw, rounds := DrainQueue(steeringQueue, blank, ModuleMessage, steeringPub);
    }

    method DrainThrottle(blank: Stamped<ModuleReport>) returns (threw: bool)
      requires Valid()
      modifies throttleQueue`tail, throttleQueue`pops, this`throttlePub
      ensures Valid() && (threw <==> !AllTimely(old(throttleQueue.Contents())))
      ensures Drained(
        true, ModuleMessage, old(throttleQueue.Contents()), throttleQueue.Contents(), old(throttlePub), throttlePub)
    {
      hide ObdFeedback.Valid;
      ghost var rounds: nat;
      throttlePub, threw, rounds := DrainQueue(throttleQueue, blank, ModuleMessage, throttlePub);
    }

    method DrainFault(blank: Stamped<FaultReport>) returns (threw: bool)
      requires Valid()
      modifies faultQueue`tail, faultQueue`pops, this`faultPub
      ensures Valid() && (threw <==> !AllTimely(old(faultQueue.Contents())))
      ensures Drained(true, FaultMessage, old(faultQueue.Contents()), faultQueue.Contents(), old(faultPub), faultPub)
    {
      hide ObdFeedback.Valid;
      ghost var rounds: nat;
      faultPub, threw, rounds := DrainQueue(faultQueue, blank, FaultMessage, faultPub);
    }

    method DrainFrames(blank: Stamped<CanFrame>) returns (threw: bool)
      requires Valid()
      modifies obdQueue`tail, obdQueue`pops, this`obdPub, feedback
      ensures Valid() && (threw <==> !AllTimely(old(obdQueue.Contents())))
      ensures Drained(true, FrameMessage, old(obdQueue.Contents()), obdQueue.Contents(), old(obdPub), obdPub)
    {
      hide ObdFeedback.Valid;
      obdPub, threw := DrainObd(obdQueue, blank, feedback, obdPub);
    }

    // The loops in the order of drain: an exception skips the rest.

    method DrainModules(blank: Stamped<ModuleReport>) returns (threw: bool)
      requires Valid()
      modifies brakeQueue`tail, brakeQueue`pops, steeringQueue`tail, steeringQueue`pops
      modifies throttleQueue`tail, throttleQueue`pops, this`brakePub, this`steeringPub, this`throttlePub
      ensures Valid() && (threw <==> !old(ModulesTimely()))
      ensures Drained(true, ModuleMessage, old(brakeQueue.Contents()), brakeQueue.Contents(), old(brakePub), brakePub)
      ensures Drained(
        old(AllTimely(brakeQueue.Contents())),
        ModuleMessage, old(steeringQueue.Contents()), steeringQueue.Contents(), old(steeringPub), steeringPub)
      ensures Drained(
        old(AllTimely(brakeQueue.Contents()) && AllTimely(steeringQueue.Contents())),
        ModuleMessage, old(throttleQueue.Contents()), throttleQueue.Contents(), old(throttlePub), throttlePub)
    {
      hide ObdFeedback.Valid, SignalQueue.Valid, SignalQueue.Contents, AllTimely, AfterItems, Timely, Untouched;
      threw := DrainBrake(blank);
      if threw {
        return;
      }
      threw := DrainSteering(blank);
      if threw {
        return;
      }
      threw := DrainThrottle(blank);
    }

    /** No stamp in the brake, steering and throttle queues makes the time constructor throw. */
    ghost predicate ModulesTimely()
      requires Valid()
      reads this, feedback, brakeQueue, steeringQueue, throttleQueue, faultQueue, obdQueue
      reads brakeQueue.buffer, steeringQueue.buffer, throttleQueue.buffer, faultQueue.buffer, obdQueue.buffer
    {
      && AllTimely(brakeQueue.Contents()) && AllTimely(steeringQueue.Contents())
      && AllTimely(throttleQueue.Contents())
    }

    method DrainQueues(
        blankReport: Stamped<ModuleReport>, blankFault: Stamped<FaultReport>, blankFrame: Stamped<CanFrame>)
      returns (threw: bool)
      requires Valid()
      modifies brakeQueue`tail, brakeQueue`pops, steeringQueue`tail, steeringQueue`pops
      modifies throttleQueue`tail, throttleQueue`pops, faultQueue`tail, faultQueue`pops
      modifies obdQueue`tail, obdQueue`pops, feedback
      modifies this`brakePub, this`steeringPub, this`throttlePub, this`faultPub, this`obdPub
      ensures Valid()
      ensures threw <==>
        !old(ModulesTimely() && AllTimely(faultQueue.Contents()) && AllTimely(obdQueue.Contents()))
      ensures Drained(true, ModuleMessage, old(brakeQueue.Contents()), brakeQueue.Contents(), old(brakePub), brakePub)
      ensures Drained(
        old(AllTimely(brakeQueue.Contents())),
        ModuleMessage, old(steeringQueue.Contents()), steeringQueue.Contents(), old(steeringPub), steeringPub)
      ensures Drained(
        old(AllTimely(brakeQueue.Contents()) && AllTimely(steeringQueue.Contents())),
        ModuleMessage, old(throttleQueue.Contents()), throttleQueue.Contents(), old(throttlePub), throttlePub)
      ensures Drained(
        old(ModulesTimely()),
        FaultMessage, old(faultQueue.Contents()), faultQueue.Contents(), old(faultPub), faultPub)
      ensures Drained(
        old(ModulesTimely() && AllTimely(faultQueue.Contents())),
        FrameMessage, old(obdQueue.Contents()), obdQueue.Contents(), old(obdPub), obdPub)
    {
      hide ObdFeedback.Valid, SignalQueue.Valid, SignalQueue.Contents, AllTimely, AfterItems, Timely, Untouched;
      threw := DrainModules(blankReport);
      if threw {
        return;
      }
      threw := DrainFault(blankFault);
      if threw {
        return;
      }
      threw := DrainFrames(blankFrame);
    }

    /** One drain. The queues are emptied in turn onto their topics, in arrival order. The
        first stamp that makes the time constructor throw ends it: that item is lost, and what
        is behind it stays queued. A drain that gets through leaves every queue empty, checks
        staleness and reports drops not reported before. */
    method Drain(
        blankReport: Stamped<ModuleReport>, blankFault: Stamped<FaultReport>, blankFrame: Stamped<CanFrame>, now: int)
      returns (threw: bool, steeringStale: bool, brakeStale: bool, dropsReported: bool)
      requires Valid()
      modifies brakeQueue`tail, brakeQueue`pops, steeringQueue`tail, steeringQueue`pops
      modifies throttleQueue`tail, throttleQueue`pops, faultQueue`tail, faultQueue`pops
      modifies obdQueue`tail, obdQueue`pops, feedback
      modifies this`brakePub, this`steeringPub, this`throttlePub, this`faultPub, this`obdPub, this`lastReportedDrops
      ensures Valid()
      ensures threw <==>
        !old(ModulesTimely() && AllTimely(faultQueue.Contents()) && AllTimely(obdQueue.Contents()))
      ensures Drained(true, ModuleMessage, old(brakeQueue.Contents()), brakeQueue.Contents(), old(brakePub), brakePub)
      ensures Drained(
        old(AllTimely(brakeQueue.Contents())),
        ModuleMessage, old(steeringQueue.Contents()), steeringQueue.Contents(), old(steeringPub), steeringPub)
      ensures Drained(
        old(AllTimely(brakeQueue.Contents()) && AllTimely(steeringQueue.Contents())),
        ModuleMessage, old(throttleQueue.Contents()), throttleQueue.Contents(), old(throttlePub), throttlePub)
      ensures Drained(
        old(ModulesTimely()),
        FaultMessage, old(faultQueue.Contents()), faultQueue.Contents(), old(faultPub), faultPub)
      ensures Drained(
        old(ModulesTimely() && AllTimely(faultQueue.Contents())),
        FrameMessage, old(obdQueue.Contents()), obdQueue.Contents(), old(obdPub), obdPub)
      ensures feedback.steeringPub == SteeringReports(feedback.settings, obdPub)
      ensures feedback.brakePub == BrakeReports(feedback.settings, obdPub)
      ensures threw ==> lastReportedDrops == old(lastReportedDrops)
      ensures !threw ==>
        && (steeringStale <==> Stale(feedback.settings.steering, obdPub, now, feedback.settings.feedbackTimeout))
        && (brakeStale <==> Stale(feedback.settings.brakePedal, obdPub, now, feedback.settings.feedbackTimeout))
        && lastReportedDrops == dropped && (dropsReported <==> dropped != old(lastReportedDrops))
    {
      hide ObdFeedback.Valid, SignalQueue.Valid, SignalQueue.Contents, Stale, SteeringReports, BrakeReports, Map;
      hide AllTimely, Drained, Timely, Untouched;
      threw := DrainQueues(blankReport, blankFault, blankFrame);
      ValidReports(feedback);
      if threw {
        steeringStale, brakeStale, dropsReported := false, false, false;
        return;
      }
      steeringStale, brakeStale := feedback.CheckStaleness(now);
      dropsReported := dropped != lastReportedDrops;
      if dropsReported {
        lastReportedDrops := dropped;
      }
    }
  }
}
