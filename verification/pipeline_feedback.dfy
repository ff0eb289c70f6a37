/**
  What leaves the bridge in any interleaving of callbacks and drains: the messages on each
  topic, and the reports that the OBD decoder derives from the frames as they go out.

  A Publish step stands for filling the message, publishing it and, on the OBD topic,
  handing its frame to the decoder: only the drain sees what happens between these.
*/
module PipelineFeedback {
  import opened ObdFeedbacks
  import opened ReportPipeline
  import opened Reports

  /** The OBD queue among QUEUE_SIZES. */
  const OBD := 4

  lemma MapAppend<A, B>(f: A -> B, a: seq<A>, b: seq<A>)
    ensures Map(f, a + b) == Map(f, a) + Map(f, b)
  {}

  lemma MapPrefix<A, B>(f: A -> B, a: seq<A>, b: seq<A>, c: seq<A>)
    ensures Map(f, a) <= Map(f, a + b + c)
  {
    MapAppend(f, a + b, c);
    MapAppend(f, a, b);
  }

  /** The messages on a topic are those of the first accepted ones of the reports its callback
      was handed, in that order. */
  lemma TopicMessages<T, M>(p: Pipeline<T>, steps: seq<PipelineStep<T>>, topic: nat, convert: T -> M)
    requires PipelineInv(p) && PipelineLegal(p, steps) && topic < |p.channels|
    ensures var c := PipelineRun(p, steps).channels[topic];
            var reports := p.channels[topic].offered + Arriving(steps, topic);
            |c.verdicts| <= |reports| && Map(convert, c.published) <= Map(convert, Selected(reports, c.verdicts))
  {
    var c := PipelineRun(p, steps).channels[topic];
    TopicOrder(p, steps, topic);
    hide PipelineInv, PipelineLegal, PipelineRun, Arriving, Selected, Map;
    MapPrefix(convert, c.published, c.held, c.ring.Queue());
  }

  /** The decoder after one step: it is fed each frame that is published. */
  ghost function Fed<T>(s: Settings, message: T -> Arrival, d: Decoder, p: Pipeline<T>, step: PipelineStep<T>): Decoder
    requires s.InRange() && PipelineInv(p) && PipelineEnabled(p, step)
  {
    if step.At? && step.channel == OBD && step.action.Publish? then
      DecoderStep(s, d, message(p.channels[OBD].held[0]))
    else d
  }

  /** The decoder after a run. */
  ghost function DecoderAfter<T>(
    s: Settings, message: T -> Arrival, d: Decoder, p: Pipeline<T>, steps: seq<PipelineStep<T>>): Decoder
    requires s.InRange() && PipelineInv(p) && PipelineLegal(p, steps)
    decreases steps
  {
    if steps == [] then d
    else
      hide PipelineInv, PipelineEnabled;
      PipelinePreserved(p, steps[0]);
      DecoderAfter(s, message, Fed(s, message, d, p, steps[0]), PipelineApply(p, steps[0]), steps[1..])
  }

  /** The decoder's fields are those of the frames published so far. */
  ghost predicate InStep<T>(s: Settings, message: T -> Arrival, d: Decoder, p: Pipeline<T>)
    requires s.InRange()
  {
    OBD < |p.channels| && d == Decodes(s, Map(message, p.channels[OBD].published))
  }

  lemma PublishedAfter<T>(c: Channel<T>, action: ChannelStep<T>)
    requires ChannelInv(c) && ChannelEnabled(c, action, true)
    ensures ChannelApply(c, action).published ==
      if action.Publish? then c.published + [c.held[0]] else c.published
  {
    assert 0 < c.ring.size && |c.held| <= 1;
    hide ChannelInv;
    if action.Publish? {
      assert c.held == [c.held[0]];
    }
  }

  lemma PublishedStep<T>(p: Pipeline<T>, step: PipelineStep<T>)
    requires PipelineInv(p) && PipelineEnabled(p, step) && OBD < |p.channels|
    ensures PipelineInv(PipelineApply(p, step)) && |PipelineApply(p, step).channels| == |p.channels|
    ensures PipelineApply(p, step).channels[OBD].published ==
      if step.At? && step.channel == OBD && step.action.Publish?
      then p.channels[OBD].published + [p.channels[OBD].held[0]]
      else p.channels[OBD].published
  {
    PipelinePreserved(p, step);
    assert ChannelInv(p.channels[OBD]);
    assert step.At? ==> ChannelInv(p.channels[step.channel]);
    hide ChannelsInv, OneDrained, Total, ChannelApply, ChannelEnabled, FoundEmpty;
    if step.At? && step.channel == OBD {
      PublishedAfter(p.channels[OBD], step.action);
    }
  }

  lemma DecodesItem<T>(s: Settings, message: T -> Arrival, published: seq<T>, item: T)
    requires s.InRange()
    ensures Decodes(s, Map(message, published + [item]))
         == DecoderStep(s, Decodes(s, Map(message, published)), message(item))
  {
    hide Decodes, DecoderStep;
    MapAppend(message, published, [item]);
    assert Map(message, [item]) == [message(item)];
    DecodesStep(s, Map(message, published), message(item));
  }

  lemma StaysInStep<T>(
      s: Settings, message: T -> Arrival, d: Decoder, p: Pipeline<T>, step: PipelineStep<T>, next: Pipeline<T>)
    requires s.InRange() && PipelineInv(p) && PipelineEnabled(p, step) && InStep(s, message, d, p)
    requires |next.channels| == |p.channels|
    requires next.channels[OBD].published ==
      if step.At? && step.channel == OBD && step.action.Publish?
      then p.channels[OBD].published + [p.channels[OBD].held[0]]
      else p.channels[OBD].published
    ensures InStep(s, message, Fed(s, message, d, p, step), next)
  {
    hide PipelineInv, Decodes, DecoderStep, Map;
    if step.At? && step.channel == OBD && step.action.Publish? {
      DecodesItem(s, message, p.channels[OBD].published, p.channels[OBD].held[0]);
    }
  }

  lemma FedInStep<T>(s: Settings, message: T -> Arrival, d: Decoder, p: Pipeline<T>, step: PipelineStep<T>)
    requires s.InRange() && PipelineInv(p) && PipelineEnabled(p, step) && InStep(s, message, d, p)
    ensures PipelineInv(PipelineApply(p, step))
    ensures InStep(s, message, Fed(s, message, d, p, step), PipelineApply(p, step))
  {
    assert OBD < |p.channels|;
    hide *;
    PublishedStep(p, step);
    StaysInStep(s, message, d, p, step, PipelineApply(p, step));
  }

  lemma {:induction false} RunInStep<T>(
      s: Settings, message: T -> Arrival, d: Decoder, p: Pipeline<T>, steps: seq<PipelineStep<T>>)
    requires s.InRange() && PipelineInv(p) && PipelineLegal(p, steps) && InStep(s, message, d, p)
    ensures InStep(s, message, DecoderAfter(s, message, d, p, steps), PipelineRun(p, steps))
    decreases steps
  {
    hide PipelineInv, PipelineEnabled, InStep;
    if steps != [] {
      FedInStep(s, message, d, p, steps[0]);
      RunInStep(s, message, Fed(s, message, d, p, steps[0]), PipelineApply(p, steps[0]), steps[1..]);
    }
  }

  lemma ReportsPrefix(s: Settings, a: seq<Arrival>, b: seq<Arrival>)
    requires s.InRange() && a <= b
    ensures SteeringReports(s, a) <= SteeringReports(s, b) && BrakeReports(s, a) <= BrakeReports(s, b)
  {
    assert b == a + b[|a|..];
    ReportsAppend(s, a, b[|a|..]);
  }

  /** In every run of the bridge the decoder's reports are the filter-maps of the frames
      published, its last stamps those of the newest decoded of them, and the reports are a
      prefix of what all frames accepted from the bus decode to. */
  lemma FeedbackRefines<T>(s: Settings, message: T -> Arrival, blank: T, steps: seq<PipelineStep<T>>)
    requires s.InRange()
    ensures PipelineInv(Start(QUEUE_SIZES, blank)) && QUEUE_SIZES[OBD] == 256
    ensures PipelineLegal(Start(QUEUE_SIZES, blank), steps) ==>
      var c := PipelineRun(Start(QUEUE_SIZES, blank), steps).channels[OBD];
      var d := DecoderAfter(s, message, NEW_DECODER, Start(QUEUE_SIZES, blank), steps);
      && d == Decodes(s, Map(message, c.published))
      && |c.verdicts| <= |Arriving(steps, OBD)|
      && var accepted := Map(message, Selected(Arriving(steps, OBD), c.verdicts));
      d.steeringPub <= SteeringReports(s, accepted) && d.brakePub <= BrakeReports(s, accepted)
  {
    var p := Start(QUEUE_SIZES, blank);
    FreshInv(QUEUE_SIZES, blank);
    assert PipelineInv(p);
    if PipelineLegal(p, steps) {
      var c := PipelineRun(p, steps).channels[OBD];
      assert p.channels[OBD].published == [] && NEW_DECODER == Decodes(s, []);
      RunInStep(s, message, NEW_DECODER, p, steps);
      TopicMessages(p, steps, OBD, message);
      assert p.channels[OBD].offered + Arriving(steps, OBD) == Arriving(steps, OBD);
      ReportsPrefix(s, Map(message, c.published), Map(message, Selected(Arriving(steps, OBD), c.verdicts)));
    }
  }

}
