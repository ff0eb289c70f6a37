/**
  Steering-angle and brake-pedal reports decoded from the forwarded CAN frames: the
  published sequences are a filter-map of the frames, and the staleness timers measure
  from the newest decoded frame.
*/
module ObdFeedbacks {
  import opened BitWords
  import opened CanSignal
  import opened CanSignalLaws
  import opened Reports

  const CAN_EFF_FLAG: bv32 := 0x8000_0000
  const CAN_EFF_MASK: bv32 := 0x1FFF_FFFF
  const CAN_SFF_MASK: bv32 := 0x0000_07FF

  /** The identifier without the RTR, EFF and ERR flags. */
  function PlainId(canId: bv32): (id: bv32)
    // bit 31 marks extended frames, of which 29 bits survive; of standard frames, 11 bits
    ensures canId & 0x8000_0000 != 0 ==> id < 0x2000_0000 && (id ^ canId) & 0x1FFF_FFFF == 0
    ensures canId & 0x8000_0000 == 0 ==> id < 0x800 && (id ^ canId) & 0x7FF == 0
  {
    if canId & CAN_EFF_FLAG != 0 then canId & CAN_EFF_MASK else canId & CAN_SFF_MASK
  }

  datatype SteeringAngleReport = SteeringAngleReport(stamp: int, canId: bv32, angle: real, raw: int, inRange: bool)

  datatype BrakePedalReport = BrakePedalReport(stamp: int, canId: bv32, pressed: bool, value: real, raw: int)

  datatype Settings = Settings(
    steering: SignalSpec, steeringMin: real, steeringMax: real,
    brakePedal: SignalSpec, brakePressThreshold: real, brakeActiveHigh: bool,
    feedbackTimeout: real)
  {
    ghost predicate InRange() {
      steering.InRange() && brakePedal.InRange()
    }
  }

  /** A frame with the stamp it is published under. */
  type Arrival = Message<CanFrame>

  /** The spec applies to the frame: identifier and length both match. */
  predicate Matches(spec: SignalSpec, frame: CanFrame) {
    spec.enabled && PlainId(frame.canId) == spec.canId && spec.FitsIn(frame.dlc)
  }

  ghost function SteeringOf(s: Settings, a: Arrival): SteeringAngleReport
    requires s.InRange()
  {
    var raw := s.steering.RawValue(a.data.data, a.data.dlc);
    var angle := s.steering.Scaled(raw);
    SteeringAngleReport(a.stamp, PlainId(a.data.canId), angle, raw, s.steeringMin <= angle <= s.steeringMax)
  }

  ghost function BrakeOf(s: Settings, a: Arrival): BrakePedalReport
    requires s.InRange()
  {
    var raw := s.brakePedal.RawValue(a.data.data, a.data.dlc);
    var value := s.brakePedal.Scaled(raw);
    BrakePedalReport(a.stamp, PlainId(a.data.canId), (value >= s.brakePressThreshold) == s.brakeActiveHigh, value, raw)
  }

  /** The arrivals a spec decodes, in order. */
  ghost function Decoded(spec: SignalSpec, arrivals: seq<Arrival>): seq<Arrival> {
    if arrivals == [] then []
    else
      var last := arrivals[|arrivals| - 1];
      Decoded(spec, arrivals[..|arrivals| - 1]) + if Matches(spec, last.data) then [last] else []
  }

  ghost function SteeringReports(s: Settings, arrivals: seq<Arrival>): (reports: seq<SteeringAngleReport>)
    requires s.InRange()
  {
    Map(a => SteeringOf(s, a), Decoded(s.steering, arrivals))
  }

  ghost function BrakeReports(s: Settings, arrivals: seq<Arrival>): (reports: seq<BrakePedalReport>)
    requires s.InRange()
  {
    Map(a => BrakeOf(s, a), Decoded(s.brakePedal, arrivals))
  }

  /** The stamp of the newest decoded arrival; 0 before there is one. */
  ghost function LastStamp(spec: SignalSpec, arrivals: seq<Arrival>): int {
    var kept := Decoded(spec, arrivals);
    if kept == [] then 0 else kept[|kept| - 1].stamp
  }

  /** A signal that cannot fit an eight-byte frame is switched off. */
  function Checked(spec: SignalSpec): (checked: SignalSpec)
    ensures checked == spec || (!spec.FitsIn(8) && checked == spec.(enabled := false))
    ensures checked.enabled ==> spec.enabled && checked.FitsIn(8)
  {
    if spec.enabled && !spec.FitsIn(8) then spec.(enabled := false) else spec
  }

  /** A frame has been decoded, and the newest one is older than the timeout. */
  ghost predicate Stale(spec: SignalSpec, arrivals: seq<Arrival>, now: int, timeout: real) {
    var kept := Decoded(spec, arrivals);
    && spec.enabled
    && kept != [] && 0 < kept[|kept| - 1].stamp
    && (now - kept[|kept| - 1].stamp) as real > timeout * 1_000_000_000.0
  }

  lemma DecodedStep(spec: SignalSpec, arrivals: seq<Arrival>, a: Arrival)
    ensures Decoded(spec, arrivals + [a]) == Decoded(spec, arrivals) + if Matches(spec, a.data) then [a] else []
    ensures LastStamp(spec, arrivals + [a]) == if Matches(spec, a.data) then a.stamp else LastStamp(spec, arrivals)
  {
    assert (arrivals + [a])[..|arrivals|] == arrivals;
  }

  lemma SteeringStep(s: Settings, arrivals: seq<Arrival>, a: Arrival)
    requires s.InRange()
    ensures SteeringReports(s, arrivals + [a])
         == SteeringReports(s, arrivals) + if Matches(s.steering, a.data) then [SteeringOf(s, a)] else []
    ensures LastStamp(s.steering, arrivals + [a])
         == if Matches(s.steering, a.data) then a.stamp else LastStamp(s.steering, arrivals)
  {
    DecodedStep(s.steering, arrivals, a);
  }

  lemma BrakeStep(s: Settings, arrivals: seq<Arrival>, a: Arrival)
    requires s.InRange()
    ensures BrakeReports(s, arrivals + [a])
         == BrakeReports(s, arrivals) + if Matches(s.brakePedal, a.data) then [BrakeOf(s, a)] else []
    ensures LastStamp(s.brakePedal, arrivals + [a])
         == if Matches(s.brakePedal, a.data) then a.stamp else LastStamp(s.brakePedal, arrivals)
  {
    DecodedStep(s.brakePedal, arrivals, a);
  }

  /** The decoder's fields, as a value. */
  datatype Decoder = Decoder(
    steeringPub: seq<SteeringAngleReport>, brakePub: seq<BrakePedalReport>, lastSteering: int, lastBrake: int)

  const NEW_DECODER := Decoder([], [], 0, 0)

  /** What one frame does to them. */
  ghost function DecoderStep(s: Settings, d: Decoder, a: Arrival): Decoder
    requires s.InRange()
  {
    var steering, brake := Matches(s.steering, a.data), Matches(s.brakePedal, a.data);
    Decoder(
      d.steeringPub + if steering then [SteeringOf(s, a)] else [],
      d.brakePub + if brake then [BrakeOf(s, a)] else [],
      if steering then a.stamp else d.lastSteering,
      if brake then a.stamp else d.lastBrake)
  }

  /** The fields after the decoder has seen `arrivals`: filter-maps, and the newest stamps. */
  ghost function Decodes(s: Settings, arrivals: seq<Arrival>): Decoder
    requires s.InRange()
  {
    Decoder(SteeringReports(s, arrivals), BrakeReports(s, arrivals),
            LastStamp(s.steering, arrivals), LastStamp(s.brakePedal, arrivals))
  }

  lemma DecodesStep(s: Settings, arrivals: seq<Arrival>, a: Arrival)
    requires s.InRange()
    ensures Decodes(s, arrivals + [a]) == DecoderStep(s, Decodes(s, arrivals), a)
  {
    SteeringStep(s, arrivals, a);
    BrakeStep(s, arrivals, a);
  }

  class ObdFeedback {
    const settings: Settings
    var steeringPub: seq<SteeringAngleReport>
    var brakePub: seq<BrakePedalReport>
    var lastSteering: int
    var lastBrake: int
    ghost var processed: seq<Arrival>

    ghost predicate Valid()
      reads this
    {
      && settings.InRange()
      && (settings.steering.enabled ==> settings.steering.FitsIn(8))
      && (settings.brakePedal.enabled ==> settings.brakePedal.FitsIn(8))
      && Current() == Decodes(settings, processed)
    }

    ghost function Current(): Decoder
      reads this
    {
      Decoder(steeringPub, brakePub, lastSteering, lastBrake)
    }

    constructor (declared: Settings)
      requires declared.InRange()
      ensures Valid() && processed == []
      ensures settings == declared.(steering := Checked(declared.steering), brakePedal := Checked(declared.brakePedal))
    {
      settings := declared.(steering := Checked(declared.steering), brakePedal := Checked(declared.brakePedal));
      steeringPub, brakePub := [], [];
      lastSteering, lastBrake := 0, 0;
      processed := [];
    }

    method ProcessSteering(frame: CanFrame, id: bv32, stamp: int)
      requires settings.InRange() && id == PlainId(frame.canId)
      modifies this`steeringPub, this`lastSteering
      ensures steeringPub == old(steeringPub)
        + if Matches(settings.steering, frame) then [SteeringOf(settings, Message(frame, stamp))] else []
      ensures lastSteering == if Matches(settings.steering, frame) then stamp else old(lastSteering)
    {
      if settings.steering.enabled && id == settings.steering.canId {
        if settings.steering.FitsIn(frame.dlc) {
          var raw := DecodeRaw(settings.steering, frame.data, frame.dlc);
          var angle := settings.steering.Scaled(raw);
          var inRange := angle >= settings.steeringMin && angle <= settings.steeringMax;
          steeringPub := steeringPub + [SteeringAngleReport(stamp, id, angle, raw, inRange)];
          lastSteering := stamp;
        }
      }
    }

    method ProcessBrake(frame: CanFrame, id: bv32, stamp: int)
      requires settings.InRange() && id == PlainId(frame.canId)
      modifies this`brakePub, this`lastBrake
      ensures brakePub == old(brakePub)
        + if Matches(settings.brakePedal, frame) then [BrakeOf(settings, Message(frame, stamp))] else []
      ensures lastBrake == if Matches(settings.brakePedal, frame) then stamp else old(lastBrake)
    {
      if settings.brakePedal.enabled && id == settings.brakePedal.canId {
        if settings.brakePedal.FitsIn(frame.dlc) {
          var raw := DecodeRaw(settings.brakePedal, frame.data, frame.dlc);
          var value := settings.brakePedal.Scaled(raw);
          var above := value >= settings.brakePressThreshold;
          var pressed := if settings.brakeActiveHigh then above else !above;
          brakePub := brakePub + [BrakePedalReport(stamp, id, pressed, value, raw)];
          lastBrake := stamp;
        }
      }
    }

    /** Publishes what the frame decodes to; one frame can feed both topics. */
    method Process(frame: CanFrame, stamp: int)
      requires Valid()
      modifies this
      ensures Valid() && processed == old(processed) + [Message(frame, stamp)]
      ensures Current() == DecoderStep(settings, old(Current()), Message(frame, stamp))
    {
      hide Matches, SteeringOf, BrakeOf, SteeringReports, BrakeReports, LastStamp;
      ghost var arrival := Message(frame, stamp);
      DecodesStep(settings, processed, arrival);
      var id := PlainId(frame.canId);
      ProcessSteering(frame, id, stamp);
      ProcessBrake(frame, id, stamp);
      processed := processed + [arrival];
    }

    /** Which of the two staleness warnings are due. */
    method CheckStaleness(now: int) returns (steeringStale: bool, brakeStale: bool)
      requires Valid()
      ensures steeringStale <==> Stale(settings.steering, processed, now, settings.feedbackTimeout)
      ensures brakeStale <==> Stale(settings.brakePedal, processed, now, settings.feedbackTimeout)
      ensures steeringPub == SteeringReports(settings, processed) && brakePub == BrakeReports(settings, processed)
    {
      steeringStale := settings.steering.enabled && lastSteering > 0
        && (now - lastSteering) as real / 1_000_000_000.0 > settings.feedbackTimeout;
      brakeStale := settings.brakePedal.enabled && lastBrake > 0
        && (now - lastBrake) as real / 1_000_000_000.0 > settings.feedbackTimeout;
    }
  }

  lemma ValidReports(feedback: ObdFeedback)
    requires feedback.Valid()
    ensures feedback.steeringPub == SteeringReports(feedback.settings, feedback.processed)
    ensures feedback.brakePub == BrakeReports(feedback.settings, feedback.processed)
  {}

  // ---------- staleness ----------

  /** A decoded frame is the one staleness is measured from, whatever came before; it goes
      stale when `timeout` seconds have passed since its stamp, and not before. */
  lemma StaleAfterDecoded(spec: SignalSpec, arrivals: seq<Arrival>, a: Arrival, now: int, timeout: real)
    requires spec.enabled && PlainId(a.data.canId) == spec.canId && spec.FitsIn(a.data.dlc)
    ensures Stale(spec, arrivals + [a], now, timeout) <==>
      0 < a.stamp && (now - a.stamp) as real > timeout * 1_000_000_000.0
  {
    DecodedStep(spec, arrivals, a);
  }

  /** Any other frame changes nothing, and a signal never decoded is never reported stale. */
  lemma StaleOtherwise(spec: SignalSpec, arrivals: seq<Arrival>, a: Arrival, now: int, timeout: real)
    ensures !Stale(spec, [], now, timeout)
    ensures !spec.enabled || PlainId(a.data.canId) != spec.canId || !spec.FitsIn(a.data.dlc) ==>
      (Stale(spec, arrivals + [a], now, timeout) <==> Stale(spec, arrivals, now, timeout))
  {
    DecodedStep(spec, arrivals, a);
  }

  // ---------- what the report sequences are ----------

  lemma {:induction false} DecodedAppend(spec: SignalSpec, a: seq<Arrival>, b: seq<Arrival>)
    ensures Decoded(spec, a + b) == Decoded(spec, a) + Decoded(spec, b)
  {
    hide Matches;
    if b == [] {
      assert a + b == a;
    } else {
      var n := |b| - 1;
      DecodedAppend(spec, a, b[..n]);
      assert (a + b)[..|a + b| - 1] == a + b[..n];
    }
  }

  /** Both topics are filter-maps of the frame sequence: processing one batch after another
      appends the second batch's reports to the first's. */
  lemma ReportsAppend(s: Settings, a: seq<Arrival>, b: seq<Arrival>)
    requires s.InRange()
    ensures SteeringReports(s, a + b) == SteeringReports(s, a) + SteeringReports(s, b)
    ensures BrakeReports(s, a + b) == BrakeReports(s, a) + BrakeReports(s, b)
  {
    hide Decoded, SteeringOf, BrakeOf;
    DecodedAppend(s.steering, a, b);
    DecodedAppend(s.brakePedal, a, b);
  }

  /** Exactly the arrivals with the identifier and a sufficient length are decoded, however
      often they occur, and none while the signal is switched off. */
  lemma {:induction false} DecodedExactly(spec: SignalSpec, arrivals: seq<Arrival>, a: Arrival)
    ensures multiset(Decoded(spec, arrivals))[a] ==
      if spec.enabled && PlainId(a.data.canId) == spec.canId && spec.FitsIn(a.data.dlc)
      then multiset(arrivals)[a] else 0
  {
    if arrivals != [] {
      var n := |arrivals| - 1;
      DecodedExactly(spec, arrivals[..n], a);
      assert arrivals == arrivals[..n] + [arrivals[n]];
    }
  }

  /** When the two specs share an identifier and a frame fits both, the frame feeds both
      topics, under its own stamp. */
  lemma SharedFrame(s: Settings, arrivals: seq<Arrival>, a: Arrival)
    requires s.InRange() && s.steering.enabled && s.brakePedal.enabled
    requires s.steering.canId == s.brakePedal.canId == PlainId(a.data.canId)
    requires s.steering.FitsIn(a.data.dlc) && s.brakePedal.FitsIn(a.data.dlc)
    ensures SteeringReports(s, arrivals + [a]) == SteeringReports(s, arrivals) + [SteeringOf(s, a)]
    ensures BrakeReports(s, arrivals + [a]) == BrakeReports(s, arrivals) + [BrakeOf(s, a)]
    ensures LastStamp(s.steering, arrivals + [a]) == LastStamp(s.brakePedal, arrivals + [a]) == a.stamp
  {
    SteeringStep(s, arrivals, a);
    BrakeStep(s, arrivals, a);
  }

  /** Frames with the identifier fit both specs or neither. */
  ghost predicate SameFit(s: Settings, arrivals: seq<Arrival>) {
    forall i :: 0 <= i < |arrivals| && PlainId(arrivals[i].data.canId) == s.steering.canId ==>
      s.steering.FitsIn(arrivals[i].data.dlc) == s.brakePedal.FitsIn(arrivals[i].data.dlc)
  }

  lemma {:induction false} SameDecoded(s: Settings, arrivals: seq<Arrival>)
    requires s.steering.enabled == s.brakePedal.enabled && s.steering.canId == s.brakePedal.canId
    requires SameFit(s, arrivals)
    ensures Decoded(s.steering, arrivals) == Decoded(s.brakePedal, arrivals)
  {
    hide SignalSpec.FitsIn, PlainId;
    if arrivals != [] {
      SameDecoded(s, arrivals[..|arrivals| - 1]);
    }
  }

  /** When the two specs share an identifier and the frames fit both, each decoded frame
      feeds both topics: over any run the reports go in pairs with one stamp and one
      identifier, and the staleness timers agree. */
  lemma SharedFrames(s: Settings, arrivals: seq<Arrival>)
    requires s.InRange()
    requires s.steering.enabled == s.brakePedal.enabled && s.steering.canId == s.brakePedal.canId
    requires SameFit(s, arrivals)
    ensures var steering, brake := SteeringReports(s, arrivals), BrakeReports(s, arrivals);
            && |steering| == |brake|
            && forall i :: 0 <= i < |steering| ==>
                 steering[i].stamp == brake[i].stamp && steering[i].canId == brake[i].canId
    ensures LastStamp(s.steering, arrivals) == LastStamp(s.brakePedal, arrivals)
  {
    SameDecoded(s, arrivals);
    hide Decoded, PlainId, SameFit;
  }

  /** The raw value decoded from a matching frame is the whole window's, in the signal's
      range; or the frame is one fitsIn over-accepts, and it is an unsigned number of
      fewer bits. */
  lemma RawOfMatch(spec: SignalSpec, frame: CanFrame)
    requires spec.InRange() && Matches(spec, frame)
    ensures var raw, reach := spec.RawValue(frame.data, frame.dlc), spec.Reach(frame.dlc);
            if OverAccepts(spec, frame.dlc)
            then 0 <= raw < Pow2(reach) && 0 < reach < spec.bitLength
            else reach == spec.bitLength && Representable(spec, raw)
  {
    FitsExactly(spec, frame.dlc);
    if OverAccepts(spec, frame.dlc) {
      OverAcceptedValue(spec, frame.data, frame.dlc);
    } else {
      RawRange(spec, frame.data, frame.dlc);
    }
  }

  lemma SteeringReportOf(s: Settings, a: Arrival)
    requires s.InRange()
    ensures var r := SteeringOf(s, a);
            && r.stamp == a.stamp && r.canId == PlainId(a.data.canId)
            && r.raw == s.steering.RawValue(a.data.data, a.data.dlc)
            && r.angle == r.raw as real * s.steering.scale + s.steering.offset
            && (r.inRange <==> s.steeringMin <= r.angle && r.angle <= s.steeringMax)
  {
    hide PlainId, SignalSpec.RawValue;
  }

  lemma BrakeReportOf(s: Settings, a: Arrival)
    requires s.InRange()
    ensures var r := BrakeOf(s, a);
            && r.stamp == a.stamp && r.canId == PlainId(a.data.canId)
            && r.raw == s.brakePedal.RawValue(a.data.data, a.data.dlc)
            && r.value == r.raw as real * s.brakePedal.scale + s.brakePedal.offset
            && (s.brakeActiveHigh ==> (r.pressed <==> s.brakePressThreshold <= r.value))
            && (!s.brakeActiveHigh ==> (r.pressed <==> r.value < s.brakePressThreshold))
  {
    hide PlainId, SignalSpec.RawValue;
  }

  /** Every steering report of a run is about the frame decoded at its place: that frame's
      stamp and identifier, its raw value, and the raw value's affine image, in range when it
      lies within the limits. */
  lemma EverySteeringReport(s: Settings, arrivals: seq<Arrival>, i: nat)
    requires s.InRange()
    ensures var decoded, reports := Decoded(s.steering, arrivals), SteeringReports(s, arrivals);
            && |reports| == |decoded|
            && (i < |reports| ==>
                  var a, r := decoded[i], reports[i];
                  && r.stamp == a.stamp && r.canId == PlainId(a.data.canId)
                  && r.raw == s.steering.RawValue(a.data.data, a.data.dlc)
                  && r.angle == r.raw as real * s.steering.scale + s.steering.offset
                  && (r.inRange <==> s.steeringMin <= r.angle && r.angle <= s.steeringMax))
  {
    hide PlainId, SignalSpec.RawValue, SteeringOf, Decoded;
    if i < |Decoded(s.steering, arrivals)| {
      SteeringReportOf(s, Decoded(s.steering, arrivals)[i]);
    }
  }

  /** The same for brake-pedal reports, pressed from the threshold up when active high and
      below it when active low. */
  lemma EveryBrakeReport(s: Settings, arrivals: seq<Arrival>, i: nat)
    requires s.InRange()
    ensures var decoded, reports := Decoded(s.brakePedal, arrivals), BrakeReports(s, arrivals);
            && |reports| == |decoded|
            && (i < |reports| ==>
                  var a, r := decoded[i], reports[i];
                  && r.stamp == a.stamp && r.canId == PlainId(a.data.canId)
                  && r.raw == s.brakePedal.RawValue(a.data.data, a.data.dlc)
                  && r.value == r.raw as real * s.brakePedal.scale + s.brakePedal.offset
                  && (s.brakeActiveHigh ==> (r.pressed <==> s.brakePressThreshold <= r.value))
                  && (!s.brakeActiveHigh ==> (r.pressed <==> r.value < s.brakePressThreshold)))
  {
    hide PlainId, SignalSpec.RawValue, BrakeOf, Decoded;
    if i < |Decoded(s.brakePedal, arrivals)| {
      BrakeReportOf(s, Decoded(s.brakePedal, arrivals)[i]);
    }
  }

  /** Writing a signal into a matching frame leaves it a matching frame, with that value. */
  lemma SentFrame(spec: SignalSpec, frame: CanFrame, value: int)
    requires spec.enabled && PlainId(frame.canId) == spec.canId
    requires spec.Complete(frame.dlc) && Representable(spec, value)
    ensures var sent := frame.(data := Encode(spec, frame.data, value));
            Matches(spec, sent) && PlainId(sent.canId) == spec.canId && spec.RawValue(sent.data, sent.dlc) == value
  {
    hide Encode, SignalSpec.RawValue, SignalSpec.FitsIn, Representable, PlainId;
    FitsExactly(spec, frame.dlc);
    RoundTrip(spec, frame.data, frame.dlc, value);
  }

  /** What a sender encodes is what is reported, end to end: the value, its physical angle,
      and whether that is in range, under the frame's own stamp. */
  lemma SentAngleIsReported(s: Settings, arrivals: seq<Arrival>, frame: CanFrame, stamp: int, value: int)
    requires s.InRange() && s.steering.enabled && PlainId(frame.canId) == s.steering.canId
    requires s.steering.Complete(frame.dlc) && Representable(s.steering, value)
    ensures var sent := Message(frame.(data := Encode(s.steering, frame.data, value)), stamp);
            var angle := value as real * s.steering.scale + s.steering.offset;
            SteeringReports(s, arrivals + [sent]) == SteeringReports(s, arrivals) + [
              SteeringAngleReport(
                stamp, s.steering.canId, angle, value, s.steeringMin <= angle && angle <= s.steeringMax)]
  {
    hide Encode, SignalSpec.RawValue, PlainId, Matches, Representable, SteeringOf, BrakeOf;
    hide SteeringReports, BrakeReports, LastStamp;
    var sent := Message(frame.(data := Encode(s.steering, frame.data, value)), stamp);
    SentFrame(s.steering, frame, value);
    SteeringStep(s, arrivals, sent);
    SteeringReportOf(s, sent);
    var angle := value as real * s.steering.scale + s.steering.offset;
    assert SteeringOf(s, sent) == SteeringAngleReport(
      stamp, s.steering.canId, angle, value, s.steeringMin <= angle && angle <= s.steeringMax);
  }

  /** The same for the brake pedal, pressed above the threshold when active high and below it
      when active low. */
  lemma SentPedalIsReported(s: Settings, arrivals: seq<Arrival>, frame: CanFrame, stamp: int, value: int)
    requires s.InRange() && s.brakePedal.enabled && PlainId(frame.canId) == s.brakePedal.canId
    requires s.brakePedal.Complete(frame.dlc) && Representable(s.brakePedal, value)
    ensures var sent := Message(frame.(data := Encode(s.brakePedal, frame.data, value)), stamp);
            var position := value as real * s.brakePedal.scale + s.brakePedal.offset;
            BrakeReports(s, arrivals + [sent]) == BrakeReports(s, arrivals) + [
              BrakePedalReport(
                stamp, s.brakePedal.canId,
                if s.brakeActiveHigh then s.brakePressThreshold <= position else position < s.brakePressThreshold,
                position, value)]
  {
    hide Encode, SignalSpec.RawValue, PlainId, Matches, Representable, SteeringOf, BrakeOf;
    hide SteeringReports, BrakeReports, LastStamp;
    var sent := Message(frame.(data := Encode(s.brakePedal, frame.data, value)), stamp);
    SentFrame(s.brakePedal, frame, value);
    BrakeStep(s, arrivals, sent);
    BrakeReportOf(s, sent);
    var position := value as real * s.brakePedal.scale + s.brakePedal.offset;
    assert BrakeOf(s, sent) == BrakePedalReport(
      stamp, s.brakePedal.canId,
      if s.brakeActiveHigh then s.brakePressThreshold <= position else position < s.brakePressThreshold,
      position, value);
  }
}
