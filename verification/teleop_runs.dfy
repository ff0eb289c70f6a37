/**
  Safety of teleop over whole runs: any sequence of joy messages and timer ticks.
*/
module TeleopRuns {
  import opened Teleop

  ghost predicate Timed(start: int, events: seq<Event>) {
    && (forall i :: 0 <= i < |events| ==> start <= events[i].time)
    && (forall i, j :: 0 <= i < j < |events| ==> events[i].time <= events[j].time)
  }

  ghost predicate IsJoy(cfg: Config, event: Event) {
    event.JoyMessage? && WellFormed(cfg, event.joy)
  }

  lemma PrefixOf(events: seq<Event>, i: nat, k: nat)
    requires i <= k <= |events|
    ensures events[..k][..i] == events[..i]
  {}

  lemma {:induction false} OutputOrigin(cfg: Config, st: State, events: seq<Event>, output: Output)
    requires output in Log(cfg, st, events)
    ensures exists k :: 0 <= k < |events| && output in OutputsAt(cfg, st, events, k)
  {
    var n := |events| - 1;
    if output !in OutputsAt(cfg, st, events, n) {
      OutputOrigin(cfg, st, events[..n], output);
      var k :| 0 <= k < n && output in OutputsAt(cfg, st, events[..n], k);
      PrefixOf(events, k, n);
      assert output in OutputsAt(cfg, st, events, k);
    }
  }

  // ---------- freshness and provenance ----------

  /** The index of the newest well-formed joy message, or -1. */
  ghost function NewestJoy(cfg: Config, events: seq<Event>): (k: int)
    ensures -1 <= k < |events|
    ensures 0 <= k ==> IsJoy(cfg, events[k])
    ensures forall i :: k < i < |events| ==> !IsJoy(cfg, events[i])
  {
    if events == [] then -1
    else if IsJoy(cfg, events[|events| - 1]) then |events| - 1
    else NewestJoy(cfg, events[..|events| - 1])
  }

  /** A trigger goes from 0 released (axis 1) to its maximum pressed (axis -1). */
  ghost predicate TriggersAsk(cfg: Config, joy: Joy, brake: real, throttle: real)
    requires WellFormed(cfg, joy)
  {
    && brake == cfg.maxBrake * ((1.0 - joy.axes[cfg.brakeAxis]) / 2.0)
    && throttle == cfg.maxThrottle * ((1.0 - joy.axes[cfg.throttleAxis]) / 2.0)
  }

  /** The stick goes from minus the maximum at 1 to the maximum at -1. */
  ghost predicate StickAsks(cfg: Config, joy: Joy, steering: real)
    requires WellFormed(cfg, joy)
  {
    steering == cfg.maxSteering * -joy.axes[cfg.steeringAxis]
  }

  /** Enabled implies armed, a positive heartbeat, and setpoints that the newest well-formed
      message asks for. */
  ghost predicate Provenance(cfg: Config, st: State, events: seq<Event>) {
    var k := NewestJoy(cfg, events);
    && st.lastJoy == (if k < 0 then 0 else events[k].time)
    && (st.enabled ==>
          && st.armed && 0 < st.lastJoy
          && TriggersAsk(cfg, events[k].joy, st.brake, st.throttle) && StickAsks(cfg, events[k].joy, st.steering))
  }

  lemma LinearOfAxis(axis: real)
    ensures LinearTransform(axis, TRIGGER_MAX, TRIGGER_MIN, 1.0, 0.0) == (1.0 - axis) / 2.0
    ensures LinearTransform(axis, STICK_MAX, STICK_MIN, 1.0, -1.0) == -axis
  {}

  lemma TargetsOfAxes(cfg: Config, joy: Joy)
    requires WellFormed(cfg, joy)
    ensures TriggersAsk(cfg, joy, BrakeTarget(cfg, joy), ThrottleTarget(cfg, joy))
    ensures StickAsks(cfg, joy, SteeringTarget(cfg, joy))
  {
    LinearOfAxis(joy.axes[cfg.brakeAxis]);
    LinearOfAxis(joy.axes[cfg.throttleAxis]);
    LinearOfAxis(joy.axes[cfg.steeringAxis]);
  }

  lemma {:induction false} ProvenanceHolds(cfg: Config, events: seq<Event>)
    requires Timed(1, events)
    ensures Provenance(cfg, After(cfg, INITIAL, events), events)
  {
    if events != [] {
      var n := |events| - 1;
      ProvenanceHolds(cfg, events[..n]);
      hide BrakeTarget, ThrottleTarget, SteeringTarget, TriggersAsk, StickAsks;
      if IsJoy(cfg, events[n]) {
        TargetsOfAxes(cfg, events[n].joy);
      }
    }
  }

  /** A command published at `now`: a well-formed message arrived within the timeout, and
      brake and throttle are what that newest message's triggers ask for. */
  ghost predicate Fresh(cfg: Config, before: seq<Event>, now: int, command: Output)
    requires command.Command?
  {
    var k := NewestJoy(cfg, before);
    && 0 <= k && command.time == now
    && 0 <= now - before[k].time && (now - before[k].time) as real <= cfg.joyTimeout * 1_000_000_000.0
    && TriggersAsk(cfg, before[k].joy, command.brake, command.throttle)
  }

  lemma TickCommandFresh(cfg: Config, st: State, before: seq<Event>, now: int, command: Output)
    requires Provenance(cfg, st, before) && forall i :: 0 <= i < |before| ==> before[i].time <= now
    requires command.Command? && command in TickStep(cfg, st, now).outputs
    ensures Fresh(cfg, before, now, command)
  {
    hide TriggersAsk, StickAsks, ExponentialAverage;
  }

  lemma CommandFromTick(cfg: Config, st: State, event: Event, command: Output)
    requires command.Command? && command in StepOf(cfg, st, event).outputs
    ensures event.Tick? && command in TickStep(cfg, st, event.time).outputs
  {}

  lemma CommandsAreFresh(cfg: Config, events: seq<Event>, command: Output)
    requires Timed(1, events) && command.Command? && command in Log(cfg, INITIAL, events)
    ensures exists k :: 0 <= k < |events| && events[k].Tick? && Fresh(cfg, events[..k], events[k].time, command)
  {
    hide After, Log, Provenance, Fresh, StepOf;
    OutputOrigin(cfg, INITIAL, events, command);
    var k :| 0 <= k < |events| && command in OutputsAt(cfg, INITIAL, events, k);
    CommandFromTick(cfg, After(cfg, INITIAL, events[..k]), events[k], command);
    ProvenanceHolds(cfg, events[..k]);
    TickCommandFresh(cfg, After(cfg, INITIAL, events[..k]), events[..k], events[k].time, command);
  }

  /** The declared parameter ranges include their ends. */
  lemma RangesIncludeEnds()
    ensures Config(0, 0, 0, 0, 0, 0.01, 0.05, 0.0, 0.0, 0.0).InRange()
    ensures Config(31, 31, 31, 31, 31, 1.0, 5.0, 1.0, 1.0, 1.0).InRange()
  {}

  // ---------- the watchdog ----------

  ghost predicate Quiet(cfg: Config, events: seq<Event>) {
    forall i :: 0 <= i < |events| ==> !IsJoy(cfg, events[i])
  }

  /** The first tick that finds the heartbeat too old. */
  ghost function FirstExpired(cfg: Config, last: int, events: seq<Event>): (k: nat)
    ensures k <= |events|
    ensures forall i :: 0 <= i < k ==> !(events[i].Tick? && Expired(cfg, last, events[i].time))
    ensures k < |events| ==> events[k].Tick? && Expired(cfg, last, events[k].time)
  {
    if events == [] then 0
    else
      var k := FirstExpired(cfg, last, events[..|events| - 1]);
      if k < |events| - 1 then k
      else if events[|events| - 1].Tick? && Expired(cfg, last, events[|events| - 1].time) then k
      else |events|
  }

  ghost predicate IsCommand(output: Output) { output.Command? }

  /** With no more well-formed messages, control stays enabled up to the first expired
      tick; that tick disables, disarms and zeroes, and nothing follows. */
  lemma {:induction false} QuietRun(cfg: Config, st: State, events: seq<Event>)
    requires st.enabled && st.armed && 0 < st.lastJoy && Quiet(cfg, events)
    ensures var k, end, log := FirstExpired(cfg, st.lastJoy, events), After(cfg, st, events), Log(cfg, st, events);
            && end.lastJoy == st.lastJoy
            && if k == |events| then
                 end.enabled && end.armed && (forall o :: o in log ==> IsCommand(o))
               else
                 && !end.enabled && !end.armed
                 && end.brake == end.throttle == end.steering == end.average == 0.0
                 && log == Log(cfg, st, events[..k]) + [EnableDisable(events[k].time, false)]
  {
    if events != [] {
      var n := |events| - 1;
      QuietRun(cfg, st, events[..n]);
      var k := FirstExpired(cfg, st.lastJoy, events[..n]);
      if k < n {
        PrefixOf(events, k, n);
      }
    }
  }

  /** The time of the newest tick, or `start` before the first. */
  ghost function NewestTick(start: int, events: seq<Event>): int {
    if events == [] then start
    else if events[|events| - 1].Tick? then events[|events| - 1].time
    else NewestTick(start, events[..|events| - 1])
  }

  /** The timer never lets more than `period` pass without a tick. */
  ghost predicate TicksWithin(start: int, events: seq<Event>, period: nat) {
    forall i :: 0 <= i < |events| ==> events[i].time <= NewestTick(start, events[..i]) + period
  }

  lemma PrefixUnexpired(cfg: Config, last: int, events: seq<Event>, k: nat)
    requires k <= FirstExpired(cfg, last, events)
    ensures FirstExpired(cfg, last, events[..k]) == k
  {}

  lemma {:induction false} UnexpiredTick(cfg: Config, last: int, start: int, events: seq<Event>)
    requires FirstExpired(cfg, last, events) == |events| && !Expired(cfg, last, start)
    ensures !Expired(cfg, last, NewestTick(start, events))
  {
    if events != [] {
      PrefixUnexpired(cfg, last, events, |events| - 1);
      UnexpiredTick(cfg, last, start, events[..|events| - 1]);
    }
  }

  /** `now` is later than `t` by more than the timeout, by at most `period` more. */
  ghost predicate InWindow(cfg: Config, t: int, now: int, period: nat) {
    cfg.joyTimeout * 1_000_000_000.0 < (now - t) as real <= cfg.joyTimeout * 1_000_000_000.0 + period as real
  }

  /** Watchdog bound. Well-formed messages stop at time t = lastJoy while control is
      enabled, ticks are at most `period` apart and the run lasts beyond t + timeout +
      period: by then the watchdog has published a disable, and since that tick nothing
      else has been published. */
  lemma WatchdogBound(cfg: Config, st: State, start: int, events: seq<Event>, period: nat)
    requires st.enabled && st.armed && 0 < st.lastJoy && Quiet(cfg, events)
    requires TicksWithin(start, events, period) && start <= st.lastJoy && 0.0 <= cfg.joyTimeout
    requires events != []
    requires (events[|events| - 1].time - st.lastJoy) as real > cfg.joyTimeout * 1_000_000_000.0 + period as real
    ensures var k := FirstExpired(cfg, st.lastJoy, events);
            && k < |events|
            && InWindow(cfg, st.lastJoy, events[k].time, period)
            && Log(cfg, st, events) == Log(cfg, st, events[..k]) + [EnableDisable(events[k].time, false)]
            && (forall o :: o in Log(cfg, st, events[..k]) ==> IsCommand(o))
            && !After(cfg, st, events).enabled && !After(cfg, st, events).armed
  {
    var t, n := st.lastJoy, |events| - 1;
    var k := FirstExpired(cfg, t, events);
    QuietRun(cfg, st, events);
    if k == |events| {
      PrefixUnexpired(cfg, t, events, n);
      UnexpiredTick(cfg, t, start, events[..n]);
      assert false;
    }
    PrefixUnexpired(cfg, t, events, k);
    UnexpiredTick(cfg, t, start, events[..k]);
    QuietRun(cfg, st, events[..k]);
  }

  lemma {:induction false} RunAppend(cfg: Config, st: State, a: seq<Event>, b: seq<Event>)
    ensures After(cfg, st, a + b) == After(cfg, After(cfg, st, a), b)
    ensures Log(cfg, st, a + b) == Log(cfg, st, a) + Log(cfg, After(cfg, st, a), b)
  {
    hide StepOf;
    if b == [] {
      assert a + b == a;
    } else {
      var n := |b| - 1;
      RunAppend(cfg, st, a, b[..n]);
      assert a + b == a + b[..n] + [b[n]] && b == b[..n] + [b[n]];
      RunStep(cfg, st, a + b[..n], b[n]);
      RunStep(cfg, After(cfg, st, a), b[..n], b[n]);
    }
  }

  lemma {:induction false} NewestTickAppend(start: int, a: seq<Event>, b: seq<Event>)
    ensures NewestTick(start, a + b) == NewestTick(NewestTick(start, a), b)
  {
    if b == [] {
      assert a + b == a;
    } else {
      var n := |b| - 1;
      NewestTickAppend(start, a, b[..n]);
      assert (a + b)[..|a + b| - 1] == a + b[..n];
    }
  }

  lemma {:induction false} NewestTickBound(start: int, events: seq<Event>, bound: int)
    requires start <= bound && forall i :: 0 <= i < |events| ==> events[i].time <= bound
    ensures NewestTick(start, events) <= bound
  {
    if events != [] {
      NewestTickBound(start, events[..|events| - 1], bound);
    }
  }

  lemma SuffixTicks(start: int, a: seq<Event>, b: seq<Event>, period: nat)
    requires TicksWithin(start, a + b, period)
    ensures TicksWithin(NewestTick(start, a), b, period)
  {
    forall i | 0 <= i < |b|
      ensures b[i].time <= NewestTick(NewestTick(start, a), b[..i]) + period
    {
      assert (a + b)[|a| + i] == b[i] && (a + b)[..|a| + i] == a + b[..i];
      NewestTickAppend(start, a, b[..i]);
    }
  }

  lemma TimedPrefix(start: int, a: seq<Event>, b: seq<Event>)
    requires Timed(start, a + b)
    ensures Timed(start, a)
  {
    forall i | 0 <= i < |a|
      ensures (a + b)[i] == a[i]
    {}
  }

  lemma LastMessage(cfg: Config, start: int, before: seq<Event>, after: seq<Event>)
    requires before != [] && start <= before[|before| - 1].time && Timed(1, before + after)
    requires IsJoy(cfg, before[|before| - 1]) && After(cfg, INITIAL, before).enabled
    ensures var st, t := After(cfg, INITIAL, before), before[|before| - 1].time;
            st.armed && 0 < st.lastJoy == t && NewestTick(start, before) <= t
  {
    hide After, BrakeTarget, ThrottleTarget, SteeringTarget;
    TimedPrefix(1, before, after);
    ProvenanceHolds(cfg, before);
    NewestTickBound(start, before, before[|before| - 1].time);
  }

  /** The watchdog bound in any run of the node: from `start` on, when its timer began, ticks
      are at most `period` apart; the newest well-formed message comes no earlier than that,
      ends `before` and leaves control enabled; and the run goes on beyond that message's
      time + timeout + period. Then the last thing published is a disable, within that
      bound. */
  lemma WatchdogInRun(cfg: Config, start: int, before: seq<Event>, after: seq<Event>, period: nat) returns (k: nat)
    requires before != [] && start <= before[|before| - 1].time && after != []
    requires cfg.InRange() && Timed(1, before + after) && TicksWithin(start, before + after, period)
    requires IsJoy(cfg, before[|before| - 1]) && Quiet(cfg, after)
    requires After(cfg, INITIAL, before).enabled
    requires (after[|after| - 1].time - before[|before| - 1].time) as real
           > cfg.joyTimeout * 1_000_000_000.0 + period as real
    ensures k < |after| && InWindow(cfg, before[|before| - 1].time, after[k].time, period)
    ensures Log(cfg, INITIAL, before + after)
         == Log(cfg, INITIAL, before + after[..k]) + [EnableDisable(after[k].time, false)]
    ensures !After(cfg, INITIAL, before + after).enabled && !After(cfg, INITIAL, before + after).armed
  {
    hide After, Log, Quiet, Timed, TicksWithin, NewestTick, FirstExpired, InWindow, IsJoy;
    var st := After(cfg, INITIAL, before);
    LastMessage(cfg, start, before, after);
    SuffixTicks(start, before, after, period);
    WatchdogBound(cfg, st, NewestTick(start, before), after, period);
    k := FirstExpired(cfg, st.lastJoy, after);
    RunAppend(cfg, INITIAL, before, after);
    RunAppend(cfg, INITIAL, before, after[..k]);
  }

  // ---------- re-arming ----------

  ghost predicate ArmsAt(cfg: Config, st: State, events: seq<Event>, i: nat)
    requires i < |events|
  {
    && IsJoy(cfg, events[i]) && !After(cfg, st, events[..i]).armed
    && 0.99 < events[i].joy.axes[cfg.brakeAxis] && 0.99 < events[i].joy.axes[cfg.throttleAxis]
  }

  ghost predicate EnablesAt(cfg: Config, st: State, events: seq<Event>, j: nat)
    requires j < |events|
  {
    var s := After(cfg, st, events[..j]);
    && IsJoy(cfg, events[j]) && s.armed
    && StartEdge(cfg, s, events[j].joy) && !BackEdge(cfg, s, events[j].joy)
  }

  lemma {:induction false} ArmedNeeds(cfg: Config, st: State, events: seq<Event>)
    requires !st.armed && After(cfg, st, events).armed
    ensures exists i :: 0 <= i < |events| && ArmsAt(cfg, st, events, i)
  {
    var n := |events| - 1;
    if After(cfg, st, events[..n]).armed {
      ArmedNeeds(cfg, st, events[..n]);
      var i :| 0 <= i < n && ArmsAt(cfg, st, events[..n], i);
      PrefixOf(events, i, n);
      assert ArmsAt(cfg, st, events, i);
    } else {
      assert ArmsAt(cfg, st, events, n);
    }
  }

  lemma {:induction false} EnabledNeeds(cfg: Config, st: State, events: seq<Event>)
    requires !st.enabled && After(cfg, st, events).enabled
    ensures exists j :: 0 <= j < |events| && EnablesAt(cfg, st, events, j)
  {
    var n := |events| - 1;
    if After(cfg, st, events[..n]).enabled {
      EnabledNeeds(cfg, st, events[..n]);
      var j :| 0 <= j < n && EnablesAt(cfg, st, events[..n], j);
      PrefixOf(events, j, n);
      assert EnablesAt(cfg, st, events, j);
    } else {
      assert EnablesAt(cfg, st, events, n);
    }
  }

  /** From any disabled state, armed or not, no command is published before a message with
      a START edge and without a BACK edge has been processed while armed. */
  lemma NoCommandBeforeStart(cfg: Config, st: State, events: seq<Event>, k: nat, command: Output)
    requires !st.enabled
    requires k < |events| && command.Command? && command in OutputsAt(cfg, st, events, k)
    ensures exists j :: 0 <= j < k && EnablesAt(cfg, st, events, j)
  {
    EnabledNeeds(cfg, st, events[..k]);
    var j :| 0 <= j < k && EnablesAt(cfg, st, events[..k], j);
    PrefixOf(events, j, k);
    assert EnablesAt(cfg, st, events, j);
  }

  /** So a BACK edge silences the node, which stays armed, until such a message. */
  lemma NothingAfterBack(
      cfg: Config, st: State, joy: Joy, now: int, later: seq<Event>, k: nat, command: Output)
    requires WellFormed(cfg, joy) && st.armed && BackEdge(cfg, st, joy)
    requires var back := JoyStep(cfg, st, joy, now).state;
             k < |later| && command.Command? && command in OutputsAt(cfg, back, later, k)
    ensures var back := JoyStep(cfg, st, joy, now).state;
            back.armed && exists j :: 0 <= j < k && EnablesAt(cfg, back, later, j)
  {
    NoCommandBeforeStart(cfg, JoyStep(cfg, st, joy, now).state, later, k, command);
  }

  /** From a disarmed, disabled state (the start, or after the watchdog) no command is
      published before one message has re-armed and a later one has had a START edge
      without a BACK edge. */
  lemma NoCommandBeforeRearm(cfg: Config, st: State, events: seq<Event>, k: nat, command: Output)
    requires !st.armed && !st.enabled
    requires k < |events| && command.Command? && command in OutputsAt(cfg, st, events, k)
    ensures exists i, j :: 0 <= i < j < k && ArmsAt(cfg, st, events, i) && EnablesAt(cfg, st, events, j)
  {
    NoCommandBeforeStart(cfg, st, events, k, command);
    var j :| 0 <= j < k && EnablesAt(cfg, st, events, j);
    ArmedNeeds(cfg, st, events[..j]);
    var i :| 0 <= i < j && ArmsAt(cfg, st, events[..j], i);
    PrefixOf(events, i, j);
    assert ArmsAt(cfg, st, events, i) && EnablesAt(cfg, st, events, j);
  }

  /** In particular no command in any run of the node comes without both. */
  lemma NoCommandFromStart(cfg: Config, events: seq<Event>, k: nat, command: Output)
    requires k < |events| && command.Command? && command in OutputsAt(cfg, INITIAL, events, k)
    ensures exists i, j :: 0 <= i < j < k && ArmsAt(cfg, INITIAL, events, i) && EnablesAt(cfg, INITIAL, events, j)
  {
    NoCommandBeforeRearm(cfg, INITIAL, events, k, command);
  }

  /** What happens at index i of the second part of a run. */
  lemma SuffixIndex(cfg: Config, st: State, a: seq<Event>, b: seq<Event>, i: nat)
    requires i < |b|
    ensures (a + b)[|a| + i] == b[i]
    ensures After(cfg, st, (a + b)[..|a| + i]) == After(cfg, After(cfg, st, a), b[..i])
  {
    assert (a + b)[..|a| + i] == a + b[..i];
    RunAppend(cfg, st, a, b[..i]);
  }

  lemma RearmedLater(cfg: Config, st: State, run: seq<Event>, later: seq<Event>, k: nat, command: Output)
    requires !After(cfg, st, run).armed && !After(cfg, st, run).enabled
    requires k < |later| && command.Command? && command in OutputsAt(cfg, st, run + later, |run| + k)
    ensures exists i, j ::
      |run| <= i < j < |run| + k && ArmsAt(cfg, st, run + later, i) && EnablesAt(cfg, st, run + later, j)
  {
    var s := After(cfg, st, run);
    SuffixIndex(cfg, st, run, later, k);
    NoCommandBeforeRearm(cfg, s, later, k, command);
    var i, j :| 0 <= i < j < k && ArmsAt(cfg, s, later, i) && EnablesAt(cfg, s, later, j);
    SuffixIndex(cfg, st, run, later, i);
    SuffixIndex(cfg, st, run, later, j);
    assert ArmsAt(cfg, st, run + later, |run| + i) && EnablesAt(cfg, st, run + later, |run| + j);
  }

  /** The watchdog and re-arming together: well-formed messages stop with control enabled,
      and ticks are at most `period` apart until past the timeout. A disable is published in
      time, and whatever comes later, no command is published after it before a message has
      re-armed and a later one has enabled. */
  lemma SilentUntilRearmed(
      cfg: Config, start: int, before: seq<Event>, after: seq<Event>, period: nat, later: seq<Event>, k: nat,
      command: Output)
    returns (d: nat)
    requires before != [] && start <= before[|before| - 1].time && after != []
    requires cfg.InRange() && Timed(1, before + after) && TicksWithin(start, before + after, period)
    requires IsJoy(cfg, before[|before| - 1]) && Quiet(cfg, after)
    requires After(cfg, INITIAL, before).enabled
    requires (after[|after| - 1].time - before[|before| - 1].time) as real
           > cfg.joyTimeout * 1_000_000_000.0 + period as real
    requires k < |later| && command.Command?
    requires command in OutputsAt(cfg, INITIAL, before + after + later, |before + after| + k)
    ensures d < |after| && InWindow(cfg, before[|before| - 1].time, after[d].time, period)
    ensures Log(cfg, INITIAL, before + after)
         == Log(cfg, INITIAL, before + after[..d]) + [EnableDisable(after[d].time, false)]
    ensures exists i, j ::
      |before + after| <= i < j < |before + after| + k
      && ArmsAt(cfg, INITIAL, before + after + later, i) && EnablesAt(cfg, INITIAL, before + after + later, j)
  {
    hide *;
    d := WatchdogInRun(cfg, start, before, after, period);
    RearmedLater(cfg, INITIAL, before + after, later, k, command);
  }

  /** The newest message that was processed while armed, or -1. */
  ghost function NewestArmed(cfg: Config, st: State, events: seq<Event>): (k: int)
    ensures -1 <= k < |events|
    ensures 0 <= k ==> IsJoy(cfg, events[k])
  {
    if events == [] then -1
    else
      var n := |events| - 1;
      if IsJoy(cfg, events[n]) && After(cfg, st, events[..n]).armed then n
      else NewestArmed(cfg, st, events[..n])
  }

  /** Edges are relative to the newest message processed while armed: messages that only
      arm, or arrive disarmed, leave the remembered buttons alone. */
  lemma {:induction false} RememberedButtons(cfg: Config, st: State, events: seq<Event>)
    ensures var k, s := NewestArmed(cfg, st, events), After(cfg, st, events);
            && s.previousStart == (if k < 0 then st.previousStart else events[k].joy.buttons[cfg.startButton])
            && s.previousBack == (if k < 0 then st.previousBack else events[k].joy.buttons[cfg.backButton])
  {
    if events != [] {
      RememberedButtons(cfg, st, events[..|events| - 1]);
    }
  }

  /** At this event control is disabled if it was enabled: a BACK edge of an armed node, or
      a tick that finds the heartbeat too old. */
  ghost predicate DisablesAt(cfg: Config, st: State, events: seq<Event>, i: nat)
    requires i < |events|
  {
    var s := After(cfg, st, events[..i]);
    match events[i]
    case JoyMessage(_, joy) => WellFormed(cfg, joy) && s.armed && BackEdge(cfg, s, joy)
    case Tick(time) => 0 < s.lastJoy && Expired(cfg, s.lastJoy, time)
  }

  /** Some message enabled and nothing has disabled since. */
  ghost predicate EnabledSince(cfg: Config, st: State, events: seq<Event>, j: nat)
    requires j < |events|
  {
    EnablesAt(cfg, st, events, j) && forall i :: j < i < |events| ==> !DisablesAt(cfg, st, events, i)
  }

  lemma EnabledStep(cfg: Config, st: State, events: seq<Event>)
    requires events != []
    ensures var n := |events| - 1;
            After(cfg, st, events).enabled <==>
              EnablesAt(cfg, st, events, n) || (After(cfg, st, events[..n]).enabled && !DisablesAt(cfg, st, events, n))
  {}

  lemma EnabledSinceGrows(cfg: Config, st: State, events: seq<Event>, j: nat)
    requires j < |events| - 1
    ensures var n := |events| - 1;
            EnabledSince(cfg, st, events, j) <==>
              EnabledSince(cfg, st, events[..n], j) && !DisablesAt(cfg, st, events, n)
  {
    var n := |events| - 1;
    forall i | 0 <= i < n
      ensures DisablesAt(cfg, st, events[..n], i) == DisablesAt(cfg, st, events, i)
    {
      PrefixOf(events, i, n);
    }
    PrefixOf(events, j, n);
  }

  /** After any run from a disabled state, control is enabled exactly when some message
      processed while armed had a START edge and no BACK edge, and since then neither a BACK
      edge nor an expired tick has come. */
  lemma {:induction false} EnabledIff(cfg: Config, st: State, events: seq<Event>)
    requires !st.enabled
    ensures After(cfg, st, events).enabled <==> exists j :: 0 <= j < |events| && EnabledSince(cfg, st, events, j)
  {
    if events != [] {
      var n := |events| - 1;
      EnabledIff(cfg, st, events[..n]);
      EnabledStep(cfg, st, events);
      hide After, EnablesAt, DisablesAt;
      forall j | 0 <= j < n
        ensures EnabledSince(cfg, st, events, j) <==>
          EnabledSince(cfg, st, events[..n], j) && !DisablesAt(cfg, st, events, n)
      {
        EnabledSinceGrows(cfg, st, events, j);
      }
      assert EnabledSince(cfg, st, events, n) <==> EnablesAt(cfg, st, events, n);
    }
  }

  // ---------- the mode messages ----------

  /** The mode changes in a log, in order. */
  ghost function Modes(log: seq<Output>): (modes: seq<bool>) {
    if log == [] then []
    else Modes(log[..|log| - 1]) + if log[|log| - 1].EnableDisable? then [log[|log| - 1].enable] else []
  }

  lemma MovedAcross<A>(a: seq<A>, b: seq<A>, c: seq<A>)
    ensures a + b + c == a + (b + c)
  {}

  lemma {:induction false} ModesAppend(a: seq<Output>, b: seq<Output>)
    ensures Modes(a + b) == Modes(a) + Modes(b)
  {
    if b == [] {
      assert a + b == a;
    } else {
      var n := |b| - 1;
      ModesAppend(a, b[..n]);
      assert (a + b)[..|a + b| - 1] == a + b[..n] && (a + b)[|a + b| - 1] == b[n];
      MovedAcross(Modes(a), Modes(b[..n]), if b[n].EnableDisable? then [b[n].enable] else []);
    }
  }

  lemma ModesOfStep(cfg: Config, st: State, event: Event)
    ensures var step := StepOf(cfg, st, event);
            Modes(step.outputs) == [step.state.enabled] ||
            (Modes(step.outputs) == [] && step.state.enabled == st.enabled)
  {
    var outputs := StepOf(cfg, st, event).outputs;
    assert |outputs| <= 1;
    if |outputs| == 1 {
      assert outputs[..0] == [] && Modes(outputs[..0]) == [];
    }
  }

  /** What the mode topic says is what the node does: after any run the newest mode message
      carries whether control is enabled, and without one control is as it was. */
  lemma {:induction false} NewestModeIsState(cfg: Config, st: State, events: seq<Event>)
    ensures var modes := Modes(Log(cfg, st, events));
            After(cfg, st, events).enabled == if modes == [] then st.enabled else modes[|modes| - 1]
  {
    hide StepOf;
    if events != [] {
      var n := |events| - 1;
      NewestModeIsState(cfg, st, events[..n]);
      ModesOfStep(cfg, After(cfg, st, events[..n]), events[n]);
      ModesAppend(Log(cfg, st, events[..n]), OutputsAt(cfg, st, events, n));
    }
  }

  /** A mode message goes out, under the time of its cause, exactly when a message enables
      (even again), or a BACK edge or an expired tick disables. */
  lemma ModeMessages(cfg: Config, st: State, events: seq<Event>, k: nat, time: int)
    requires k < |events|
    ensures EnableDisable(time, true) in OutputsAt(cfg, st, events, k) <==>
      time == events[k].time && EnablesAt(cfg, st, events, k)
    ensures EnableDisable(time, false) in OutputsAt(cfg, st, events, k) <==>
      && time == events[k].time && DisablesAt(cfg, st, events, k)
      && (events[k].Tick? ==> After(cfg, st, events[..k]).enabled)
  {
    hide After, BrakeTarget, ThrottleTarget, SteeringTarget, ExponentialAverage, Expired;
  }

  /** Control becomes enabled at a message in exactly these cases. */
  lemma EnabledExactly(cfg: Config, st: State, joy: Joy, now: int)
    requires !st.enabled
    ensures JoyStep(cfg, st, joy, now).state.enabled <==>
      WellFormed(cfg, joy) && st.armed && StartEdge(cfg, st, joy) && !BackEdge(cfg, st, joy)
  {}

  /** After arming, the second message decides: the buttons of the message that arms play no
      role, so START held down since before it enables, although the start-up hint asks to
      press START once armed. */
  lemma HeldStartEnables(cfg: Config, st: State, arming: Joy, next: Joy, first: int, second: int)
    requires !st.armed && !st.enabled && WellFormed(cfg, arming) && WellFormed(cfg, next)
    requires 0.99 < arming.axes[cfg.brakeAxis] && 0.99 < arming.axes[cfg.throttleAxis]
    ensures After(cfg, st, [JoyMessage(first, arming), JoyMessage(second, next)]).enabled <==>
      && st.previousStart == 0 && next.buttons[cfg.startButton] != 0
      && !(st.previousBack == 0 && next.buttons[cfg.backButton] != 0)
    ensures st == INITIAL ==>
      (After(cfg, st, [JoyMessage(first, arming), JoyMessage(second, next)]).enabled <==>
       next.buttons[cfg.startButton] != 0 && next.buttons[cfg.backButton] == 0)
  {
    var one := [JoyMessage(first, arming)];
    assert one[..0] == [] && After(cfg, st, []) == st;
    assert After(cfg, st, one) == JoyStep(cfg, st, arming, first).state;
    RunStep(cfg, st, one, JoyMessage(second, next));
    assert one + [JoyMessage(second, next)] == [JoyMessage(first, arming), JoyMessage(second, next)];
  }

  // ---------- bounds and smoothing ----------

  lemma Product(a: real, b: real)
    requires 0.0 <= a && 0.0 <= b
    ensures 0.0 <= a * b
  {}

  lemma ScaledUnit(m: real, x: real)
    requires 0.0 <= m && 0.0 <= x <= 1.0
    ensures 0.0 <= m * x <= m
  {
    Product(m, x);
    Product(m, 1.0 - x);
    assert m * (1.0 - x) == m - m * x;
  }

  lemma ScaledSigned(m: real, x: real)
    requires 0.0 <= m && -1.0 <= x <= 1.0
    ensures -m <= m * x <= m
  {
    Product(m, 1.0 + x);
    Product(m, 1.0 - x);
    assert m * (1.0 - x) == m - m * x && m * (1.0 + x) == m + m * x;
  }

  /** An exponential average stays between its operands' bounds. */
  lemma AverageBounds(average: real, setpoint: real, factor: real, m: real)
    requires 0.0 <= factor <= 1.0 && -m <= average <= m && -m <= setpoint <= m
    ensures -m <= ExponentialAverage(average, setpoint, factor) <= m
  {
    Product(factor, m - setpoint);
    Product(factor, m + setpoint);
    Product(1.0 - factor, m - average);
    Product(1.0 - factor, m + average);
  }

  ghost predicate AxesInRange(cfg: Config, event: Event) {
    IsJoy(cfg, event) ==>
      && -1.0 <= event.joy.axes[cfg.brakeAxis] <= 1.0
      && -1.0 <= event.joy.axes[cfg.throttleAxis] <= 1.0
      && -1.0 <= event.joy.axes[cfg.steeringAxis] <= 1.0
  }

  ghost predicate InBounds(cfg: Config, st: State) {
    && 0.0 <= st.brake <= cfg.maxBrake && 0.0 <= st.throttle <= cfg.maxThrottle
    && -cfg.maxSteering <= st.steering <= cfg.maxSteering
    && -cfg.maxSteering <= st.average <= cfg.maxSteering
  }

  lemma TriggerRange(axis: real)
    requires -1.0 <= axis <= 1.0
    ensures 0.0 <= LinearTransform(axis, TRIGGER_MAX, TRIGGER_MIN, 1.0, 0.0) <= 1.0
  {
    assert LinearTransform(axis, TRIGGER_MAX, TRIGGER_MIN, 1.0, 0.0) == (1.0 - axis) / 2.0;
  }

  lemma StickRange(axis: real)
    requires -1.0 <= axis <= 1.0
    ensures -1.0 <= LinearTransform(axis, STICK_MAX, STICK_MIN, 1.0, -1.0) <= 1.0
  {
    assert LinearTransform(axis, STICK_MAX, STICK_MIN, 1.0, -1.0) == -axis;
  }

  lemma BrakeBounds(cfg: Config, joy: Joy)
    requires 0.0 <= cfg.maxBrake && WellFormed(cfg, joy) && -1.0 <= joy.axes[cfg.brakeAxis] <= 1.0
    ensures 0.0 <= BrakeTarget(cfg, joy) <= cfg.maxBrake
  {
    hide LinearTransform;
    TriggerRange(joy.axes[cfg.brakeAxis]);
    ScaledUnit(cfg.maxBrake, LinearTransform(joy.axes[cfg.brakeAxis], TRIGGER_MAX, TRIGGER_MIN, 1.0, 0.0));
  }

  lemma ThrottleBounds(cfg: Config, joy: Joy)
    requires 0.0 <= cfg.maxThrottle && WellFormed(cfg, joy) && -1.0 <= joy.axes[cfg.throttleAxis] <= 1.0
    ensures 0.0 <= ThrottleTarget(cfg, joy) <= cfg.maxThrottle
  {
    hide LinearTransform;
    TriggerRange(joy.axes[cfg.throttleAxis]);
    ScaledUnit(cfg.maxThrottle, LinearTransform(joy.axes[cfg.throttleAxis], TRIGGER_MAX, TRIGGER_MIN, 1.0, 0.0));
  }

  lemma SteeringBounds(cfg: Config, joy: Joy)
    requires 0.0 <= cfg.maxSteering && WellFormed(cfg, joy) && -1.0 <= joy.axes[cfg.steeringAxis] <= 1.0
    ensures -cfg.maxSteering <= SteeringTarget(cfg, joy) <= cfg.maxSteering
  {
    hide LinearTransform;
    var x := LinearTransform(joy.axes[cfg.steeringAxis], STICK_MAX, STICK_MIN, 1.0, -1.0);
    StickRange(joy.axes[cfg.steeringAxis]);
    ScaledSigned(cfg.maxSteering, x);
    assert SteeringTarget(cfg, joy) == cfg.maxSteering * x;
  }

  lemma JoyBounds(cfg: Config, st: State, joy: Joy, now: int)
    requires cfg.InRange() && InBounds(cfg, st) && AxesInRange(cfg, JoyMessage(now, joy))
    ensures InBounds(cfg, JoyStep(cfg, st, joy, now).state)
  {
    hide BrakeTarget, ThrottleTarget, SteeringTarget;
    if WellFormed(cfg, joy) {
      BrakeBounds(cfg, joy);
      ThrottleBounds(cfg, joy);
      SteeringBounds(cfg, joy);
    }
  }

  /** With axes in [-1, 1], every reachable setpoint and the steering average stay within
      their configured maxima. */
  lemma {:induction false} StateInBounds(cfg: Config, events: seq<Event>)
    requires cfg.InRange() && forall i :: 0 <= i < |events| ==> AxesInRange(cfg, events[i])
    ensures InBounds(cfg, After(cfg, INITIAL, events))
  {
    if events != [] {
      var n := |events| - 1;
      var st := After(cfg, INITIAL, events[..n]);
      StateInBounds(cfg, events[..n]);
      match events[n]
      case JoyMessage(time, joy) => JoyBounds(cfg, st, joy, time);
      case Tick(_) => AverageBounds(st.average, st.steering, cfg.smoothing, cfg.maxSteering);
    }
  }

  /** The torque sent is the average after the tick that sends it. */
  lemma TorqueIsAverage(cfg: Config, st: State, events: seq<Event>, k: nat, command: Output)
    requires k < |events| && command.Command? && command in OutputsAt(cfg, st, events, k)
    ensures command.time == events[k].time && command.steering == After(cfg, st, events[..k + 1]).average
  {
    assert events[..k + 1][..k] == events[..k];
  }

  lemma CommandsInBounds(cfg: Config, events: seq<Event>, command: Output)
    requires cfg.InRange() && forall i :: 0 <= i < |events| ==> AxesInRange(cfg, events[i])
    requires command.Command? && command in Log(cfg, INITIAL, events)
    ensures 0.0 <= command.brake <= cfg.maxBrake && 0.0 <= command.throttle <= cfg.maxThrottle
    ensures -cfg.maxSteering <= command.steering <= cfg.maxSteering
  {
    hide After, Log, StepOf, ExponentialAverage;
    OutputOrigin(cfg, INITIAL, events, command);
    var k :| 0 <= k < |events| && command in OutputsAt(cfg, INITIAL, events, k);
    CommandFromTick(cfg, After(cfg, INITIAL, events[..k]), events[k], command);
    TorqueIsAverage(cfg, INITIAL, events, k, command);
    StateInBounds(cfg, events[..k]);
    StateInBounds(cfg, events[..k + 1]);
  }

  function Power(x: real, n: nat): real {
    if n == 0 then 1.0 else x * Power(x, n - 1)
  }

  ghost function TickCount(events: seq<Event>): nat {
    if events == [] then 0
    else TickCount(events[..|events| - 1]) + if events[|events| - 1].Tick? then 1 else 0
  }

  /** Control stays enabled with the stick held at `target`. */
  ghost predicate Holding(cfg: Config, st: State, events: seq<Event>, target: real) {
    forall i :: 0 <= i <= |events| ==>
      After(cfg, st, events[..i]).enabled && After(cfg, st, events[..i]).steering == target
  }

  lemma HoldingPrefix(cfg: Config, st: State, events: seq<Event>, target: real)
    requires Holding(cfg, st, events, target) && events != []
    ensures Holding(cfg, st, events[..|events| - 1], target)
    ensures After(cfg, st, events).enabled
    ensures After(cfg, st, events[..|events| - 1]).enabled && After(cfg, st, events[..|events| - 1]).steering == target
  {
    var n := |events| - 1;
    forall i | 0 <= i <= n
      ensures events[..n][..i] == events[..i]
    {}
    assert events[..|events|] == events;
  }

  lemma Regroup(g: real, p: real, e: real)
    ensures g * p * e == g * (p * e)
  {}

  /** A publishing tick shrinks the error; a message leaves the average alone. */
  lemma AverageStep(cfg: Config, st: State, event: Event, target: real)
    requires st.enabled && st.steering == target && StepOf(cfg, st, event).state.enabled
    ensures StepOf(cfg, st, event).state.average - target
         == (st.average - target) * if event.Tick? then 1.0 - cfg.smoothing else 1.0
  {}

  /** After n publishing ticks the distance to the target has shrunk by (1 - f)^n. */
  lemma {:induction false} SteeringConverges(cfg: Config, st: State, events: seq<Event>, target: real)
    requires Holding(cfg, st, events, target)
    ensures After(cfg, st, events).average - target
         == Power(1.0 - cfg.smoothing, TickCount(events)) * (st.average - target)
  {
    hide StepOf;
    if events != [] {
      var n := |events| - 1;
      HoldingPrefix(cfg, st, events, target);
      SteeringConverges(cfg, st, events[..n], target);
      AverageStep(cfg, After(cfg, st, events[..n]), events[n], target);
      if events[n].Tick? {
        Regroup(1.0 - cfg.smoothing, Power(1.0 - cfg.smoothing, TickCount(events[..n])), st.average - target);
      }
    }
  }

  lemma ScaledPart(p: real, e: real, d: real)
    requires 0.0 <= p <= 1.0 && 0.0 <= e && d == p * e
    ensures 0.0 <= d <= e
  {
    Product(p, e);
    Product(1.0 - p, e);
    assert (1.0 - p) * e == e - d;
  }

  lemma {:induction false} PowerBounds(x: real, n: nat)
    requires 0.0 <= x <= 1.0
    ensures 0.0 <= Power(x, n) <= 1.0
  {
    if n > 0 {
      PowerBounds(x, n - 1);
      ScaledPart(x, Power(x, n - 1), Power(x, n));
    }
  }

  lemma Negated(p: real, e: real)
    ensures p * -e == -(p * e)
  {}

  lemma ScaledError(p: real, e: real, d: real)
    requires 0.0 <= p <= 1.0 && d == p * e
    ensures 0.0 <= e ==> 0.0 <= d <= e
    ensures e <= 0.0 ==> e <= d <= 0.0
  {
    if 0.0 <= e {
      ScaledPart(p, e, d);
    } else {
      Negated(p, e);
      ScaledPart(p, -e, -d);
    }
  }

  /** The average moves only at a tick that sends a command, and is cleared by the watchdog:
      neither messages nor ticks of a disabled node touch it. */
  lemma AverageMoves(cfg: Config, st: State, events: seq<Event>, k: nat)
    requires k < |events|
    ensures var before, after, outputs :=
              After(cfg, st, events[..k]), After(cfg, st, events[..k + 1]), OutputsAt(cfg, st, events, k);
            if events[k].JoyMessage? || outputs == [] then after.average == before.average
            else if outputs == [EnableDisable(events[k].time, false)] then after.average == 0.0
            else exists command :: outputs == [command] && command.Command? && command.steering == after.average
  {
    assert events[..k + 1][..k] == events[..k];
    var outputs := OutputsAt(cfg, st, events, k);
    hide After, BrakeTarget, ThrottleTarget, SteeringTarget, ExponentialAverage, Expired;
    assert After(cfg, st, events[..k + 1]) == StepOf(cfg, After(cfg, st, events[..k]), events[k]).state by {
      RunStep(cfg, st, events[..k], events[k]);
      assert events[..k] + [events[k]] == events[..k + 1];
    }
    if outputs != [] {
      assert outputs == [outputs[0]];
    }
  }

  /** While control stays enabled with the stick held, every tick sends a torque, and after
      n ticks it differs from the target by (1 - f)^n times the first error. */
  lemma TorqueConverges(cfg: Config, st: State, events: seq<Event>, target: real, k: nat) returns (command: Output)
    requires Holding(cfg, st, events, target) && k < |events| && events[k].Tick?
    ensures OutputsAt(cfg, st, events, k) == [command] && command.Command? && command.time == events[k].time
    ensures command.steering - target
         == Power(1.0 - cfg.smoothing, TickCount(events[..k + 1])) * (st.average - target)
  {
    var now := events[..k + 1];
    assert now[..k] == events[..k];
    forall i | 0 <= i <= k + 1
      ensures now[..i] == events[..i]
    {}
    assert Holding(cfg, st, now, target);
    SteeringConverges(cfg, st, now, target);
    var s := After(cfg, st, events[..k]);
    assert s.enabled && After(cfg, st, now).enabled;
    hide Holding, Power, ExponentialAverage;
    command := OutputsAt(cfg, st, events, k)[0];
    TorqueIsAverage(cfg, st, events, k, command);
  }

  /** So the error never grows and keeps its sign: the average approaches the target from
      one side. */
  lemma SteeringErrorShrinks(cfg: Config, st: State, events: seq<Event>, target: real)
    requires cfg.InRange() && Holding(cfg, st, events, target)
    ensures st.average <= target ==> st.average <= After(cfg, st, events).average <= target
    ensures target <= st.average ==> target <= After(cfg, st, events).average <= st.average
  {
    hide After, Holding, Power;
    SteeringConverges(cfg, st, events, target);
    PowerBounds(1.0 - cfg.smoothing, TickCount(events));
    ScaledError(Power(1.0 - cfg.smoothing, TickCount(events)), st.average - target,
                After(cfg, st, events).average - target);
  }

  // ---------- an ordinary run ----------

  lemma {:induction false} NoTickYet(start: int, events: seq<Event>)
    requires forall i :: 0 <= i < |events| ==> !events[i].Tick?
    ensures NewestTick(start, events) == start
  {
    if events != [] {
      NoTickYet(start, events[..|events| - 1]);
    }
  }

  lemma {:induction false} TicksOnTime(start: int, period: nat, before: seq<Event>, after: seq<Event>, i: nat)
    requires i <= |after| && NewestTick(start, before) == start
    requires forall k :: 0 <= k < |after| ==> after[k] == Tick(start + period * (k + 1))
    ensures NewestTick(start, before + after[..i]) == start + period * i
  {
    if i == 0 {
      assert before + after[..0] == before;
    } else {
      assert (before + after[..i])[..|before| + i - 1] == before + after[..i - 1];
      TicksOnTime(start, period, before, after, i - 1);
    }
  }

  lemma OnePeriodMore(period: nat, k: nat)
    ensures period * (k + 1) == period * k + period
  {}

  /** A timer that fires every `period` keeps its ticks within the period, with messages in
      its first one. */
  lemma RegularTimer(start: int, period: nat, before: seq<Event>, after: seq<Event>)
    requires forall i :: 0 <= i < |before| ==> !before[i].Tick? && before[i].time <= start + period
    requires forall k :: 0 <= k < |after| ==> after[k] == Tick(start + period * (k + 1))
    ensures TicksWithin(start, before + after, period)
  {
    NoTickYet(start, before);
    forall i | 0 <= i < |before + after|
      ensures (before + after)[i].time <= NewestTick(start, (before + after)[..i]) + period
    {
      if i < |before| {
        assert (before + after)[..i] == before[..i];
        NoTickYet(start, before[..i]);
      } else {
        var k := i - |before|;
        assert (before + after)[..i] == before + after[..k] && (before + after)[i] == after[k];
        TicksOnTime(start, period, before, after, k);
        OnePeriodMore(period, k);
      }
    }
  }

  /** The premises of the watchdog bound are met by a run on a wall clock: two messages arm
      and enable, then the gamepad goes quiet while the timer ticks on. */
  lemma OrdinaryRun(start: int) returns (cfg: Config, before: seq<Event>, after: seq<Event>, period: nat)
    requires 1_700_000_000_000_000_000 <= start
    ensures before != [] && start <= before[|before| - 1].time && after != [] && period == 20_000_000
    ensures cfg.InRange() && Timed(1, before + after) && TicksWithin(start, before + after, period)
    ensures IsJoy(cfg, before[|before| - 1]) && Quiet(cfg, after) && After(cfg, INITIAL, before).enabled
    ensures (after[|after| - 1].time - before[|before| - 1].time) as real
          > cfg.joyTimeout * 1_000_000_000.0 + period as real
  {
    cfg := Config(0, 0, 0, 0, 1, 0.1, 0.05, 1.0, 1.0, 1.0);
    period := 20_000_000;
    var joy := Joy([1.0], [1, 0]);
    before := [JoyMessage(start + 1, joy), JoyMessage(start + 2, joy)];
    after := seq(5, i requires 0 <= i < 5 => Tick(start + period * (i + 1)));
    hide After, TicksWithin, NewestTick;
    HeldStartEnables(cfg, INITIAL, joy, joy, start + 1, start + 2);
    RegularTimer(start, period, before, after);
  }
}
