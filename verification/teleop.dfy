/**
  The gamepad teleop node: its two callbacks as steps on a state, and the class whose
  methods are proved to take exactly those steps.

  Times are nanoseconds; doubles are reals; each callback runs at one instant.
*/
module Teleop {

  datatype Joy = Joy(axes: seq<real>, buttons: seq<int>)

  const PARKED_THRESHOLD := 0.99
  const TRIGGER_MIN := 1.0
  const TRIGGER_MAX := -1.0
  const STICK_MIN := 1.0
  const STICK_MAX := -1.0
  const NANOSECONDS := 1_000_000_000.0

  datatype Config = Config(
    brakeAxis: nat, throttleAxis: nat, steeringAxis: nat, startButton: nat, backButton: nat,
    smoothing: real, joyTimeout: real,
    maxBrake: real, maxThrottle: real, maxSteering: real)
  {
    /** The ranges the parameters are declared with. */
    ghost predicate InRange() {
      && brakeAxis <= 31 && throttleAxis <= 31 && steeringAxis <= 31 && startButton <= 31 && backButton <= 31
      && 0.01 <= smoothing <= 1.0 && 0.05 <= joyTimeout <= 5.0
      && 0.0 <= maxBrake <= 1.0 && 0.0 <= maxThrottle <= 1.0 && 0.0 <= maxSteering <= 1.0
    }
  }

  /** What the node publishes: a mode change, or one command to each of the actuators. */
  datatype Output =
    | EnableDisable(time: int, enable: bool)
    | Command(time: int, brake: real, throttle: real, steering: real)

  datatype State = State(
    brake: real, throttle: real, steering: real, average: real,
    armed: bool, enabled: bool,
    previousStart: int, previousBack: int,
    lastJoy: int)

  datatype Outcome = Outcome(state: State, outputs: seq<Output>)

  const INITIAL := State(0.0, 0.0, 0.0, 0.0, false, false, 0, 0, 0)

  function ExponentialAverage(average: real, setpoint: real, factor: real): real {
    setpoint * factor + (1.0 - factor) * average
  }

  function LinearTransform(value: real, high1: real, low1: real, high2: real, low2: real): real
    requires high1 != low1
  {
    low2 + (value - low1) * (high2 - low2) / (high1 - low1)
  }

  predicate WellFormed(cfg: Config, joy: Joy) {
    && cfg.brakeAxis < |joy.axes| && cfg.throttleAxis < |joy.axes| && cfg.steeringAxis < |joy.axes|
    && cfg.startButton < |joy.buttons| && cfg.backButton < |joy.buttons|
  }

  predicate Parked(cfg: Config, joy: Joy)
    requires WellFormed(cfg, joy)
  {
    joy.axes[cfg.brakeAxis] > PARKED_THRESHOLD && joy.axes[cfg.throttleAxis] > PARKED_THRESHOLD
  }

  function BrakeTarget(cfg: Config, joy: Joy): real
    requires WellFormed(cfg, joy)
  {
    cfg.maxBrake * LinearTransform(joy.axes[cfg.brakeAxis], TRIGGER_MAX, TRIGGER_MIN, 1.0, 0.0)
  }

  function ThrottleTarget(cfg: Config, joy: Joy): real
    requires WellFormed(cfg, joy)
  {
    cfg.maxThrottle * LinearTransform(joy.axes[cfg.throttleAxis], TRIGGER_MAX, TRIGGER_MIN, 1.0, 0.0)
  }

  function SteeringTarget(cfg: Config, joy: Joy): real
    requires WellFormed(cfg, joy)
  {
    cfg.maxSteering * LinearTransform(joy.axes[cfg.steeringAxis], STICK_MAX, STICK_MIN, 1.0, -1.0)
  }

  predicate BackEdge(cfg: Config, st: State, joy: Joy)
    requires WellFormed(cfg, joy)
  {
    st.previousBack == 0 && joy.buttons[cfg.backButton] != 0
  }

  predicate StartEdge(cfg: Config, st: State, joy: Joy)
    requires WellFormed(cfg, joy)
  {
    st.previousStart == 0 && joy.buttons[cfg.startButton] != 0
  }

  function JoyStep(cfg: Config, st: State, joy: Joy, now: int): Outcome {
    if !WellFormed(cfg, joy) then
      Outcome(st, [])
    else if !st.armed then
      Outcome(st.(lastJoy := now, armed := Parked(cfg, joy)), [])
    else
      var moved := st.(
        lastJoy := now,
        brake := BrakeTarget(cfg, joy), throttle := ThrottleTarget(cfg, joy), steering := SteeringTarget(cfg, joy),
        previousBack := joy.buttons[cfg.backButton], previousStart := joy.buttons[cfg.startButton]);
      if BackEdge(cfg, st, joy) then Outcome(moved.(enabled := false), [EnableDisable(now, false)])
      else if StartEdge(cfg, st, joy) then Outcome(moved.(enabled := true), [EnableDisable(now, true)])
      else Outcome(moved, [])
  }

  /** More than the timeout has passed since `last`. */
  predicate Expired(cfg: Config, last: int, now: int) {
    (now - last) as real / NANOSECONDS > cfg.joyTimeout
  }

  function TickStep(cfg: Config, st: State, now: int): Outcome {
    if !st.enabled then
      Outcome(st, [])
    else if st.lastJoy > 0 && Expired(cfg, st.lastJoy, now) then
      Outcome(
        st.(brake := 0.0, throttle := 0.0, steering := 0.0, average := 0.0, armed := false, enabled := false),
        [EnableDisable(now, false)])
    else
      var average := ExponentialAverage(st.average, st.steering, cfg.smoothing);
      Outcome(st.(average := average), [Command(now, st.brake, st.throttle, average)])
  }

  datatype Event = JoyMessage(time: int, joy: Joy) | Tick(time: int)

  function StepOf(cfg: Config, st: State, event: Event): Outcome {
    match event
    case JoyMessage(time, joy) => JoyStep(cfg, st, joy, time)
    case Tick(time) => TickStep(cfg, st, time)
  }

  /** The state after `events`, started from `st`. */
  ghost function After(cfg: Config, st: State, events: seq<Event>): State {
    if events == [] then st
    else StepOf(cfg, After(cfg, st, events[..|events| - 1]), events[|events| - 1]).state
  }

  ghost function OutputsAt(cfg: Config, st: State, events: seq<Event>, i: nat): seq<Output>
    requires i < |events|
  {
    StepOf(cfg, After(cfg, st, events[..i]), events[i]).outputs
  }

  /** Everything published along the way. */
  ghost function Log(cfg: Config, st: State, events: seq<Event>): seq<Output> {
    if events == [] then []
    else Log(cfg, st, events[..|events| - 1]) + OutputsAt(cfg, st, events, |events| - 1)
  }

  lemma RunStep(cfg: Config, st: State, events: seq<Event>, event: Event)
    ensures After(cfg, st, events + [event]) == StepOf(cfg, After(cfg, st, events), event).state
    ensures Log(cfg, st, events + [event]) == Log(cfg, st, events) + StepOf(cfg, After(cfg, st, events), event).outputs
  {
    assert (events + [event])[..|events|] == events;
  }

  function MaxInt(a: int, b: int): int {
    if a < b then b else a
  }

  class RosccoTeleop {
    const cfg: Config
    var brake: real
    var throttle: real
    var steering: real
    var steeringAverage: real
    var armed: bool
    var enabled: bool
    var previousStart: int
    var previousBack: int
    var lastJoy: int
    var published: seq<Output>
    ghost var history: seq<Event>   // the callbacks so far

    ghost predicate Valid()
      reads this
    {
      Current() == After(cfg, INITIAL, history) && published == Log(cfg, INITIAL, history)
    }

    ghost function Current(): State
      reads this
    {
      State(brake, throttle, steering, steeringAverage, armed, enabled, previousStart, previousBack, lastJoy)
    }

    constructor (cfg: Config)
      ensures Valid() && this.cfg == cfg && Current() == INITIAL && published == [] && history == []
    {
      this.cfg := cfg;
      brake, throttle, steering, steeringAverage := 0.0, 0.0, 0.0, 0.0;
      armed, enabled, previousStart, previousBack, lastJoy := false, false, 0, 0, 0;
      published := [];
      history := [];
    }

    method JoyCallback(joy: Joy, now: int)
      requires Valid()
      modifies this
      ensures Valid() && history == old(history) + [JoyMessage(now, joy)]
      ensures var step := JoyStep(cfg, old(Current()), joy, now);
              Current() == step.state && published == old(published) + step.outputs
    {
      hide After, Log, BrakeTarget, ThrottleTarget, SteeringTarget;
      RunStep(cfg, INITIAL, history, JoyMessage(now, joy));
      history := history + [JoyMessage(now, joy)];
      var maxAxis := MaxInt(MaxInt(cfg.brakeAxis, cfg.throttleAxis), cfg.steeringAxis);
      var maxButton := MaxInt(cfg.startButton, cfg.backButton);
      if |joy.axes| <= maxAxis || |joy.buttons| <= maxButton {
        return;
      }

      lastJoy := now;
      if !armed {
        if joy.axes[cfg.brakeAxis] > PARKED_THRESHOLD && joy.axes[cfg.throttleAxis] > PARKED_THRESHOLD {
          armed := true;
        }
        return;
      }

      TakeInput(joy, now);
    }

    /** The rest of the callback, for an armed node whose heartbeat is up to date. */
    method TakeInput(joy: Joy, now: int)
      requires WellFormed(cfg, joy) && armed && lastJoy == now
      modifies this`brake, this`throttle, this`steering, this`enabled, this`published
      modifies this`previousStart, this`previousBack
      ensures var step := JoyStep(cfg, old(Current()), joy, now);
              Current() == step.state && published == old(published) + step.outputs
    {
      hide LinearTransform;
      brake := cfg.maxBrake * LinearTransform(joy.axes[cfg.brakeAxis], TRIGGER_MAX, TRIGGER_MIN, 1.0, 0.0);
      throttle := cfg.maxThrottle * LinearTransform(joy.axes[cfg.throttleAxis], TRIGGER_MAX, TRIGGER_MIN, 1.0, 0.0);
      steering := cfg.maxSteering * LinearTransform(joy.axes[cfg.steeringAxis], STICK_MAX, STICK_MIN, 1.0, -1.0);

      if previousBack == 0 && joy.buttons[cfg.backButton] != 0 {
        SetEnabled(false, now);
      } else if previousStart == 0 && joy.buttons[cfg.startButton] != 0 {
        SetEnabled(true, now);
      }

      previousBack := joy.buttons[cfg.backButton];
      previousStart := joy.buttons[cfg.startButton];
    }

    method SetEnabled(enable: bool, now: int)
      modifies this`enabled, this`published
      ensures enabled == enable && published == old(published) + [EnableDisable(now, enable)]
    {
      published := published + [EnableDisable(now, enable)];
      enabled := enable;
    }

    method PublishCommands(now: int)
      requires Valid()
      modifies this
      ensures Valid() && history == old(history) + [Tick(now)]
      ensures var step := TickStep(cfg, old(Current()), now);
              Current() == step.state && published == old(published) + step.outputs
    {
      hide After, Log, ExponentialAverage;
      RunStep(cfg, INITIAL, history, Tick(now));
      history := history + [Tick(now)];
      if enabled && lastJoy > 0 && (now - lastJoy) as real / NANOSECONDS > cfg.joyTimeout {
        brake, throttle, steering, steeringAverage := 0.0, 0.0, 0.0, 0.0;
        armed := false;
        SetEnabled(false, now);
      }

      if !enabled {
        return;
      }

      steeringAverage := ExponentialAverage(steeringAverage, steering, cfg.smoothing);
      published := published + [Command(now, brake, throttle, steeringAverage)];
    }
  }
}
