/**
  RosToOscc: every actuator command is clamped to its configured limits on the way to
  OSCC, whatever was published; composed with teleop, in-range commands pass unchanged.
*/
module CommandLimiter {
  import opened Teleop
  import opened TeleopRuns

  /** A double that arrives in a message. */
  datatype Double = Finite(value: real) | NaN | PosInfinity | NegInfinity

  datatype Limits = Limits(
    brakeMin: real, brakeMax: real, throttleMin: real, throttleMax: real, steeringMin: real, steeringMax: real)
  {
    /** The ranges the limits are declared with. */
    ghost predicate InRange() {
      && 0.0 <= brakeMin <= 1.0 && 0.0 <= brakeMax <= 1.0
      && 0.0 <= throttleMin <= 1.0 && 0.0 <= throttleMax <= 1.0
      && -1.0 <= steeringMin <= 0.0 && 0.0 <= steeringMax <= 1.0
    }

    /** What std::clamp asks of its bounds. */
    ghost predicate Ordered() {
      brakeMin <= brakeMax && throttleMin <= throttleMax && steeringMin <= steeringMax
    }
  }

  /** The declared ranges include their ends, and a minimum may equal its maximum. */
  lemma LimitsIncludeEnds()
    ensures Limits(0.0, 0.0, 0.0, 0.0, 0.0, 0.0).InRange() && Limits(0.0, 0.0, 0.0, 0.0, 0.0, 0.0).Ordered()
    ensures Limits(1.0, 1.0, 1.0, 1.0, -1.0, 1.0).InRange() && Limits(1.0, 1.0, 1.0, 1.0, -1.0, 1.0).Ordered()
  {}

  datatype OsccResult = OsccOk | OsccError | OsccWarning

  datatype OsccCall = Brake(value: real) | Steering(value: real) | Throttle(value: real) | Enable | Disable

  datatype Input =
    | BrakeIn(position: Double)
    | SteeringIn(torque: Double)
    | ThrottleIn(position: Double)
    | ModeIn(enable: bool)

  function Distance(a: real, b: real): real {
    if a < b then b - a else a - b
  }

  function StdClamp(value: real, lo: real, hi: real): (r: real)
    requires lo <= hi
    ensures lo <= r <= hi
    // the nearest value within the bounds
    ensures forall x :: lo <= x <= hi ==> Distance(r, value) <= Distance(x, value)
  {
    if value < lo then lo else if hi < value then hi else value
  }

  function Clamp(value: Double, lo: real, hi: real): (r: real)
    requires lo <= hi
    ensures lo <= r <= hi
    ensures value.Finite? && lo <= value.value <= hi ==> r == value.value
    // the nearest value within the bounds to the command, or to 0 if it is not finite
    ensures value.Finite? ==> forall x :: lo <= x <= hi ==> Distance(r, value.value) <= Distance(x, value.value)
    ensures !value.Finite? ==> forall x :: lo <= x <= hi ==> Distance(r, 0.0) <= Distance(x, 0.0)
  {
    if !value.Finite? then StdClamp(0.0, lo, hi) else StdClamp(value.value, lo, hi)
  }

  ghost function CallFor(limits: Limits, input: Input): OsccCall
    requires limits.Ordered()
  {
    match input
    case BrakeIn(p) => Brake(Clamp(p, limits.brakeMin, limits.brakeMax))
    case SteeringIn(t) => Steering(Clamp(t, limits.steeringMin, limits.steeringMax))
    case ThrottleIn(p) => Throttle(Clamp(p, limits.throttleMin, limits.throttleMax))
    case ModeIn(enable) => if enable then Enable else Disable
  }

  method Report(result: OsccResult) returns (ok: bool)
    ensures ok <==> result != OsccError && result != OsccWarning
  {
    if result == OsccError {
      return false;
    }
    if result == OsccWarning {
      return false;
    }
    return true;
  }

  class RosToOscc {
    const limits: Limits
    var sent: seq<OsccCall>       // calls made to the OSCC API
    ghost var received: seq<Input>

    ghost predicate Valid()
      reads this
    {
      && limits.InRange() && limits.Ordered()
      && |sent| == |received|
      && forall i :: 0 <= i < |sent| ==> sent[i] == CallFor(limits, received[i])
    }

    constructor (limits: Limits)
      requires limits.InRange() && limits.Ordered()
      ensures Valid() && this.limits == limits && sent == [] && received == []
    {
      this.limits := limits;
      sent, received := [], [];
    }

    method BrakeCommandCallback(position: Double, result: OsccResult) returns (ok: bool)
      requires Valid()
      modifies this
      ensures Valid() && received == old(received) + [BrakeIn(position)] && (ok <==> result.OsccOk?)
    {
      var value := Clamp(position, limits.brakeMin, limits.brakeMax);
      sent, received := sent + [Brake(value)], received + [BrakeIn(position)];
      ok := Report(result);
    }

    method SteeringCommandCallback(torque: Double, result: OsccResult) returns (ok: bool)
      requires Valid()
      modifies this
      ensures Valid() && received == old(received) + [SteeringIn(torque)] && (ok <==> result.OsccOk?)
    {
      var value := Clamp(torque, limits.steeringMin, limits.steeringMax);
      sent, received := sent + [Steering(value)], received + [SteeringIn(torque)];
      ok := Report(result);
    }

    method ThrottleCommandCallback(position: Double, result: OsccResult) returns (ok: bool)
      requires Valid()
      modifies this
      ensures Valid() && received == old(received) + [ThrottleIn(position)] && (ok <==> result.OsccOk?)
    {
      var value := Clamp(position, limits.throttleMin, limits.throttleMax);
      sent, received := sent + [Throttle(value)], received + [ThrottleIn(position)];
      ok := Report(result);
    }

    method EnableDisableCallback(enable: bool, result: OsccResult) returns (confirmed: bool)
      requires Valid()
      modifies this
      ensures Valid() && received == old(received) + [ModeIn(enable)] && (confirmed <==> result.OsccOk?)
    {
      sent, received := sent + [if enable then Enable else Disable], received + [ModeIn(enable)];
      confirmed := Report(result);
    }
  }

  // ---------- actuator authority ----------

  /** Within the configured limits, and so within what the actuator accepts. */
  ghost predicate Authorized(limits: Limits, call: OsccCall) {
    match call
    case Brake(v) => limits.brakeMin <= v <= limits.brakeMax && 0.0 <= v <= 1.0
    case Throttle(v) => limits.throttleMin <= v <= limits.throttleMax && 0.0 <= v <= 1.0
    case Steering(v) => limits.steeringMin <= v <= limits.steeringMax && -1.0 <= v <= 1.0
    case Enable => true
    case Disable => true
  }

  /** Any input at all, NaN and infinities included, reaches OSCC within the limits; a
      non-finite steering command as exactly 0, a non-finite brake or throttle command as
      its lower limit. */
  lemma EveryCallAuthorized(limits: Limits, input: Input)
    requires limits.InRange() && limits.Ordered()
    ensures Authorized(limits, CallFor(limits, input))
    ensures input.BrakeIn? && !input.position.Finite? ==> CallFor(limits, input) == Brake(limits.brakeMin)
    ensures input.ThrottleIn? && !input.position.Finite? ==> CallFor(limits, input) == Throttle(limits.throttleMin)
    ensures input.SteeringIn? && !input.torque.Finite? ==> CallFor(limits, input) == Steering(0.0)
  {}

  /** So does everything a bridge ever sends: one call per message, each within the limits. */
  lemma EverySentAuthorized(bridge: RosToOscc)
    requires bridge.Valid()
    ensures |bridge.sent| == |bridge.received|
    ensures forall i :: 0 <= i < |bridge.sent| ==> Authorized(bridge.limits, bridge.sent[i])
  {
    forall i | 0 <= i < |bridge.sent|
      ensures Authorized(bridge.limits, bridge.sent[i])
    {
      EveryCallAuthorized(bridge.limits, bridge.received[i]);
    }
  }

  /** A finite command beyond a limit is sent as that limit, one within them as it is, and a
      mode change as what it says. */
  lemma FiniteCalls(limits: Limits, x: real)
    requires limits.InRange() && limits.Ordered()
    ensures CallFor(limits, BrakeIn(Finite(x))) ==
      Brake(if x < limits.brakeMin then limits.brakeMin else if limits.brakeMax < x then limits.brakeMax else x)
    ensures CallFor(limits, ThrottleIn(Finite(x))) ==
      Throttle(
        if x < limits.throttleMin then limits.throttleMin else if limits.throttleMax < x then limits.throttleMax else x)
    ensures CallFor(limits, SteeringIn(Finite(x))) ==
      Steering(
        if x < limits.steeringMin then limits.steeringMin else if limits.steeringMax < x then limits.steeringMax else x)
    ensures CallFor(limits, ModeIn(true)) == Enable && CallFor(limits, ModeIn(false)) == Disable
  {}

  /** Whatever teleop publishes in any joy run reaches OSCC within the limits, and unchanged
      when the axes stay in [-1, 1] and the limits leave room for teleop's own maxima. */
  lemma TeleopAuthority(limits: Limits, cfg: Config, events: seq<Event>, command: Output)
    requires limits.InRange() && limits.Ordered() && cfg.InRange()
    requires command.Command? && command in Log(cfg, INITIAL, events)
    ensures Authorized(limits, CallFor(limits, BrakeIn(Finite(command.brake))))
    ensures Authorized(limits, CallFor(limits, ThrottleIn(Finite(command.throttle))))
    ensures Authorized(limits, CallFor(limits, SteeringIn(Finite(command.steering))))
    ensures
      && limits.brakeMin == limits.throttleMin == 0.0
      && cfg.maxBrake <= limits.brakeMax && cfg.maxThrottle <= limits.throttleMax
      && limits.steeringMin <= -cfg.maxSteering && cfg.maxSteering <= limits.steeringMax
      && (forall i :: 0 <= i < |events| ==> AxesInRange(cfg, events[i]))
      ==>
      && CallFor(limits, BrakeIn(Finite(command.brake))) == Brake(command.brake)
      && CallFor(limits, ThrottleIn(Finite(command.throttle))) == Throttle(command.throttle)
      && CallFor(limits, SteeringIn(Finite(command.steering))) == Steering(command.steering)
  {
    EveryCallAuthorized(limits, BrakeIn(Finite(command.brake)));
    EveryCallAuthorized(limits, ThrottleIn(Finite(command.throttle)));
    EveryCallAuthorized(limits, SteeringIn(Finite(command.steering)));
    if forall i :: 0 <= i < |events| ==> AxesInRange(cfg, events[i]) {
      CommandsInBounds(cfg, events, command);
    }
  }

  /** Over a run, the newest mode call OSCC got from teleop's messages says whether teleop is
      enabled; before the first, it is not. */
  lemma ModeReachesOscc(limits: Limits, cfg: Config, events: seq<Event>)
    requires limits.InRange() && limits.Ordered()
    ensures var modes := Modes(Log(cfg, INITIAL, events));
            if modes == [] then !After(cfg, INITIAL, events).enabled
            else CallFor(limits, ModeIn(modes[|modes| - 1])) ==
                   if After(cfg, INITIAL, events).enabled then Enable else Disable
  {
    NewestModeIsState(cfg, INITIAL, events);
    FiniteCalls(limits, 0.0);
  }
}
