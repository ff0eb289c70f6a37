/** OSCC reports as the callbacks receive them, and the messages published from them. */
module Reports {
  import opened CanSignal

  datatype Timespec = Timespec(sec: int, nsec: nat)

  datatype Stamped<T> = Stamped(data: T, stamp: Timespec)

  /** Brake, steering and throttle reports have the same fields. */
  datatype ModuleReport = ModuleReport(
    magic0: Byte, magic1: Byte,
    enabled: Byte, operatorOverride: Byte, dtcs: Byte,
    reserved0: Byte, reserved1: Byte, reserved2: Byte)

  datatype FaultReport = FaultReport(magic0: Byte, magic1: Byte, faultOriginId: bv32, dtcs: Byte, reserved: Byte)

  datatype CanFrame = CanFrame(canId: bv32, dlc: Byte, data: Payload)

  /** A published message: its data and its header stamp in nanoseconds. */
  datatype Message<T> = Message(data: T, stamp: int)

  function ToInt32(x: int): int {
    (x + 0x8000_0000) % 0x1_0000_0000 - 0x8000_0000
  }

  function ToUint32(x: int): nat {
    x % 0x1_0000_0000
  }

  function ToRosTime(ts: Timespec): int {
    ToInt32(ts.sec) * 1_000_000_000 + ToUint32(ts.nsec)
  }

  /** The rclcpp::Time constructor throws for negative seconds, as the cast leaves them. */
  predicate TimeThrows(ts: Timespec) {
    ToInt32(ts.sec) < 0
  }

  /** The casts in toRosTime lose nothing exactly while the seconds fit 32 bits; of those, it
      throws for the ones before 1970. Past 2038 the wrapped seconds are first negative, so it
      throws, and past 2106 it returns a wrong time (clock_gettime returns fewer than 10^9
      nanoseconds). */
  lemma StampExactIff(ts: Timespec)
    requires ts.nsec < 1_000_000_000
    ensures ToRosTime(ts) == ts.sec * 1_000_000_000 + ts.nsec <==> -0x8000_0000 <= ts.sec < 0x8000_0000
    ensures !TimeThrows(ts) && ToRosTime(ts) == ts.sec * 1_000_000_000 + ts.nsec <==> 0 <= ts.sec < 0x8000_0000
    ensures -0x8000_0000 <= ts.sec < 0 || 0x8000_0000 <= ts.sec < 0x1_0000_0000 ==> TimeThrows(ts)
    ensures 0x1_0000_0000 <= ts.sec < 0x1_8000_0000 ==>
      !TimeThrows(ts) && ToRosTime(ts) == (ts.sec - 0x1_0000_0000) * 1_000_000_000 + ts.nsec
  {
    assert ToUint32(ts.nsec) == ts.nsec;
  }

  /** How many of the items go out before one whose stamp makes the constructor throw. */
  ghost function Timely<T>(items: seq<Stamped<T>>): (k: nat)
    ensures k <= |items|
    ensures forall i :: 0 <= i < k ==> !TimeThrows(items[i].stamp)
    ensures k < |items| ==> TimeThrows(items[k].stamp)
  {
    if items == [] || TimeThrows(items[0].stamp) then 0 else 1 + Timely(items[1..])
  }

  /** The items that are left then: the one that throws has been popped and is lost. */
  ghost function Untouched<T>(items: seq<Stamped<T>>): seq<Stamped<T>> {
    if Timely(items) == |items| then [] else items[Timely(items) + 1..]
  }

  ghost predicate AllTimely<T>(items: seq<Stamped<T>>) {
    Timely(items) == |items|
  }

  function ModuleMessage(item: Stamped<ModuleReport>): (m: Message<ModuleReport>)
    ensures m == Message(item.data, ToRosTime(item.stamp))
  {
    var d := item.data;
    Message(
      ModuleReport(d.magic0, d.magic1, d.enabled, d.operatorOverride, d.dtcs, d.reserved0, d.reserved1, d.reserved2),
      ToRosTime(item.stamp))
  }

  function FaultMessage(item: Stamped<FaultReport>): (m: Message<FaultReport>)
    ensures m == Message(item.data, ToRosTime(item.stamp))
  {
    var d := item.data;
    Message(FaultReport(d.magic0, d.magic1, d.faultOriginId, d.dtcs, d.reserved), ToRosTime(item.stamp))
  }

  function FrameMessage(item: Stamped<CanFrame>): (m: Message<CanFrame>)
    ensures m == Message(item.data, ToRosTime(item.stamp))
  {
    Message(CanFrame(item.data.canId, item.data.dlc, item.data.data), ToRosTime(item.stamp))
  }

  function Map<A, B>(f: A -> B, items: seq<A>): (r: seq<B>)
    ensures |r| == |items|
    ensures forall i :: 0 <= i < |r| ==> r[i] == f(items[i])
  {
    seq(|items|, i requires 0 <= i < |items| => f(items[i]))
  }
}
