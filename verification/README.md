# ROSCCO bridge: a verified model

This project models the logic of the ROSCCO bridge between OSCC drive-by-wire modules and
ROS 2, and proves what that logic guarantees. `dafny verify dfyconfig.toml` checks the whole
project.

| file | what it models |
|---|---|
| `spsc_ring.dfy` | the lock-free ring as a machine over single atomic steps: every interleaving of one producer and one consumer, every load the C++ memory model allows (ISO C++17, sections 32.4 and 4.7.1) |
| `signal_queue.dfy`, `bounded_fifo.dfy` | the same ring as a class on an array, for calls that are not interrupted; the FIFO both are proved against |
| `report_pipeline.dfy` | five rings, the shared drop counter, callbacks and the drain, interleaved step by step |
| `pipeline_progress.dfy` | what a callback and a drain of that machine can always do; the queues' capacities |
| `pipeline_feedback.dfy` | the messages and the OBD decoder's reports that leave the bridge in any interleaving |
| `reports.dfy`, `options.dfy`, `oscc_to_ros.dfy` | report and message types; the class with the callbacks and `drain` |
| `integer_facts.dfy`, `bit_words.dfy` | division by variables; binary numbers and 64-bit words |
| `can_signal.dfy`, `can_signal_laws.dfy` | the CAN signal decoder, and the laws of the values it returns |
| `obd_feedback.dfy` | steering-angle and brake-pedal reports from the frame sequence |
| `teleop.dfy`, `teleop_runs.dfy` | the gamepad node: its callbacks, and safety over all runs |
| `command_limiter.dfy`, `pid_control.dfy` | the command limits, composed with teleop; the anti-windup PID |

How the main results are built:

- **Ring.** A cursor is the sequence of all values stored to it, each with the view its
  release store publishes. A load may return any value not older than the newest one its
  thread knows; a slot read may return any write not hidden by a known later one. From these
  rules alone the machine is shown to be free of data races, to read exactly the payload of
  the oldest item, and to refine a FIFO of capacity N - 1 for every N >= 2.
- **Decoder.** `DecodeRaw` runs the two loops and the sign extension; it is proved equal to
  `RawValue`, the two's complement number of the bits in the signal's window, for every spec
  in the declared parameter ranges, every payload and every dlc. The laws are then theorems
  about `RawValue`.
- **Teleop.** The class keeps the history of its callbacks, and its state and output are
  proved to be the fold of the step functions over that history; the run theorems quantify
  over all histories.

Findings, where code and stated intent differ; the model follows the code:

- `fitsIn` promises that a signal "can actually be read out of a frame"
  (include/roscco/obd_feedback.hpp:44). For Motorola it ignores how low the start bit lies in
  its byte. `FitsSufficesIff` gives the exact condition under which it suffices for a frame,
  `FitsAlwaysSufficesIff` that for a configuration,
  `OverAcceptedWitness` a frame for which it does not: a signed byte decoded from one bit.
- A full queue refuses the incoming sample; the comment at
  include/roscco/signal_queue.hpp:53 speaks of the oldest.
- A push can be refused although items have been popped meanwhile, when its load of the tail
  is stale: `RejectedExactly` says when, `StaleRejection` reaches such a state.
- The start-up hint is to arm the triggers and then press START
  (example/roscco_teleop.cpp:100). START held since before arming enables on the next
  message: `HeldStartEnables` gives the exact condition, in which the message that arms has no
  part. Edges are relative to the last message processed while armed (`RememberedButtons`),
  and `EnabledIff` says after which runs control is enabled.
- Header stamps keep the arrival instant while the seconds are not negative and fit 32 signed
  bits; `StampExactIff` says so, when `rclcpp::Time` throws instead, and when the stamp is wrong.
  Such an exception loses the item just popped and ends the drain (`Drained`).

## Model

| member | source | states |
|---|---|---|
| SpscRing.PopsArePrefix | include/roscco/signal_queue.hpp:47-73 | in every reachable state the popped values are a prefix of the accepted ones, at most N - 1 behind |
| SpscRing.Refinement | include/roscco/signal_queue.hpp:47-73 | every run of atomic steps with every allowed load is a run of a FIFO of capacity N - 1, linearised at the head and tail stores |
| BoundedFifo.RunIsFifo | include/roscco/signal_queue.hpp:47-73 | in any run of that FIFO what was there followed by what is enqueued is what is dequeued followed by what is left, and the capacity holds |
| SpscRing.EventsAreItems | include/roscco/signal_queue.hpp:47-73 | the run's enqueue and dequeue events are the values it accepts and pops |
| SpscRing.StepRefines | include/roscco/signal_queue.hpp:47-73 | one step enqueues at the head store, dequeues the oldest value at the tail store, and otherwise leaves the queue alone |
| SpscRing.ReachableInv | include/roscco/signal_queue.hpp:47-78 | every state reached from the empty ring satisfies the invariant that the rows below start from |
| SpscRing.InvPreserved | include/roscco/signal_queue.hpp:49-72 | the k-th cursor store wrote k mod N, 0 <= H - T <= N - 1, and views carry slot accesses along with cursors, across every step |
| SpscRing.SlotExclusive | include/roscco/signal_queue.hpp:49-71 | between the full check and the head store, the producer's slot holds no unread item and is not the slot being copied |
| SpscRing.RaceFree | include/roscco/signal_queue.hpp:52-71 | every slot access happens after the other thread's conflicting accesses |
| SpscRing.PayloadVisible | include/roscco/signal_queue.hpp:64-71 | the consumer's slot read has one possible result, the payload stored with the oldest queued item |
| SpscRing.OwnCursorIsCurrent | include/roscco/signal_queue.hpp:49-64 | a relaxed load of a thread's own cursor returns its own newest store |
| SpscRing.RejectedExactly | include/roscco/signal_queue.hpp:52-54 | push fails exactly when N - 1 items are not known to be released; with a current load, exactly when N - 1 are queued |
| SpscRing.EmptyExactly | include/roscco/signal_queue.hpp:66-68 | pop fails exactly when no item is known to be stored; with a current load, exactly when none is queued |
| SpscRing.UninterruptedPush | include/roscco/signal_queue.hpp:47-59 | the steps of a push without interference append, or refuse the incoming value when full |
| SpscRing.UninterruptedPop | include/roscco/signal_queue.hpp:62-73 | the steps of a pop without interference take the oldest item, or leave an empty queue |
| SpscRing.StaleRejection | include/roscco/signal_queue.hpp:52-54 | a reachable state in which a stale load makes an empty queue refuse a push |
| SpscRing.StaleEmptiness | include/roscco/signal_queue.hpp:66-68 | a reachable state in which a stale load makes a pop miss a queued item |
| SpscRing.AcquireNeeded | include/roscco/signal_queue.hpp:66-70 | without what the acquire load learns, the slot read could return the slot's initial value and would race |
| SpscRing.ProducerAcquireNeeded | include/roscco/signal_queue.hpp:52-56 | without what its acquire load learns, the producer's slot write would race |
| SignalQueues.SignalQueue.constructor | include/roscco/signal_queue.hpp:76-78 | an empty queue with both cursors at 0 |
| SignalQueues.SignalQueue.Push | include/roscco/signal_queue.hpp:47-59 | appends in place, or refuses the incoming value and keeps the contents; reports which |
| SignalQueues.SignalQueue.Pop | include/roscco/signal_queue.hpp:62-73 | takes the oldest item in place, or leaves the out-parameter and an empty queue as they are |
| ReportPipeline.Conservation | src/oscc_to_ros.cpp:20-34 | over any interleaving, the reports handed to the callbacks by the steps of the run = published + queued + in flight + dropped, summed over the five queues sharing one counter |
| ReportPipeline.TopicOrder | src/oscc_to_ros.cpp:143-210 | on each topic published, then held, then queued is exactly the accepted ones of the reports the run handed to its callback, in order, unchanged |
| ReportPipeline.OfferedRun | src/oscc_to_ros.cpp:20-31 | every non-null report a callback is handed is offered to its topic, in order and none besides |
| ReportPipeline.VerdictExactly | src/oscc_to_ros.cpp:31-33 | a report is accepted exactly at its head store and refused exactly at a load of the tail after which size - 1 items are not known to be released |
| ReportPipeline.PipelinePreserved | src/oscc_to_ros.cpp:118-210 | every atomic step of any callback or of the drain keeps the per-channel accounts and the shared counter in agreement |
| ReportPipeline.ChannelBalance | src/oscc_to_ros.cpp:20-34 | one channel's account: offered = published + held + queued + in the callback + counted drops |
| ReportPipeline.DrainBounded | src/oscc_to_ros.cpp:143-210 | from any state, a drain takes at most its remaining work plus six steps per report arriving meanwhile |
| ReportPipeline.WorkAtStart | src/oscc_to_ros.cpp:143-210 | the work of a starting drain is six steps per queued item plus three per queue |
| ReportPipeline.WholeDrainBounded | src/oscc_to_ros.cpp:143-210 | one whole drain takes at most six steps per item queued at its start or arriving meanwhile, plus three per queue |
| ReportPipeline.DrainEnds | src/oscc_to_ros.cpp:143-210 | whatever arrives and whatever loads return, a drain that has not ended can take a step of its own and has taken fewer than that bound |
| ReportPipeline.DrainFinishes | src/oscc_to_ros.cpp:143-210 | left to itself a drain ends within its remaining work, with every queue before it empty and all that was accepted published |
| ReportPipeline.RingsStaySafe | src/oscc_to_ros.cpp:118-210 | in every interleaved run each ring is race-free, read only at its oldest item and written only in a free slot |
| ReportPipeline.DrainNeverStuck | src/oscc_to_ros.cpp:143-210 | a running drain always has an enabled step of its own |
| PipelineProgress.CallbackTakesIn | src/oscc_to_ros.cpp:20-34 | in any state of the other callbacks and the drain, a callback that runs to its end queues its report behind the others, or finds the ring full and counts one drop |
| PipelineProgress.Capacities | include/roscco/oscc_to_ros.hpp:75-79 | in every run the four report queues hold at most 63 reports and the frame queue 255, and with a current load refuse exactly then |
| PipelineProgress.ArrivalsAreAccepted | src/oscc_to_ros.cpp:20-34 | the arrivals that the drain's bounds count are the reports accepted during the run |
| PipelineProgress.DrainEmptiesAll | src/oscc_to_ros.cpp:143-210 | a drain left to itself runs from its start to its end and leaves all queues empty, all accepted reports published |
| PipelineFeedback.TopicMessages | src/oscc_to_ros.cpp:143-210 | in every run the messages on a topic are the conversions of the first accepted ones of the reports the run handed to its callback, in order |
| PipelineFeedback.FeedbackRefines | src/oscc_to_ros.cpp:195-210 | in every interleaved run the decoder's reports are the filter-maps of the published frames, and a prefix of what all accepted ones of the frames handed to the callback decode to |
| Reports.StampExactIff | src/oscc_to_ros.cpp:36-42 | the stamp is exact and no exception is thrown if and only if 0 <= seconds < 2^31; the casts alone also keep the 2^31 seconds below zero; where the constructor throws up to 2^32, and what wrong stamp follows from there |
| Reports.ModuleMessage | src/oscc_to_ros.cpp:52-63 | the field-by-field copy is the identity on every field, under the converted stamp |
| Reports.FaultMessage | src/oscc_to_ros.cpp:178-184 | the same for fault reports |
| Reports.FrameMessage | src/oscc_to_ros.cpp:198-204 | the same for CAN frames |
| OsccToRosBridge.OsccToRos.constructor | src/oscc_to_ros.cpp:67-106 | takes over the static queues, starts with nothing published and a decoder for the declared specs as checked |
| OsccToRosBridge.Enqueue | src/oscc_to_ros.cpp:20-34 | null changes nothing; any other report is stamped and queued, or refused and counted |
| OsccToRosBridge.TakenAccounts | src/oscc_to_ros.cpp:20-34 | queued plus dropped grow by one per report and by none for null; a drop is counted exactly when the queue is full |
| OsccToRosBridge.OsccToRos.BrakeCallback | src/oscc_to_ros.cpp:118-121 | enqueues to the brake queue, leaving the other queues alone |
| OsccToRosBridge.OsccToRos.SteeringCallback | src/oscc_to_ros.cpp:123-126 | enqueues to the steering queue |
| OsccToRosBridge.OsccToRos.ThrottleCallback | src/oscc_to_ros.cpp:128-131 | enqueues to the throttle queue |
| OsccToRosBridge.OsccToRos.FaultCallback | src/oscc_to_ros.cpp:133-136 | enqueues to the fault queue |
| OsccToRosBridge.OsccToRos.ObdCallback | src/oscc_to_ros.cpp:138-141 | enqueues to the OBD queue |
| OsccToRosBridge.DrainQueue | src/oscc_to_ros.cpp:145-153 | a pop loop publishes the queued items in order, at most N - 1 of them, and leaves the queue empty; a stamp that throws ends it, loses its item and leaves those behind it |
| OsccToRosBridge.DrainedAll | src/oscc_to_ros.cpp:145-153 | with every stamp in range all items go out and the queue is left empty |
| OsccToRosBridge.DrainedParts | src/oscc_to_ros.cpp:145-153 | the items divide into those sent, at most one lost to the exception, and those left |
| OsccToRosBridge.DrainObd | src/oscc_to_ros.cpp:195-210 | the same for frames, each published and then decoded, in order |
| OsccToRosBridge.OsccToRos.Drain | src/oscc_to_ros.cpp:143-222 | the queues emptied in turn onto their topics; the first stamp that throws skips the rest; decoder reports a filter-map of the published frames; staleness and drop warnings as due when no stamp throws |
| BitWords.ShlIsProduct | src/obd_feedback.cpp:50-63 | the model's left shift is multiplication by 2^n modulo 2^64, as C++ defines it |
| BitWords.ShrIsQuotient | src/obd_feedback.cpp:54-63 | the model's right shift is division by 2^n |
| CanSignal.Usable | src/obd_feedback.cpp:44 | the smaller of dlc and 8 |
| CanSignal.DecodeRaw | src/obd_feedback.cpp:42-77 | returns the window's number in two's complement, for both byte orders, every payload and every dlc |
| CanSignal.PackBytes | src/obd_feedback.cpp:48-51 | the OR loop places byte i at bits 8i to 8i + 7 |
| CanSignal.DecodeIntel | src/obd_feedback.cpp:47-54 | shift and mask keep exactly the window's bits |
| CanSignal.DecodeMotorola | src/obd_feedback.cpp:56-66 | the walk visits network-order positions k0, k0 + 1, ... and stops after min(L, max(0, 8n - k0)) bits, first bit most significant |
| CanSignal.ReadBit | src/obd_feedback.cpp:58-65 | one round of the walk: the next bit in network order is appended below the earlier ones |
| CanSignal.SignExtend | src/obd_feedback.cpp:69-76 | OR-mask extension and the signed cast give u or u - 2^L by the top bit |
| CanSignalLaws.FitsExactly | src/obd_feedback.cpp:23-40 | fitsIn holds exactly for complete windows and the over-accepted ones, which miss at most 7 - start % 8 bits |
| CanSignalLaws.IntelFitsIff | src/obd_feedback.cpp:25-33 | an Intel signal fits exactly when start + L is at most 8 dlc and at most 64 |
| CanSignalLaws.MotorolaFitsIff | src/obd_feedback.cpp:34-39 | a Motorola signal fits exactly when as many bytes as L bits fill, counted from the start bit's byte, lie within dlc and within eight |
| CanSignalLaws.FitsSufficesIff | src/obd_feedback.cpp:34-39 | fitsIn implies a complete walk if and only if Intel, or the last byte is not reached, or (L - 1) % 8 <= start % 8 |
| CanSignalLaws.FitsAlwaysSufficesIff | src/obd_feedback.cpp:23-40 | every frame that fits is complete if and only if Intel, or (L - 1) % 8 <= start % 8, or the window cannot end with a frame |
| CanSignalLaws.FitsMonotone | src/obd_feedback.cpp:23-40 | a longer frame keeps a signal that fits |
| CanSignalLaws.TruncatedWindow | src/obd_feedback.cpp:58-61 | a walk cut short yields the high-order bits: the longer frame's number divided by a power of two |
| CanSignalLaws.OverAcceptedValue | src/obd_feedback.cpp:69-76 | an incomplete walk is never sign-extended |
| CanSignalLaws.OverAcceptedWitness | src/obd_feedback.cpp:34-39 | a concrete spec and frame that fits but decodes one bit of eight |
| CanSignalLaws.PackedIsSum | src/obd_feedback.cpp:48-51 | the packed word is the little-endian byte sum |
| CanSignalLaws.IntelNumber | src/obd_feedback.cpp:48-54 | the Intel value is floor(sum / 2^start) mod 2^L, also when the window runs past the payload |
| CanSignalLaws.MotorolaNumber | src/obd_feedback.cpp:56-66 | the Motorola value is the big-endian byte sum, divided and reduced to the bits reached, also when the walk breaks off early |
| CanSignalLaws.RawRange | src/obd_feedback.cpp:69-76 | raw values lie in the signal's range and are negative exactly when signed with the top bit set |
| CanSignalLaws.SignednessIrrelevant | src/obd_feedback.cpp:69-76 | is_signed makes no difference at 64 bits |
| CanSignalLaws.ScaledAffine | include/roscco/obd_feedback.hpp:39-42 | raw 0 scales to the offset, and each raw step to one scale |
| CanSignalLaws.Locality | src/obd_feedback.cpp:42-77 | only the window's bits matter, neither the rest of the payload nor dlc |
| CanSignalLaws.Duality | src/obd_feedback.cpp:47-67 | decoding in one byte order equals decoding the dual spec on mirrored bytes in the other, from either side |
| CanSignalLaws.RoundTrip | src/obd_feedback.cpp:42-77 | decoding an encoded representable value returns it, other bits untouched, in both byte orders |
| CanSignalLaws.Restore | src/obd_feedback.cpp:42-77 | re-encoding a decoded value restores the payload |
| ObdFeedbacks.PlainId | src/obd_feedback.cpp:15-19 | keeps 29 identifier bits of extended frames and 11 of standard ones, and no flag |
| ObdFeedbacks.ObdFeedback.constructor | src/obd_feedback.cpp:171-195 | switches off a signal that cannot fit eight bytes |
| ObdFeedbacks.Checked | src/obd_feedback.cpp:171-195 | enabled afterwards implies enabled before and fitting eight bytes |
| ObdFeedbacks.ObdFeedback.Process | src/obd_feedback.cpp:202-253 | both report sequences stay the filter-map of the frames, both last stamps those of the newest decoded frames |
| ObdFeedbacks.ObdFeedback.ProcessSteering | src/obd_feedback.cpp:206-230 | a matching frame adds its scaled report with the range flag and moves the stamp; any other changes nothing |
| ObdFeedbacks.ObdFeedback.ProcessBrake | src/obd_feedback.cpp:232-252 | the same for the pedal, with the threshold sense inverted unless active high |
| ObdFeedbacks.ObdFeedback.CheckStaleness | src/obd_feedback.cpp:255-274 | a warning is due exactly when the newest decoded frame is older than the timeout |
| ObdFeedbacks.ReportsAppend | src/obd_feedback.cpp:202-253 | reports of a frame sequence are those of its first part followed by those of its second |
| ObdFeedbacks.DecodedExactly | src/obd_feedback.cpp:206-233 | exactly the frames that match identifier and length are decoded, as often as they occur |
| ObdFeedbacks.SharedFrames | src/obd_feedback.cpp:206-252 | with equal identifiers and frames that fit both specs or neither, over any run the reports go in pairs with one stamp and the staleness timers agree |
| ObdFeedbacks.RawOfMatch | src/obd_feedback.cpp:207-211 | a published raw value is the whole window's in range, or an over-accepted frame's shorter unsigned number |
| ObdFeedbacks.EverySteeringReport | src/obd_feedback.cpp:206-230 | each report has its frame's stamp, identifier and raw value, the affine image of that raw value as angle, and in_range as the limits say |
| ObdFeedbacks.EveryBrakeReport | src/obd_feedback.cpp:232-252 | the same for the pedal, with pressed as threshold and sense say |
| ObdFeedbacks.SentAngleIsReported | src/obd_feedback.cpp:202-230 | a value encoded into a matching frame is reported as that raw value and its angle |
| ObdFeedbacks.SentPedalIsReported | src/obd_feedback.cpp:232-252 | the same for the pedal |
| ObdFeedbacks.StaleAfterDecoded | src/obd_feedback.cpp:255-274 | after a decoded frame a signal is stale exactly once the timeout has passed since its stamp |
| ObdFeedbacks.StaleOtherwise | src/obd_feedback.cpp:255-274 | other frames change nothing, and a signal never decoded is not stale |
| Teleop.RosccoTeleop.constructor | example/roscco_teleop.cpp:235-244 | starts disarmed, disabled and zeroed |
| Teleop.RosccoTeleop.JoyCallback | example/roscco_teleop.cpp:104-157 | takes the joy step; state and output stay the fold over the callback history |
| Teleop.RosccoTeleop.TakeInput | example/roscco_teleop.cpp:141-156 | the armed part of the callback takes the joy step |
| Teleop.RosccoTeleop.SetEnabled | example/roscco_teleop.cpp:159-168 | publishes the mode and sets it |
| Teleop.RosccoTeleop.PublishCommands | example/roscco_teleop.cpp:170-207 | takes the tick step; state and output stay the fold over the callback history |
| TeleopRuns.ProvenanceHolds | example/roscco_teleop.cpp:120-157 | enabled implies armed and a positive heartbeat, and setpoints that the axes of the newest well-formed message ask for |
| TeleopRuns.CommandsAreFresh | example/roscco_teleop.cpp:170-199 | every published command has a well-formed message within the timeout and its brake and throttle |
| TeleopRuns.QuietRun | example/roscco_teleop.cpp:170-187 | without messages, commands until the first expired tick, one disable at it, nothing after |
| TeleopRuns.WatchdogBound | example/roscco_teleop.cpp:170-187 | from any enabled state, a disable within timeout + P after the last message |
| TeleopRuns.WatchdogInRun | example/roscco_teleop.cpp:104-187 | the bound in any run of the node on any positive clock, with ticks at most P apart since its timer began |
| TeleopRuns.NoCommandBeforeStart | example/roscco_teleop.cpp:149-187 | from any disabled state, armed or not, no command before a message processed while armed has a START edge and no BACK edge |
| TeleopRuns.NothingAfterBack | example/roscco_teleop.cpp:149-187 | a BACK edge leaves the node armed and silent until such a message |
| TeleopRuns.NoCommandBeforeRearm | example/roscco_teleop.cpp:124-187 | after a disarm no command before one message re-arms and a later one has a START edge and no BACK edge |
| TeleopRuns.NoCommandFromStart | example/roscco_teleop.cpp:124-187 | the same for every run of the node from its start |
| TeleopRuns.SilentUntilRearmed | example/roscco_teleop.cpp:104-187 | in any such run: a disable within the bound, and whatever follows, no command after it before one message re-arms and a later one enables |
| TeleopRuns.OrdinaryRun | example/roscco_teleop.cpp:93-96 | a run on a wall clock with a regular timer meets the premises of the watchdog bound |
| TeleopRuns.RememberedButtons | example/roscco_teleop.cpp:149-156 | edges are relative to the last message processed while armed |
| TeleopRuns.EnabledIff | example/roscco_teleop.cpp:149-187 | after any run control is enabled if and only if some message enabled it and since then neither a BACK edge nor an expired tick has come |
| TeleopRuns.NewestModeIsState | example/roscco_teleop.cpp:149-168 | after any run the newest mode message carries whether control is enabled; without one control is as it was |
| TeleopRuns.ModeMessages | example/roscco_teleop.cpp:149-182 | an enable goes out exactly at an enabling message, a disable exactly at a BACK edge or an expired tick of an enabled node, under its time |
| TeleopRuns.HeldStartEnables | example/roscco_teleop.cpp:124-153 | from any disarmed, disabled state, the exact condition under which the message after the arming one enables; whether START was already down when arming plays no part |
| TeleopRuns.StateInBounds | example/roscco_teleop.cpp:141-147 | with axes in [-1, 1] every reachable setpoint and the steering average stay within the maxima |
| TeleopRuns.CommandsInBounds | example/roscco_teleop.cpp:189-206 | so does every published command |
| TeleopRuns.SteeringConverges | example/roscco_teleop.cpp:19-22 | for a held stick, n ticks scale the steering error by (1 - f)^n |
| TeleopRuns.TorqueIsAverage | example/roscco_teleop.cpp:201-206 | the torque sent is the average after its tick |
| TeleopRuns.TorqueConverges | example/roscco_teleop.cpp:189-206 | with the stick held every tick sends a torque, and after n ticks it differs from the target by (1 - f)^n times the first error |
| TeleopRuns.AverageMoves | example/roscco_teleop.cpp:170-206 | the average moves only at a tick that sends it, and is cleared by the watchdog |
| TeleopRuns.SteeringErrorShrinks | example/roscco_teleop.cpp:201 | the average approaches a held target from one side and never moves away |
| CommandLimiter.StdClamp | src/ros_to_oscc.cpp:94 | the nearest value within the bounds |
| CommandLimiter.Clamp | src/ros_to_oscc.cpp:86-104 | for every double, the value within the bounds nearest to it, or to 0 if it is not finite |
| CommandLimiter.RosToOscc.BrakeCommandCallback | src/ros_to_oscc.cpp:121-125 | sends the clamped brake position |
| CommandLimiter.RosToOscc.SteeringCommandCallback | src/ros_to_oscc.cpp:127-131 | sends the clamped steering torque |
| CommandLimiter.RosToOscc.ThrottleCommandCallback | src/ros_to_oscc.cpp:133-137 | sends the clamped throttle position |
| CommandLimiter.RosToOscc.EnableDisableCallback | src/ros_to_oscc.cpp:139-146 | sends the mode and confirms it only on success |
| CommandLimiter.Report | src/ros_to_oscc.cpp:106-119 | true for neither an error nor a warning |
| CommandLimiter.EveryCallAuthorized | src/ros_to_oscc.cpp:86-137 | NaN and infinities included, every call is within its limits; non-finite steering is 0, non-finite brake or throttle the lower limit |
| CommandLimiter.FiniteCalls | src/ros_to_oscc.cpp:94-146 | a finite command beyond a limit is sent as that limit, one within them unchanged, a mode change as what it says |
| CommandLimiter.EverySentAuthorized | src/ros_to_oscc.cpp:121-146 | after any run of callbacks there was one call per message, each within its limits |
| CommandLimiter.TeleopAuthority | example/roscco_teleop.cpp:142-147 | what any joy run publishes reaches OSCC within the limits, and unchanged when axes lie in [-1, 1] and the limits cover teleop's maxima |
| CommandLimiter.ModeReachesOscc | example/roscco_teleop.cpp:159-168 | over any teleop run the newest mode call to OSCC says whether teleop is enabled |
| PidControl.PidState.constructor | src/pid_control.cpp:3-8 | zero integral and previous error |
| PidControl.ClampIntegral | src/pid_control.cpp:21-28 | within [-i_max, i_max], unchanged inside, the nearer end outside |
| PidControl.Limited | src/pid_control.cpp:38-50 | within [min, max], unchanged inside, the nearer end outside |
| PidControl.UnlimitedTerms | src/pid_control.cpp:16-36 | each gain acts on the error, the integral or the error's increase, in its own direction |
| PidControl.PidController | src/pid_control.cpp:10-56 | new integral, saved error and limited output in terms of the old state; the integral stays the fold over the errors of all calls |
| PidControl.IntegralBounded | src/pid_control.cpp:19-28 | the integral stays in [-i_max, i_max] over every run |
| PidControl.IntegralMonotone | src/pid_control.cpp:19-28 | pointwise ordered errors keep ordered integrals |
| PidControl.IntegralGap | src/pid_control.cpp:19-28 | equal errors never widen the gap between two integrals |
| PidControl.ControllerUnwinds | src/pid_control.cpp:19-28 | of a controller after any run of calls: its integral is in range, and at -i_max once the newest errors were low for long enough |
| PidControl.Unwinds | src/pid_control.cpp:19-28 | errors of at most -e bring any integral to -i_max within ceil(2 i_max / e) steps |

## Left out

- Publishers, subscriptions, QoS, executors, timers and logging: publishing appends to a sequence, a warning is a returned flag, throttling is not modelled.
- The OSCC API, CAN sockets, `sigprocmask` and node lifecycle (src/roscco_node.cpp): results of API calls are parameters.
- Floating-point rounding: doubles are reals; NaN and infinities are modelled where commands are clamped. Conversion of raw values beyond 2^53 to double is taken as exact.
- Clocks: `now` is a parameter, and one callback runs at one instant, so the tick's watchdog test and its stamp share it. Stamps need not be monotone.
- Parameter declaration (include/roscco/parameter_utils.hpp): the declared ranges are preconditions.
- Limits with a minimum above its maximum: the constructor only logs them, and `std::clamp` is undefined there ([alg.clamp]).
- Ordering between topics: teleop's three command messages of a tick are one output; nothing in the code orders messages of different topics at the receiver.
- ReportPipeline.DrainEnds: and the rest of the interleaved machine have no exceptions: where `rclcpp::Time` throws, nothing catches it (src/roscco_node.cpp:46), so the process and the run end there with the item still in the drain's hands.
- Reports.ToRosTime: is a number also where `rclcpp::Time` throws (`TimeThrows`); the drain tests before it uses it.
- The wrap-around of the 64-bit drop counter.
- OsccToRosBridge.OsccToRos.Drain: describes a drain without arrivals in its midst; interleaved arrivals are the subject of `report_pipeline.dfy` and `pipeline_feedback.dfy`, on values, where messages, reports and termination are proved for every run.
- SpscRing.Apply: the slot copy is one step; that a copy cannot be torn is stated as freedom from data races.
- `summary()`, the ROS 1 headers, the Apollo example, the unported tests, launch and build files.
