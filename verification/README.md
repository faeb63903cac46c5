# Robot joint stack: a verified model

A Dafny 4.11 model of the chip-independent part of the robot joint firmware: the joint motion
controller, the heartbeat monitor, the change-tracking text screen, the CAN bit-timing search, the
wire format with its Python mirror, and the application that ties them together. Check it with
`dafny verify dfyconfig.toml`.

Each component comes in up to three parts.

- A *model* module (`JointModel`, `MonitorModel`, `ProtocolModel`, `ScreenModel`, `AppModel`)
  gives the state as a value and every operation as a function on it.
- A *device* module (`JointDevice`, `MonitorDevice`, `ProtocolDevice`, `ScreenDevice`, `AppDevice`,
  and `Isqrt`, `CanTiming`) holds the code in the firmware's own form: classes whose methods update
  fields, arrays and counters in place, with its loops. Every method is proved to do to its state
  what the function says.
- The remaining modules prove what the firmware promises, about single operations and about runs of
  any length: `JointLimits`, `JointConvergence`, `JointArrival`, `JointBraking`, `MonitorRuns`,
  `ProtocolLaws`, `ScreenRuns`, `AppSafety`, `AppTheorems`, `AppDelivery`, `AppSilence`, `AppBus`,
  `AppPeers`.
  `CIntegers` and `Bits` supply C's integers and bit operators, `AppConfig` the application's constants.

Joint arithmetic is done in types of exactly 64 bits whose operations must stay in range, so
`JointDevice` also shows that no step overflows and that every narrowing is exact. Unsigned counters
wrap explicitly. C's division truncates toward zero (section 6.5.5 of ISO/IEC 9899:2011) and is
modelled by `TruncDiv`.

## What the proofs found

Where the code does not do what its comments or documents say for every input, the exact condition
is proved.

- A disabled joint "brakes to standstill" only if its acceleration times the step size is at least
  1000: the braking decrement is truncated and, unlike the one used in POSITION mode, has no floor of
  1. Below that a moving joint coasts for ever (`JointBraking.StopsExactlyWhen`; a run from power-up
  that ends so is `JointBraking.CoastingIsReachable`).
- The command watchdog fires at its first step beyond the timeout only if the 32-bit age of the
  command has not wrapped by then (`JointBraking.WatchdogFiresExactlyWhen`; missed after two steps of
  2^31 ms in `JointBraking.MissedTimeoutIsReachable`).
- Supervision is wrap-proof exactly if the timeout plus the longest gap between two polls stays
  below 2^32 ms (`MonitorRuns.WrapIsInvisibleExactlyWhen`).
- All sample points that the timing search reports under given hardware limits are right exactly if
  the limits allow no prescaler, or at most 4294966 quanta in segment 1, or at most 226050 in segment
  2 (`CanTiming.ReportIsExactlyWhen`; 70 reported for 500 achieved in `CanTiming.ReportIsWrongFor`).
  With a prescaler limit of 2^32 - 1 the search ends only if the bit rate divides the clock
  (`CanTiming.SomePrescalerDividesExactlyWhen`).
- The reported current is right exactly up to 32717999 mdeg/s (`JointDevice.CurrentIsExact`; a run
  that passes it in `JointDevice.WrongCurrentIsReachable`).
- A bar covers columns col to col + width - 1 exactly if col + width is at most 256; beyond that it
  wraps to the left edge (`ScreenRuns.BarStaysInPlaceExactlyWhen`).
- A flush without a callback drops change marks. It is harmless for every panel exactly if the dirty
  count is zero (`ScreenRuns.SilentFlushSyncsExactlyWhen`); right after init it loses the whole screen
  (`ScreenRuns.SilentFlushAfterInitIsLost`), until its cells are marked again.

## Assumptions

- Joints that are stepped have `min <= 0 <= max`, because the joint starts at 0, and
  `2 * accel * (max - min) < 2^63`, so that the braking law fits a signed 64-bit integer.
- Commands given to a joint passed the COMMAND decoder, as the header of the joint says.
- A prescaler limit of 2^32 - 1 goes with a bit rate that divides the clock: otherwise the search's
  loop counter wraps to 0, and it divides by it.
- Time, the user button and the CAN driver's status are inputs. Interrupt and loop bodies are atomic
  steps; queues are bounded FIFO sequences.

## Model

| member | source | states |
|---|---|---|
| Isqrt.IsqrtU64 | common/joint/src/joint.c:26-44 | for every 64-bit argument the bitwise loops end, stay in 64 bits and return the floor of the square root |
| Isqrt.RootUnique | common/joint/src/joint.c:26 | the floor of the square root is unique, so the bitwise method and the simple upward search agree |
| JointDevice.Device.constructor | common/joint/src/joint.c:46-54 | the joint starts disabled, at 0 and at rest, with everything else 0 and an acceleration limit of at least 1 |
| JointDevice.Device.Command | common/joint/src/joint.c:56-74 | a decoded command takes the fields to the state the model gives and keeps the joint valid |
| JointLimits.CommandTakesEffect | common/joint/src/joint.c:56-74 | a command is acknowledged, restarts the watchdog, clears PEER_LOST, aims at the nearest point inside the limits and flags exactly the targets that had to move; it never moves the joint |
| JointDevice.Device.Step | common/joint/src/joint.c:76-146 | one step in 64-bit arithmetic takes the fields to the state the model gives; no intermediate overflows, every narrowing is exact, the joint stays valid |
| JointDevice.Device.Watch | common/joint/src/joint.c:82-90 | the watchdog part of a step, with its wrapping 32-bit age |
| JointDevice.Device.Brake | common/joint/src/joint.c:92-104 | the braking part of a step, in 64-bit arithmetic |
| JointDevice.Device.Approach | common/joint/src/joint.c:106-145 | the position part of a step, in 64-bit arithmetic |
| JointDevice.Device.Want | common/joint/src/joint.c:106-116 | the argument of the square root fits a signed 64-bit integer, and the wanted velocity is the smaller of the limit and the braking law, toward the target |
| JointDevice.Device.GetState | common/joint/src/joint.c:148-158 | the state message has position, velocity, mode and last sequence number of the joint, 25.0 degrees, and the current in 16 bits; negating the velocity cannot overflow |
| JointDevice.ReportTells | common/joint/src/joint.c:148-158 | the same of the message as a function of the joint |
| JointDevice.CurrentIsExact | common/joint/src/joint.c:153-155 | the reported current survives the narrowing to 16 bits if and only if the speed is at most 32717999 |
| JointDevice.CurrentIsExactOverRuns | common/joint/src/joint.c:153-155 | it is exact over every run whose speed limits are at most 32717999 |
| JointDevice.WrongCurrentIsReachable | common/joint/src/joint.c:153-155 | from power-up, one command and one step, a joint at 40000000 mdeg/s reports -25486 instead of 40050 |
| JointLimits.WantedSpeedIsLargest | common/joint/src/joint.c:109-115 | the speed aimed for is the largest within the limit that can still stop at the target: w w <= 2 a e |
| JointLimits.SlewIsClosest | common/joint/src/joint.c:118-128 | the new velocity is the one nearest to the wanted one that the acceleration limit allows |
| JointConvergence.StepCovers | common/joint/src/joint.c:130-145 | from any state, with u the slewed velocity: the step lands, on the target and at rest, if and only if u dt thousandths take it there; otherwise it keeps u, and goes one unit toward the target where u dt is below a unit, else u dt thousandths cut to a whole number, or to the soft limit ahead |
| JointConvergence.SlewedIsClosest | common/joint/src/joint.c:114-128 | u is the velocity nearest to the wanted speed toward the target that a change of at most max(1, accel dt / 1000) allows |
| JointLimits.StepIsGentle | common/joint/src/joint.c:92-145 | one step changes the velocity by at most the slew limit unless it lands exactly on the target at rest, and a POSITION step never crosses the target |
| JointLimits.StepIsMirrorSymmetric | common/joint/src/joint.c:76-146 | mirroring a joint and stepping it commute |
| JointLimits.MotionLimits | common/joint/src/joint.c:46-146 | over every run from power-up, position and target stay inside the limits, speed never exceeds the largest limit commanded, and PEER_LOST implies DISABLED |
| JointLimits.RunKeepsLimits | common/joint/src/joint.c:56-146 | the same from any valid joint, against any bound on the present speed and the limits to come |
| JointConvergence.StepApproaches | common/joint/src/joint.c:106-145 | every POSITION step strictly lowers a rank made of the speed in the wrong direction and the distance left, until the joint has arrived |
| JointConvergence.Converges | common/joint/src/joint.c:106-145 | sent to one target, with any mix of step sizes and repeated commands, the joint is there and at rest after at most \|v\| + (max - min) steps, and stays |
| JointConvergence.NeverOvershoots | common/joint/src/joint.c:131-142 | from rest, or heading for the target, it stays between start and target and never turns back, at any point of such a run |
| JointConvergence.SustainedWithoutTimeout | common/joint/src/joint.c:82-90 | without a timeout every run of repeated commands and positive steps qualifies |
| JointConvergence.SustainedInTime | common/joint/src/joint.c:82-90 | with one, every run whose commands follow each other within it does, and, unless a step could wrap the age, only such a run |
| JointArrival.SoftStep | common/joint/src/joint.c:109-142 | one step of any size keeps the speed within the bound for the way left, through slew, truncation and crawl, and a landing discards a speed within the bound for distance zero |
| JointArrival.ArrivalSpeedOverAnySteps | common/joint/src/joint.c:106-145 | from standstill and over any mix of step sizes, a (v v - 2 b e) stays within max(2 a D V + (a - b) V V, 10^6 a), where every step brakes at b or more and changes the speed by D or less; the speed a landing discards is within that bound too |
| JointArrival.ArrivalSpeed | common/joint/src/joint.c:106-145 | with one step size that divides exactly, more sharply: v v - D v - 2 a e <= max(D V, 10^6) in every reachable state, and the speed v discarded by the landing satisfies v v <= max(D V, 10^6) + D v |
| JointArrival.SweepArrives | app/joint_node/app.c:111-116 | the joint of the application, commanded to one target at least every half second, gets there and stays |
| JointArrival.SweepLandsBelow | app/joint_node/app.c:111-116 | swept at 90 degrees per second with such commands and 1 ms steps, it lands at no more than 5.874 |
| JointBraking.ComesToRest | common/joint/src/joint.c:92-104 | a disabled joint is at rest after ceil(\|v\| / dv) steps and then frozen |
| JointBraking.StopsExactlyWhen | common/joint/src/joint.c:94-100 | a disabled moving joint ever stops if and only if accel * dt >= 1000 |
| JointBraking.CoastingIsReachable | common/joint/src/joint.c:92-104 | power-up, a command, a step and a DISABLED command can leave a joint moving for ever |
| JointBraking.SpeedLeftOverAnySteps | common/joint/src/joint.c:92-104 | over any mix of step sizes the speed left is max(0, \|v\| - the sum of the decrements), so the joint is at rest if and only if that sum reaches \|v\|, and it never turns back |
| JointBraking.DeltaIs | common/joint/src/joint.c:94 | the decrement is accel dt thousandths, cut to a whole number |
| JointBraking.BrakingMoves | common/joint/src/joint.c:102-103 | a braking step, that of the watchdog included, goes on in its direction by the velocity it leaves times dt thousandths, cut to a whole number, unless the soft limit ahead stops it |
| JointBraking.BrakingMovesOverAnySteps | common/joint/src/joint.c:92-104 | over any mix of step sizes a disabled joint never turns back, and its way is that of its falling speed to within a unit for each step, or ends at the soft limit ahead |
| JointBraking.BrakingEnergy | common/joint/src/joint.c:92-104 | 2000 dv (way so far) + dt v v never exceeds its first value while disabled |
| JointBraking.StoppingDistance | common/joint/src/joint.c:92-104 | the way from disabling to standstill is at most dt v v / (2000 dv), truncation and clamp included |
| JointBraking.BrakingEnergyOverAnySteps | common/joint/src/joint.c:92-104 | over any mix of step sizes that each take q / p or more off the speed per millisecond, 2000 q (way so far) + p v v never exceeds its first value |
| JointBraking.StoppingDistanceOverAnySteps | common/joint/src/joint.c:92-104 | so the way to standstill is at most p v v / (2000 q) |
| JointBraking.HeldUntilTimeout | common/joint/src/joint.c:82-90 | up to the timeout the joint stays in POSITION mode and the age of the command is exact |
| JointBraking.WatchdogFiresExactlyWhen | common/joint/src/joint.c:82-101 | the first step beyond the timeout disables, flags, counts and already brakes if and only if the 32-bit age has not wrapped; LIMIT_REACHED and the sequence number survive it |
| JointBraking.MissedTimeoutIsReachable | common/joint/src/joint.c:82-90 | with a timeout of 2^32 - 1 ms, a command and two steps of 2^31 ms leave the joint in POSITION mode, its command 2^32 ms old |
| JointBraking.WatchdogOverAnySteps | common/joint/src/joint.c:82-90 | the same over any mix of step sizes: POSITION mode lasts exactly as long as the time since the command is at most the timeout |
| JointBraking.LosingTheControllerStopsTheJoint | common/joint/src/joint.c:82-104 | whatever it was doing, without commands the joint is disabled and at rest after the timeout plus the braking time, flagged if it was in POSITION mode, and never moves again |
| MonitorDevice.Table.constructor | common/node/src/node_monitor.c:30-36 | the table starts empty |
| MonitorDevice.Table.Find | common/node/src/node_monitor.c:20-28 | the search returns the slot of a node, or the count when it has none |
| MonitorDevice.Table.OnHeartbeat | common/node/src/node_monitor.c:44-68 | in place, one heartbeat has the modelled effect on table and events; it is refused exactly for an invalid node or a new one when the table is full, and then changes and emits nothing |
| MonitorDevice.OnHeartbeat | common/node/src/node_monitor.c:38-68 | the same for arguments that may be NULL, which are refused and change nothing |
| MonitorDevice.Table.Poll | common/node/src/node_monitor.c:75-81 | the loop marks exactly the silent live peers LOST, in table order, with one event each |
| MonitorDevice.Poll | common/node/src/node_monitor.c:70-82 | the same for a monitor that may be NULL |
| MonitorDevice.Table.Alives | common/node/src/node_monitor.c:103-108 | the loop counts the live peers |
| MonitorDevice.Alives | common/node/src/node_monitor.c:97-109 | and none for NULL |
| MonitorModel.HeartbeatKeepsValid | common/node/src/node_monitor.c:38-68 | a heartbeat keeps the table well formed, every trace in the grammar and the counts balanced |
| MonitorModel.PollKeepsValid | common/node/src/node_monitor.c:70-82 | so does a poll |
| MonitorRuns.EventGrammar | common/node/src/node_monitor.c:20-109 | over every run the events of each node spell JOINED (REBOOTED \| LOST JOINED)* [LOST] and end in the state the table shows; live peers = JOINED minus LOST events; at most 16 distinct nodes within 1..127 |
| MonitorRuns.NodesAreKept | common/node/src/node_monitor.c:45-52 | entries are never removed or moved, and events never retracted |
| MonitorRuns.WrapIsInvisible | common/node/src/node_monitor.c:4-5 | across any number of wraps of the millisecond counter, and however long a peer is LOST, the monitor shows the states and emits the events of one on unbounded time |
| MonitorRuns.SlowPollsAreMissed | common/node/src/node_monitor.c:77 | with slower polls there is a run on which a LOST event is missed |
| MonitorRuns.WrapIsInvisibleExactlyWhen | common/node/src/node_monitor.c:70-82 | it is wrap-proof on all schedules with a given poll gap if and only if timeout + gap < 2^32 |
| MonitorRuns.AliveExactlyWhenHeard | common/node/src/node_monitor.c:38-82 | a known node is ALIVE if and only if its last heartbeat was in time for the last poll; its entry holds that heartbeat, its time and the number of heartbeats |
| MonitorRuns.BeatEventsFromHistory | common/node/src/node_monitor.c:44-66 | which event a heartbeat causes, told from what was heard before, for known and unknown nodes |
| MonitorRuns.PollEventsFromHistory | common/node/src/node_monitor.c:75-81 | a poll causes one LOST event, with the last heartbeat, for exactly the nodes that were in time for the poll before and are not for this one |
| ScreenDevice.TextScreen.PutCharacter | common/ui/src/text_screen.c:12-25 | one write in place: nothing off the grid, nothing on an equal cell, else the cell and its mark |
| ScreenDevice.TextScreen.Init | common/ui/src/text_screen.c:27-40 | the loops clear every cell and set every mark, whatever was there |
| ScreenDevice.TextScreen.SetColors | common/ui/src/text_screen.c:42-46 | the colours of later writes |
| ScreenDevice.TextScreen.Print | common/ui/src/text_screen.c:48-80 | the two loops write the shown text and the padding, cell after cell; where formatting failed nothing is written |
| ScreenDevice.TextScreen.Bar | common/ui/src/text_screen.c:82-91 | the loop writes the bar, with its 8-bit column |
| ScreenDevice.TextScreen.ClearRow | common/ui/src/text_screen.c:93-98 | the loop blanks a row |
| ScreenDevice.TextScreen.MarkAllDirty | common/ui/src/text_screen.c:100-106 | the loop marks every cell |
| ScreenDevice.TextScreen.Flush | common/ui/src/text_screen.c:108-124 | the nested bit-trick loops end, make the modelled calls, clear every mark and return the number of marks |
| ScreenDevice.TextScreen.DirtyCount | common/ui/src/text_screen.c:126-133 | the loop counts the marks |
| Bits.ClearLowest | common/ui/src/text_screen.c:115-116 | `ctz` and `bits & (bits - 1)` take exactly the lowest mark |
| ScreenModel.PutsAt | common/ui/src/text_screen.c:12-25 | after any writes every cell shows the last character written to it, or what it showed before, and every changed cell is marked |
| ScreenModel.FlushDrawsExact | common/ui/src/text_screen.c:108-124 | a flush draws exactly the dirty cells, each once, in increasing order, as they are |
| ScreenRuns.FlushIsExact | common/ui/src/text_screen.c:108-133 | it makes as many calls as the dirty count says and leaves no mark |
| ScreenRuns.IncrementalIsFullRedraw | common/ui/src/text_screen.c:12-124 | with any panel, after init and any operations, silent flushes included, whose dropped marks were set again by init or mark-all since: unmarked cells are up to date on the panel, and after the next flush the panel is the model; no mark is ever set at column 30 or above |
| ScreenRuns.SilentFlushSyncsExactlyWhen | common/ui/src/text_screen.c:113-133 | a flush without a callback keeps every panel in step that was in step if and only if the dirty count is zero |
| ScreenRuns.SilentFlushAfterInitIsLost | common/ui/src/text_screen.c:113-119 | init and a silent flush leave an empty panel out of step and empty, even after the next flush |
| ScreenRuns.PrintShows | common/ui/src/text_screen.c:48-80 | text appears from its column on, cut at thirty characters, at the edge and before a NUL, and padding blanks the rest of the row, all in the colours in force |
| ScreenRuns.ClearShows | common/ui/src/text_screen.c:93-98 | a cleared row is blank in the colours in force, and nothing else changes |
| ScreenRuns.InitShows | common/ui/src/text_screen.c:27-40 | a fresh screen is blank in the colours given, every cell marked |
| ScreenRuns.ColorsAndFlushShow | common/ui/src/text_screen.c:42-46 | changing the colours and flushing change no cell |
| ScreenRuns.MarkAllShows | common/ui/src/text_screen.c:100-106 | marking everything changes no cell and marks them all |
| ScreenRuns.BarShows | common/ui/src/text_screen.c:82-91 | column c of the row shows number i = (c - col) mod 256 of the bar if it is that wide, filled if and only if 1000 i + 500 <= width min(permille, 1000), and nothing else changes |
| ScreenRuns.BarFillIs | common/ui/src/text_screen.c:84-87 | the number of filled characters is the nearest to width min(permille, 1000) / 1000 |
| ScreenRuns.BarStaysInPlaceExactlyWhen | common/ui/src/text_screen.c:88-90 | the bar stays at col .. col + width - 1 if and only if col + width <= 256 |
| ScreenRuns.RepeatingIsFree | common/ui/src/text_screen.c:17-20 | repeating a print, bar or clear changes and marks nothing |
| CanTiming.CalcTiming | common/hal/src/can_timing.c:10-47 | the search succeeds if and only if neither argument is NULL and some prescaler within the limit fits, and stores the least one; the early exit loses none; a failed search stores nothing |
| CanTiming.SomePrescalerDividesExactlyWhen | common/hal/src/can_timing.c:19-23 | some prescaler divides the clock if and only if the bit rate does, which is what ends the loop under the largest limit |
| CanTiming.ExitIsSound | common/hal/src/can_timing.c:25-27 | where one prescaler makes fewer than four quanta, no larger one fits |
| CanTiming.SamplePointIsClose | common/hal/src/can_timing.c:29-44 | the bit rate is exact and the sample point off by at most half a quantum, or less than one where segment 2 was raised to 1 |
| CanTiming.MostQuanta | common/hal/src/can_timing.c:18-19 | the least fitting prescaler makes the most quanta per bit |
| CanTiming.ReportIsExact | common/hal/src/can_timing.c:43 | one reported sample point is the achieved one if and only if segment 1 is at most 4294966 |
| CanTiming.ReportIsExactlyWhen | common/hal/src/can_timing.c:18-43 | under given limits every report of the search is right if and only if the prescaler limit is 0, that of segment 1 at most 4294966 or that of segment 2 at most 226050 |
| CanTiming.ReportIsWrongFor | common/hal/src/can_timing.c:43 | at 10 MHz, 1 bit/s and one half, the only fitting split reports 70 |
| ProtocolModel.IdRoundTrip | common/protocol/include/rjs/protocol.h:104-110 | type and node survive the identifier |
| ProtocolModel.IdRebuilt | common/protocol/include/rjs/protocol.h:104-110 | every identifier is rebuilt from its parts, up to 11 bits |
| ProtocolModel.Word32RoundTrip | common/protocol/src/protocol.c:33-49 | four bytes written by shift and mask read back as the word |
| ProtocolModel.BytesRebuilt | common/protocol/src/protocol.c:27-49 | and the bytes of a word that was read are the ones it was read from |
| ProtocolDevice.FrameStart | common/protocol/src/protocol.c:82-90 | a frame buffer is cleared and headed in place |
| ProtocolDevice.FrameCheck | common/protocol/src/protocol.c:92-107 | the checks and their order |
| ProtocolDevice.EncodeHeartbeat | common/protocol/src/protocol.c:116-129 | fills the buffer in place exactly for encodable input, and touches nothing otherwise |
| ProtocolDevice.DecodeHeartbeat | common/protocol/src/protocol.c:131-147 | fills the record or leaves it untouched, with the first failing check as its answer |
| ProtocolDevice.EncodeCommand | common/protocol/src/protocol.c:151-165 | fills the buffer in place exactly for encodable input, and touches nothing otherwise |
| ProtocolDevice.DecodeCommand | common/protocol/src/protocol.c:167-187 | fills the record, or leaves it untouched on every rejected frame |
| ProtocolDevice.EncodeJointState | common/protocol/src/protocol.c:191-204 | fills the buffer in place exactly for a valid node, and touches nothing otherwise |
| ProtocolDevice.DecodeJointState | common/protocol/src/protocol.c:206-222 | fills the record or leaves it untouched |
| ProtocolDevice.EncodeEmergency | common/protocol/src/protocol.c:226-235 | fills the buffer in place exactly for a valid node, and touches nothing otherwise |
| ProtocolDevice.DecodeEmergency | common/protocol/src/protocol.c:237-249 | fills the record or leaves it untouched |
| ProtocolLaws.HeartbeatRoundTrip | common/protocol/src/protocol.c:116-147 | decode after encode returns the record, for every encodable one |
| ProtocolLaws.CommandRoundTrip | common/protocol/src/protocol.c:151-187 | likewise, negative targets included |
| ProtocolLaws.JointStateRoundTrip | common/protocol/src/protocol.c:191-222 | likewise, all four signed fields included |
| ProtocolLaws.EmergencyRoundTrip | common/protocol/src/protocol.c:226-249 | likewise |
| ProtocolLaws.DecodersAnswer | common/protocol/src/protocol.c:92-249 | which frames each decoder refuses and with which answer: type, then length within its least and 64, then version, then for a command its mode and limit |
| ProtocolLaws.CheckAnswers | common/protocol/src/protocol.c:92-107 | the frame check likewise, for any type and least length |
| ProtocolLaws.EncodersLeaveTheRest | common/protocol/src/protocol.c:82-90 | an encoded frame has identifier 128 type + node, version 1, and zeros wherever its message has no field |
| ProtocolLaws.CommandReencodes | common/protocol/src/protocol.c:151-187 | every accepted command encodes again, to the same first 12 bytes and the same 11-bit identifier |
| ProtocolLaws.HeartbeatDecodersAgree | tools/rjs_protocol.py:68-83 | C and Python accept the same heartbeats, with the same integer in every field |
| ProtocolLaws.CommandDecodersAgree | tools/rjs_protocol.py:84-94 | C accepts exactly those of Python's commands that a joint may execute, with the same integers |
| ProtocolLaws.JointStateDecodersAgree | tools/rjs_protocol.py:95-106 | both accept the same joint states, with the same integers |
| ProtocolLaws.EmergencyDecodersAgree | tools/rjs_protocol.py:107-111 | both accept the same emergencies, with the same integers |
| AppDevice.Node.StartTasks | app/joint_node/app.c:412-446 | from here on the queues exist, and the sweep's clock starts; nothing else changes |
| AppDevice.Node.CanRxIsr | app/joint_node/app.c:84-92 | the interrupt queues a frame, or counts it as dropped when the queue is full or does not exist yet |
| AppDevice.Node.HandleFrame | app/joint_node/app.c:187-225 | a frame goes to the monitor, to the command queue or nowhere, and bad ones are counted, as in the source |
| AppDevice.Node.CanRxTask | app/joint_node/app.c:232-256 | one round of can_rx: at most one frame, then a poll, then the number of live peers and the first four table entries are published |
| AppDevice.Node.CommsTask | app/joint_node/app.c:291-345 | one round of comms: heartbeat, button, sweep, command |
| AppDevice.Node.ControlTask | app/joint_node/app.c:143-161 | one round of control: the queue is drained into the joint in order, one step, the state published and every tenth time sent |
| AppSafety.ReceivedKeepsFrames | app/joint_node/app.c:84-92 | the interrupt keeps the receive queue a bounded FIFO with exact loss counting |
| AppSafety.OfferedKeepsCommands | app/joint_node/app.c:206 | an offer that does not wait keeps the command queue a bounded FIFO of executable commands |
| AppSafety.HandledKeeps | app/joint_node/app.c:187-225 | handling a frame keeps queues, history and monitor |
| AppSafety.HandledKeepsBeats | app/joint_node/app.c:187-199 | the monitor is given exactly the heartbeats in the handled frames, in order and with the times they were handled at |
| AppSafety.NextKeepsInv | app/joint_node/app.c:84-346 | every step of every loop and of the interrupt keeps the whole-system invariant |
| AppTheorems.SystemIsSafe | app/joint_node/app.c:84-346 | under every interleaving: frames given = dropped + handled + queued, in order; commands reach the joint as an ordered subsequence of those offered, each executable; the joint stays inside its limits; the peer table is sound; every frame sent decodes |
| AppTheorems.HandledByIdentifier | app/joint_node/app.c:187-225 | by the bits of its identifier: heartbeats go to the monitor under the node they came from, commands for this node or for all to the joint, bad ones of these only count, and any other frame, above all a command for another node, changes nothing |
| AppTheorems.OfferIsTaken | app/joint_node/app.c:206 | an offered command is queued if and only if fewer than four are waiting |
| AppTheorems.FollowersObeyTheBus | app/joint_node/app.c:200-211 | on other nodes what is offered to the joint is exactly what the handled frames of type 1 for this node or for all command, and decode errors count exactly the bad frames |
| AppDelivery.OnlyCountsBeforeStart | app/joint_node/app.c:84-92 | before the tasks are started only the interrupt acts, and it counts the frame as dropped |
| AppDelivery.FramesAreLostExactlyWhen | app/joint_node/app.c:84-92 | over every run the frames handled and queued are exactly those counting says: one is missing if and only if the node was not started when it was given or exactly 32 were unhandled; dropped counts them |
| AppDelivery.NothingIsLostExactlyWhen | app/joint_node/app.c:232-236 | from the start of the tasks on no frame is lost if and only if no stretch of the run gives the interrupt over 32 frames more than can_rx has rounds; then dropped counts exactly the frames before the start |
| AppDelivery.BeginningsDoNotTell | app/joint_node/app.c:84-92 | it is not enough to look at stretches from the start on |
| AppDelivery.NoCommandIsLost | app/joint_node/app.c:143-146 | with at most four rounds of can_rx and comms between two of control, everything offered reaches the joint or is queued, in order |
| AppSilence.OrdersMoveNothing | app/joint_node/app.c:143-146 | commands still queued set mode, target and limit when they are taken, and move nothing |
| AppSilence.SilenceStopsTheJoint | app/joint_node/app.c:319-320 | from any reachable state, however the steps interleave, once no command is offered any more the joint, after taking those still queued, is disabled and at rest after 501 control rounds plus its braking time, flagged, and stays |
| AppBus.HeartbeatTellsTheTruth | app/joint_node/app.c:261-308 | in any reachable state the frame sent decodes to a heartbeat with PEER_LOST and LIMIT_REACHED as the joint has them, the bus flags as the driver has them, FAULT if and only if the bus is off and else OPERATIONAL if and only if the joint is in POSITION mode |
| AppBus.StateTellsTheTruth | app/joint_node/app.c:143-161 | every control round brings the queued commands to the joint, oldest first, steps it once and publishes its state field by field, and every tenth sends one frame that decodes to that |
| AppBus.SweepRound | app/joint_node/app.c:319-344 | on the controller: the sweep is switched on a rising edge of the button only; while it is on, the target turns if and only if 3 s have passed since it last did, in 32 bits, the sequence goes up by one, and one frame decodes to the very command offered to the own joint; while off, neither happens |
| AppBus.SweepFromStart | app/joint_node/app.c:287 | the three seconds count from the start of the tasks |
| AppBus.FollowersOnlyBeat | app/joint_node/app.c:315-317 | other nodes send their heartbeat and do nothing else |
| AppBus.OrdersAreNumbered | app/joint_node/app.c:335-344 | over every run the controller's orders are numbered one by one, in 16 bits, and their list is what it has broadcast |
| AppBus.FollowersObeyTheController | app/joint_node/app.c:335-344 | if the command frames another node is given come in order from those the controller has sent, what reaches its joint is an ordered subsequence of what the controller offered its own, all of it sweep orders, and its speed never exceeds 90 degrees per second |
| AppPeers.AliveExactlyWhenHeard | app/joint_node/app.c:187-256 | with polls at most gap apart, 350 + gap < 2^32, a known node is ALIVE if and only if its last handled heartbeat was at most 350 ms old at the last poll; count and display show just that |

## Left out

- JointArrival.ArrivalSpeed: the sharper bound is for one fixed step size for which accel * dt is a multiple of 1000, as in the application (360000 and 1 ms); `JointArrival.ArrivalSpeedOverAnySteps` is for all.
- CanTiming.CalcTiming: requires what the source needs, since it divides by a wrapped loop counter where a prescaler limit of 2^32 - 1 meets a bit rate that does not divide the clock.
- AppDevice.Node.ControlTask: loop timing statistics and the debug pin are not modelled.
- AppDevice.Node.CommsTask: light-emitting diodes and log lines are not modelled; the bus status is an input.
- AppDevice.Node.HandleFrame: an EMERGENCY only causes a log line, so it changes nothing here, and one that does not decode is not counted, as in the source.
- ScreenDevice.TextScreen.Print: the text arrives formatted, or as a failure to format; formatting itself is not modelled.
- What happens to sent frames in the driver, and the counters `tx_frames` and `tx_busy`, which two loops update outside the mutex.
- FreeRTOS scheduling, priorities and wall-clock periods: rounds are atomic and may come in any order.
- Whether REBOOTED reflects a real reset: uptime wraps at 2^32, so only the stored comparison is modelled.
- The DLC and length tables, the rendering of glyphs, the font, the display pages and the log.
- Python's scaling, names and text parsing: raw integers are compared.
- `boards/nucleo_h7s3l8`: registers, interrupts, DMA and SPI rest on vendor code that is not part of this model.
