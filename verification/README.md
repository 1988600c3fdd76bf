# Verification model of the ECU firmware

The firmware speaks a framed, CRC-protected byte protocol over a UART and runs five tasks that
share one command record and three queues. This project models both halves and proves what they
are for.

**The protocol stack.** `Crc` is the bitwise CRC-16 loop; `Gf2` says what it computes, a remainder
by x^16 + x^12 + x^5 + 1 (section 2 of ITU-T V.41), `Order` and `ErrorPatterns` what that remainder
can and cannot see. `Protocol` is the frame encoder and decoder, over arrays and as functions;
`WireBits`, `FrameErrors`, `BoundaryBursts` and `BurstLimits` follow bit errors through a whole
frame, whose CRC travels low byte first. `Parser` is the byte-at-a-time state machine over its
136-byte buffer, `Stream` compares it with a batch scanner of the same text, `Nonce` is the 16-bit
anti-replay window (serial numbers in the sense of section 3.2 of RFC 1982), `RoundTrip` joins the
sender loop to the receiver, `ReplayGuard` says which frames the window lets pass, and `CleanLine`
exactly which noise between frames is harmless. `Payload` decodes float32 and mode payloads, and
`FloatOrder` says what numbers the 32-bit patterns are and which the bounds let through.

**The command and failsafe protocol.** `Command`, `FailsafeLine` and `Pid` are the pure cores, each
a class proved against functions; `PidSum` has the PID in closed form. `Ecu` is the transition
system of the five tasks: each step is one critical section, one queue operation or one reading of
the tick counter, and program counters expose every point between them. `EcuLock`, `EcuOutput`,
`EcuDelay`, `EcuAlarm`, `EcuControl`, `EcuDrive`, `EcuRequests`, `EcuSilence`, `EcuResponse`,
`EcuBalance`, `EcuReceive` and `EcuDelivery` prove properties of every run, that is of every
interleaving; `EcuWitness` has runs from the initial state into the corners where the code does not
do what one would expect. `Tasks` has the bodies of the tasks over objects with mutable fields, and
shows that each, left alone, does exactly the steps of the transition system; `EcuPass` says what one
pass of task_failsafe comes to.

Fields marked `history` in `Ecu` only count or record: nothing else depends on them. `Sound`, `Ordered`
and `Stamped`, which some lemmas ask of a state, hold in every reachable state by
`EcuLock.LockFollowsLatch`, `EcuOutput.CommandsKeepTheirOrder` and `EcuSilence.TimelyAfter`.

## Where the code and its documentation disagree

- main/protocol.c:6-8 and rta_fmea.md:448 promise that every error burst of at most 16 bits is
  detected. That is false where a burst straddles the start of the CRC, whose bytes are swapped on
  the wire. `BurstLimits.BurstPromise` says for every frame exactly which 16-bit windows are safe;
  `BurstLimits.ShortBurstRejected` shows that 12 bits are safe everywhere and
  `BurstLimits.GeneratorIsInvisible` that 13 are not. The promises on one, two and three bits hold.
- main/task_rx.c:161-162 and technical_reference.md:202 say that the counter of overwritten mode
  requests may under-count. It never does; it over-counts (`EcuBalance.OverwritesAreOvercounted`, with
  a run in `EcuWitness.OvercountInARun`).
- rta_fmea.md:342 counts a frame in flight and six queued messages ahead of OUTPUT(0). Seven can be
  queued: `EcuWitness.SevenQueuedInARun` is a run, `EcuDelay.ZeroKeepsItsPlace` the bound.
- main/protocol.c:39 skips a NULL payload whose length is not zero but counts it in LEN; such a
  frame is never accepted (`Protocol.NullPayload`).
- main/failsafe.c:128-129 reads the tick counter before the last stamp, so a frame stamped between
  the two trips the silence failsafe. `EcuSilence.PollTripsExactly` has the condition and
  `EcuWitness.FreshFrameTripsInARun` a run.
- main/task_rx.c:70-95 never rescans, so a START in the noise between frames costs a frame or an
  error count: `CleanLine.RoundTripExactly`.

## Model

| member | source | states |
|---|---|---|
| `Crc.ComputeCrc` | main/protocol.c:11-22 | the nested loops return the CRC function of the slice, for every array and slice |
| `Crc.BytesAreBits` | main/protocol.c:13-20 | feeding bytes to the bit-vector register is feeding their bits, most significant first, to the polynomial register |
| `Crc.CrcCharacterised` | main/protocol.c:6-22 | a word is the CRC of a message if and only if message bits followed by the word are a multiple of the generator |
| `Crc.CheckValue` | main/protocol.c:6-22 | the check value of CRC-16/XMODEM: the digits 1 to 9 give 0x31C3 |
| `Gf2.RemainderCharacterised` | main/protocol.c:11-22 | the register after a message is the only 16-bit suffix that makes the message divisible by the generator |
| `Gf2.FeedBitsXor` | main/protocol.c:14-19 | the register is XOR-linear in its start value and in equally long messages |
| `ErrorPatterns.FeedByteInjective` | main/protocol.c:14-19 | one byte step maps different registers to different registers |
| `Order.OrderExceedsFrame` | main/protocol.c:15-19 | no power of x from 1 to 1088, the bits of the longest frame, is 1 modulo the generator |
| `ErrorPatterns.FeedBitsParity` | main/protocol.c:11-22 | the CRC has the parity of the message |
| `ErrorPatterns.FewErrorsAreNoticed` | main/protocol.c:6-10 | no pattern of one to three errors over message and CRC leaves a matching CRC |
| `ErrorPatterns.BurstLeavesRemainder` | main/protocol.c:6-8 | an error within 16 consecutive message bits always changes the CRC |
| `FrameErrors.CorruptedFrame` | main/protocol.c:50-79 | a corrupted copy of an accepted frame is accepted if and only if START and LEN survive and the error pattern is invisible to the CRC |
| `FrameErrors.FewFlipsRejected` | main/protocol.c:50-79 | flipping any one, two or three bits anywhere in an accepted frame makes it rejected |
| `FrameErrors.OddFlipsRejected` | main/protocol.c:50-79 | flipping any odd number of bits makes it rejected |
| `FrameErrors.BurstBeforeCrcRejected` | main/protocol.c:6-8 | any error within 16 consecutive bits before the CRC bytes is rejected |
| `FrameErrors.CrcOnlyErrorRejected` | main/protocol.c:65-69 | any error confined to the two CRC bytes is rejected |
| `BurstLimits.ShortBurstRejected` | main/protocol.c:6-8 | any error within 12 consecutive wire bits, wherever in the frame, is rejected |
| `BurstLimits.BurstPromise` | main/protocol.c:6-8 | for every accepted frame, a 16-bit window rejects all errors inside it if and only if it lies on one side of the start of the CRC or has 7, 9 or 11 bits before it |
| `BurstLimits.GeneratorIsInvisible` | main/protocol.c:44-46 | every accepted frame has an accepted neighbour at four flips within 13 bits, so neither bound can be raised |
| `Protocol.EncodeFrame` | main/protocol.c:24-48 | the array holds the specified bytes, the rest is untouched, and an oversized payload writes nothing |
| `Protocol.DecodeFrame` | main/protocol.c:50-79 | accepts exactly what the decoding function accepts, with its frame in the output, and leaves the output alone on rejection |
| `Protocol.DecodeIffEncode` | main/protocol.c:24-79 | decoding yields a frame if and only if the bytes are the encoding of that frame |
| `Protocol.NullPayload` | main/protocol.c:39-42 | what an encoder call emits is decodable if and only if a payload was given or its length is zero |
| `FrameErrors.WireLayout` | main/protocol.c:29-46 | 0xAA, LEN of the payload plus three and NONCE as numbers low byte first, type, payload, CRC low byte first, at most 136 bytes |
| `Nonce.NonceCtx.CheckAndUpdate` | main/protocol.c:86-100 | accepts exactly the nonces newer on the circle, and moves the window only then |
| `Nonce.NewerIsPartialOrder` | main/protocol.c:89-96 | of two nonces exactly one is newer, unless they are equal or half the circle apart |
| `Nonce.AdvanceBounds` | main/protocol.c:86-100 | over any run each acceptance moves the unwrapped window by 1 to 32767 |
| `Nonce.Unwrapped` | main/protocol.c:86-100 | after any run the window is its start plus the total advance modulo 2^16 |
| `Nonce.ReplayVerdict` | main/protocol.c:89-96 | an accepted nonce presented again is accepted if and only if the window has advanced by more than 32768 modulo 2^16 |
| `Nonce.SameNonceThreeApart` | main/protocol.c:89-96 | two acceptances of one value have at least two acceptances between them |
| `Nonce.LossySender` | main/protocol.c:89-96 | all frames delivered from a counting sender over a lossy line are accepted if and only if every gap is 1 to 32767, across any number of wraparounds |
| `Payload.ParseModeIff` | main/protocol.c:114-121 | a mode request is parsed if and only if the payload is the one byte that codes that mode |
| `Payload.ParseBoundedVerdict` | main/protocol.c:102-132 | invalid exactly for a wrong length or a non-finite pattern; accepted and out-of-range exactly by the bounds |
| `Payload.LimitsAreAccepted` | main/protocol.c:123-132 | the little-endian patterns of 220.0 and 242.0 are those numbers and are within the inclusive bounds |
| `FloatOrder.ZeroPatterns` | main/protocol.c:106-108 | patterns 0x00000000 and 0x80000000 are zero |
| `FloatOrder.NeighbouringPatterns` | main/protocol.c:106-108 | from one finite non-negative little-endian pattern to the next the number rises by 2^(max(e, 1) - 150), e its exponent field |
| `FloatOrder.ScaleDoubles` | main/protocol.c:106-108 | those steps: 1 at exponent field 150, doubling from field to field |
| `FloatOrder.PatternsAreOrdered` | main/protocol.c:106-108 | on them the greater pattern is the greater number, and conversely |
| `FloatOrder.SignNegates` | main/protocol.c:106-108 | bit 31 negates the number and leaves finiteness alone |
| `FloatOrder.AcceptedPatterns` | main/protocol.c:123-132 | a payload is accepted if and only if it has four bytes and a pattern up to that of 220.0, or 242.0, or is minus zero; every negative number is out of range |
| `Parser.FrameParser.Reset` | main/task_rx.c:59-65 | back to waiting, with nothing pending |
| `Parser.FrameParser.FeedByte` | main/task_rx.c:67-125 | every byte keeps state, index and LEN consistent inside the buffer, and changes pending bytes, result and counters as the specification of one byte does |
| `Parser.FrameParser.FeedCrcByte` | main/task_rx.c:104-117 | the same for the two CRC bytes |
| `Parser.FeedKeepsPartial` | main/task_rx.c:67-125 | pending bytes always are a proper prefix of a plausible frame, shorter than the buffer |
| `Parser.ReadyIsEncoded` | main/task_rx.c:104-110 | a frame is reported if and only if the bytes since START are its encoding |
| `Parser.EndFailsIffCrcMismatch` | main/task_rx.c:108-115 | at the announced end, decoding fails if and only if the CRC does not match |
| `Stream.StreamingIsBatch` | main/task_rx.c:67-125 | on any byte string the streaming parser reports what a batch scanner finds, and holds exactly the unfinished rest |
| `Stream.StreamingIsBatchWithTimeouts` | main/task_rx.c:180-203 | the same with silences between any bursts of bytes |
| `Stream.BackToWaiting` | main/task_rx.c:67-125 | from any pending bytes, at most 136 minus their number more bring the parser back to waiting |
| `RoundTrip.Sender.Transmit` | main/task_tx.c:85-107 | an admissible message is encoded under the next nonce; an oversized one changes nothing |
| `RoundTrip.StreamRoundTrip` | main/task_tx.c:101-107 | any messages sent with any START-free noise around them and received byte by byte come out in order and unchanged, with no error counted |
| `RoundTrip.SentCarriesMessages` | main/task_tx.c:99-103 | the i-th frame carries the i-th message and the i-th nonce after the start, modulo 2^16 |
| `ReplayGuard.ReceivedByWindow` | main/task_rx.c:185-189 | of any frames reported, exactly those the window accepts in turn are kept, and the others are counted as replays |
| `ReplayGuard.SelectedAdvance` | main/protocol.c:89-99 | the nonces kept advance by 1 to 32767 each, modulo 2^16 |
| `CleanLine.RoundTripExactly` | main/task_rx.c:67-125 | for all messages, nonces and noise: exactly the frames sent come out, in order, with nothing pending and no error counted, if and only if no noise between them holds a START |
| `RoundTrip.StrayStartLosesFrame` | main/task_rx.c:70-95 | an example: one stray START directly in front of a frame without a further START loses the frame |
| `Command.EcuCommand.constructor` | main/ecu_command.c:5-11 | OFF, zero, unlocked |
| `Command.EcuCommand.TryToSetMode` | main/ecu_command.c:13-21 | refuses AUTO under a lock and nothing else |
| `Command.EcuCommand.CommitOutput` | main/ecu_command.c:28-34 | the command becomes the request in AUTO and zero otherwise, and that value is queued at the back |
| `Command.EcuCommand.EnterFailsafeMode` | main/ecu_command.c:36-46 | OFF, zero, locked on demand, and a zero command queued |
| `Command.EcuCommand.SetFailsafeLocked` | main/ecu_command.c:48-52 | only the lock changes |
| `Command.TxQueue.SendToBack` | main/task_tx.c:53-70 | appended if there is room for it among eight, otherwise refused unchanged |
| `Command.TxQueue.SendToFront` | main/failsafe.c:58-63 | the same at the front |
| `Command.OverwriteRefinesQueue` | main/task_rx.c:153-168 | with the lock fixed, applying only the last request gives the same AUTO or not-AUTO and the same committed command as applying every request in order |
| `Command.OverwriteModeExactly` | main/task_rx.c:145-150 | the mode itself is the same if and only if the last request is accepted or the earlier ones leave the mode as it was |
| `Command.OverwriteLosesMode` | main/task_rx.c:145-150 | MANUAL then AUTO under a lock: the mode differs |
| `FailsafeLine.LineLatch.TripLine` | main/failsafe_line.c:12-20 | latched, poll count cleared, TRIP only on the change |
| `FailsafeLine.LineLatch.OnEdge` | main/failsafe_line.c:22-26 | an edge is an opening |
| `FailsafeLine.LineLatch.OnLevel` | main/failsafe_line.c:28-45 | an open level trips; the second closed level in a row unlocks |
| `FailsafeLine.LatchHistory` | main/failsafe_line.c:12-45 | after any history, latched if and only if one of the last two events was an edge or an open level |
| `FailsafeLine.ActionsAlternate` | main/failsafe_line.c:12-45 | TRIP and UNLOCK strictly alternate from TRIP, and their difference is one exactly while latched |
| `Pid.Controller.constructor` | main/pid.c:12-28 | integral and error start at zero, and a time step that is not positive is replaced |
| `Pid.Controller.Reset` | main/pid.c:41-47 | integral and error back to zero, gains kept |
| `Pid.Controller.Compute` | main/pid.c:49-91 | result, integral and error are those of the specified step |
| `PidSum.ReturnedExactly` | main/pid.c:63-90 | for all gains and all runs of errors from a fresh controller: within the limits it returns kp e_n + ki dt (kept errors + e_n) + kd (e_n - e_{n-1}) / dt, beyond one of them that limit; the integral is dt times the errors kept, those that push further beyond a limit being left out |
| `PidSum.ReturnedUnsaturated` | main/pid.c:63-90 | as long as no sum passes a limit, the sum is over all errors, and the integral is dt times it |
| `PidSum.DefaultInNumbers` | main/pid.h:8-13 | with the default gains the sum is 2 e_n + 0.08 (kept errors + e_n) + 0.2 (e_n - e_{n-1}), between 0 and 255 |
| `PidSum.FirstOutput` | main/pid.c:49-91 | an error of 64 returns 145.92 from a fresh controller |
| `Pid.IntegralStaysBounded` | main/pid.c:63-90 | for gains of the right sign and bounded errors, every run of samples and resets keeps the integral between (outMin + kd/dt lo)/ki and (outMax + kd/dt hi)/ki |
| `Pid.DefaultIntegralBounds` | main/pid.h:8-13 | with the default gains and errors in [-242, 220] the integral stays in [-60.5, 373.75] |
| `Pid.OutputNonIncreasing` | main/pid.c:63-90 | under a constant overspeed the output never rises from the second sample on |
| `Pid.RecoveryOfRun` | main/pid.c:75-90 | after any run, a constant overspeed e brings the output to zero for good within n + 2 samples once n e reaches 3737.5, and it never rises on the way from the second sample |
| `Ecu.Dispatch` | main/task_control.c:150-184 | exactly one of four counters moves, by one; setpoint and speed change only with their counter, to the payload's value within its bounds |
| `EcuLock.LockFollowsLatch` | main/failsafe.c:91-109 | in every reachable state lock and line latch agree, except in the two windows where the latch leads, and locked implies not AUTO and a zero command |
| `EcuLock.LockFollowsLine` | main/failsafe.c:187-234 | in every run, outside those windows, locked if and only if one of the last two line events was an opening |
| `EcuLock.AutoNeedsUnlockThenRequest` | main/ecu_command.c:13-21 | from locked to AUTO there is an unlock step and, later, a request for AUTO tried while unlocked |
| `EcuRequests.LastRequestWins` | main/task_rx.c:140-168 | in every run the requests posted are those of the frames received, the last one waits until taken, those tried are at increasing positions among them, each the last posted when taken, and the ones skipped are as many as those really overwritten |
| `EcuRequests.RequestSteps` | main/task_rx.c:166-167 | the write replaces whatever waits, and control takes what waits |
| `EcuRequests.TryExactly` | main/task_control.c:120-128 | a request sets the mode, unless it asks for AUTO under a lock; then it is counted as refused |
| `EcuRequests.BatchIsRefined` | main/task_rx.c:145-150 | in every run, trying the one request left of those posted since the last taken gives the AUTO or not-AUTO, and the command, of trying them all in order |
| `EcuOutput.CommandsKeepTheirOrder` | main/task_tx.c:66-69 | in every run the commands handed to the UART, in flight and queued are those enqueued, in critical-section order, despite alarms at the front |
| `EcuOutput.EntryStops` | main/failsafe.c:79-85 | a failsafe entry leaves OFF, zero, locked for the line, and queues zero if there is room |
| `EcuOutput.StoppedStaysStopped` | main/task_control.c:198-211 | out of AUTO, whatever control had sampled or computed before, only zeros are enqueued until a request for AUTO is accepted |
| `EcuOutput.FailsafeResidue` | main/failsafe.c:74-85 | after an entry the UART is handed the commands queued or in flight then, at most nine, or eight if OUTPUT(0) was enqueued, in order, and then only zeros |
| `EcuDelay.ZeroKeepsItsPlace` | main/failsafe.c:58-63 | the OUTPUT(0) of an entry stays directly behind the earlier commands; only alarms pushed since add to the messages ahead of it |
| `EcuDelay.ZeroLeavesInTime` | main/main.c:20 | once more than eight messages and one for each alarm pushed since have been handed to the UART, so has OUTPUT(0), directly behind the earlier commands |
| `EcuAlarm.AlarmIsFirst` | main/failsafe.c:58-63 | pushing an alarm puts it in front of everything queued |
| `EcuAlarm.AlarmGoesNext` | main/failsafe.c:44-64 | in any run after the push the next message taken is an alarm: only what was handed over before, and one message in flight, is ahead of it |
| `EcuWitness.SevenQueuedInARun` | main/failsafe.c:79-85 | a run to an entry with a message in flight and seven queued, so OUTPUT(0) is the ninth |
| `EcuResponse.EdgeStopsInTime` | main/failsafe.c:206-222 | from every reachable state with an edge signalled, within 15 steps of task_failsafe the edge is taken and the ECU locked, at zero and out of AUTO, in OFF if the line had been closed, whatever the other tasks do |
| `EcuWitness.EdgeLocksInARun` | main/failsafe.c:214-220 | a run in which an edge signalled to the waiting task locks the ECU in its next two steps |
| `EcuPass.DuePassReadsEverything` | main/failsafe.c:206-233 | an edge does not displace the poll: a due pass sees the edge, if any, then the level, and leaves OFF if the last stamp is 200 ticks old |
| `EcuControl.RequestIsTheFold` | main/task_control.c:91-106 | in every run the request to commit is the PID folded, from fresh, over the samples of the current stretch of AUTO cycles, or zero |
| `EcuDrive.RequestInNumbers` | main/task_control.c:187-195 | in every run the request of a cycle is zero outside AUTO, and in an AUTO stretch the PID sum, in numbers, over the errors of that stretch, the last being that of the last plausible setpoint and speed dispatched |
| `EcuDrive.CommitExactly` | main/ecu_command.c:28-34 | a commit sets the request in AUTO and zero otherwise, and enqueues that value at the back if fewer than eight messages wait |
| `EcuDrive.SampleExactly` | main/task_control.c:96-106 | a cycle samples the mode of the ECU, resets the PID if it has changed, and computes in AUTO only |
| `EcuDrive.ReadExactly` | main/task_control.c:192-194 | the sample computed is the setpoint and the speed read |
| `EcuDrive.EveryCommandIsExplained` | main/task_control.c:91-110 | in every run each command ever enqueued was enqueued by one step: a failsafe entry with zero, or a commit with the PID sum of its stretch if in AUTO and zero otherwise |
| `EcuWitness.MotorIsDrivenInARun` | main/task_control.c:91-110 | a run from reset in which a setpoint of 64 makes 145.92 the first command |
| `EcuControl.UnsampledFailsafeKeepsIntegral` | main/task_control.c:96-100 | a failsafe lifted within one cycle leaves the integral as it was |
| `EcuWitness.IntegralSurvivesInARun` | main/task_control.c:96-100 | a run, from reset, in which an integral of 6.4 survives a silence failsafe |
| `EcuControl.ControllerStaysBounded` | main/task_control.c:150-195 | in every run setpoint, speed, integral and request stay within their bounds |
| `EcuControl.CommandsAreInRange` | main/pid.c:75-85 | every command ever enqueued is in [0, 255] |
| `EcuSilence.PollTripsExactly` | main/failsafe.c:118-135 | a poll in any run, with any steps of the other tasks in it, trips if and only if the mode it sampled is not OFF and either a frame that arrived after the counter was read is stamped before the stamp is read, or the stamp is at least 200 ticks old; across a wrap of the counter the age modulo 2^32 decides |
| `EcuSilence.StampInWindow` | main/failsafe.c:128-129 | between two reads of task_failsafe the stamp passes the reading exactly by a frame that arrived later |
| `EcuSilence.TripsExactly` | main/failsafe.c:130 | on times, the test is whether the age of the stamp is at least 200 ticks modulo 2^32, which short of a wrap means that old, or newer than the reading |
| `EcuSilence.FreshFrameTrips` | main/failsafe.c:128-130 | from every poll that sampled a mode other than OFF while a frame is in hand, five steps trip on that frame at the tick of its stamp |
| `EcuWitness.FreshFrameTripsInARun` | main/failsafe.c:128-130 | such a run from reset |
| `EcuSilence.DrainedInTime` | main/task_control.c:120-137 | in silence every pending mode request has been tried after 40 steps of control |
| `EcuSilence.SilenceStops` | main/failsafe.c:118-135 | in silence, after those steps, a poll that starts 200 ticks after the last frame leaves OFF, in every interleaving |
| `EcuSilence.SilenceKeepsOff` | main/failsafe.c:118-135 | OFF then stays until a frame is accepted |
| `EcuSilence.TimelyAfter` | main/task_rx.c:190 | in every run the stored stamp is the tick counter of its time, stamps are in order and none lies in the future |
| `EcuSilence.UartLatchHistory` | main/failsafe.c:118-135 | in every run the UART latch is set if and only if the last poll to find silence, or the ECU resumed, found silence |
| `EcuBalance.CommandsAreConserved` | main/task_tx.c:85-128 | in every run commits and entries are commands enqueued or drops counted; commands enqueued are written, failed, in flight or queued; the nonce counts messages taken |
| `EcuBalance.FramesAreConserved` | main/task_rx.c:67-205 | in every run each START, valid frame and queued frame is in exactly one counter, in hand, or among the at most 16 waiting |
| `EcuBalance.OverwritesAreOvercounted` | main/task_rx.c:161-167 | in every run the counter is the requests really overwritten plus one for each request control takes between test and write |
| `EcuBalance.OverwriteCanBeOvercounted` | main/task_rx.c:161-167 | such a race happens from every state in which a request waits and control starts its cycle |
| `EcuWitness.OvercountInARun` | main/task_rx.c:161-167 | and from reset: a run that counts one overwritten request where none was |
| `EcuBalance.RequestsAndAlarmsAreConserved` | main/task_control.c:120-128 | in every run each posted mode request is overwritten, accepted, refused, taken or waiting, and each failsafe entry has sent its alarm, counted it as dropped, or is about to |
| `EcuReceive.ReceptionIsBatch` | main/task_rx.c:170-205 | in every interleaving parser, window, counters and accepted frames are those of the batch scanner on the bytes and silences read |
| `EcuDelivery.ReplaysAreRefused` | main/task_rx.c:185-189 | in every interleaving exactly the reported frames that the window lets pass are accepted, their nonces advance by 1 to 32767 from zero, and the others are counted |
| `EcuDelivery.RouteExactly` | main/task_rx.c:153-197 | type 0x05 with the one byte 0, 1 or 2 is a request for OFF, MANUAL or AUTO and any other payload is counted; other types are queued behind at most 15, or counted as dropped |
| `EcuDelivery.DispatchExactly` | main/task_control.c:140-184 | which counter moves, and which value is stored, in terms of type byte, payload length and 32-bit pattern |
| `EcuDelivery.FramesKeepTheirOrder` | main/task_rx.c:183-197 | in every run the frames routed or in hand are those accepted from the bytes read; those dispatched, held and waiting are in order those of them put into the queue, that is all but the mode requests and the counted losses; setpoint and speed are those of the last plausible frame dispatched |
| `EcuDelivery.LineIsReceivedWhole` | main/task_rx.c:179-204 | in every interleaving exactly the frames of a fresh sender are accepted, with no error counted, if and only if the noise on the line is START-free |
| `EcuDelivery.DataReachesControl` | main/task_control.c:131-137 | and unless the queue overflowed, all of them but the mode requests are in order dispatched, held, waiting or in hand |
| `Tasks.ControlTask.ApplyPendingMode` | main/task_control.c:120-128 | takes the pending request, if any, and tries it |
| `Tasks.ControlTask.DispatchFrame` | main/task_control.c:150-184 | applies or counts one frame as the transition system does |
| `Tasks.ControlTask.DispatchPendingFrames` | main/task_control.c:131-137 | the loop empties the queue, frame by frame |
| `Tasks.ControlTask.EmitOutput` | main/task_control.c:198-211 | commits, and counts a command that did not fit |
| `Tasks.ControlTask.Cycle` | main/task_control.c:91-110 | one cycle left alone ends in the state that the steps of control reach at their next cycle |
| `Tasks.FinishIsRun` | main/task_control.c:91-110 | that state is reached by a run of control steps only |
| `Tasks.SettleIsRun` | main/failsafe.c:206-233 | the end of a pass of task_failsafe is reached by its steps only |
| `Tasks.DeliverIsRun` | main/task_rx.c:179-204 | the end of the handling of one input is reached by steps of task_rx only |
| `Tasks.FailsafeTask.SendAlarm` | main/failsafe.c:44-64 | alarm to the front, or counted as dropped |
| `Tasks.FailsafeTask.TriggerFailsafe` | main/failsafe.c:79-85 | the entry and then the alarm |
| `Tasks.FailsafeTask.ApplyLineAction` | main/failsafe.c:91-109 | carries out a line action as the steps do |
| `Tasks.FailsafeTask.PollUartSilence` | main/failsafe.c:118-135 | one poll as the steps do, UART latch included |
| `Tasks.FailsafeTask.Iterate` | main/failsafe.c:206-233 | one pass of the loop ends where the steps of the task end; it polls exactly when ten ticks have passed since the last poll on the wrapping counter |
| `Tasks.ReceiveTask.PostModeRequest` | main/task_rx.c:153-168 | rejects and counts, or counts and overwrites |
| `Tasks.ReceiveTask.Accept` | main/task_rx.c:184-189 | parser, window and counters after one byte, and whether a frame passed |
| `Tasks.ReceiveTask.OnInput` | main/task_rx.c:179-204 | one byte or silence, left alone, ends where the steps of the task end |
| `Tasks.TransmitTask.Pass` | main/task_tx.c:85-128 | takes the front message, puts its encoding under the next nonce and its type byte, 0x80, 0x85 or 0x83, in the frame buffer, from which a receiver reads the value of a command, and counts a written command |

## Left out

- FreeRTOS scheduling, priorities, the watchdog, drivers, logging, boot text and LEDs: a task may be
  delayed arbitrarily between any two steps.
- Execution times and milliseconds on the line: waiting is counted in messages and steps.
- Termination of the dispatch loop against a concurrent producer: `Tasks` drains a queue that nobody
  fills, and in `Ecu` the loop may go on while frames arrive.
- Pid.Controller.Compute: over the reals, without IEEE 754 rounding, so the guards against NaN and
  infinity in main/pid.c:59-61 and main/pid.c:71-73 have no counterpart. Payloads that are no number
  are rejected before, as in the code.
- The texts of alarms, the layout of STATS and the telemetry task, except that it may post at the
  back of the output queue at any time.
- NULL arguments other than the payload of the encoder, failures of the mutex, and the default
  branch of the parser switch, whose four states are all there are.
- Overflow of the 32-bit counters: they are natural numbers.
- Partial UART writes are written messages, as in the code, and writing is one step.
- Pid.RecoveryOfRun: stated for any n with n e at least 3737.5, the rounded-up quotient being the least.
- Tasks.TransmitTask.Pass: the caller supplies the raw bytes of the message; that they are those of the
  command value is a precondition, since commands are real numbers here and not every real is a float32.
- EcuSilence.SilenceStops: assumes less than 2^32 ticks between the last frame and the poll, about
  497 days at 100 ticks a second; beyond that the 32-bit difference starts again at zero.
- Command.OverwriteRefinesQueue: the lock does not change while the requests are applied.
- Tasks: the four bodies run without interruption there; their interleavings are those of `Ecu`.
