# Verified models of the algorithmic Zephyr samples

Most Zephyr sample programs are thin calls into drivers. A few contain real algorithms and
protocols; this project models those and proves what they are for. The constants of the samples
(number of philosophers, array length, session table size, queue depths, buffer sizes, numbers of
events) are parameters, so every statement holds for all sizes.

| modules | sample | main results |
|---|---|---|
| `PiSeries`, `PiSpigot`, `PiBounds`, `PiThread` | `samples/smp/pi` | exact conservation over a whole run, no 32-bit overflow up to LENGTH 53687, digits never too large and less than 1.52 units of the last group too small |
| `Dining`, `DiningProgress`, `DiningForks` | `samples/philosophers` | no deadlock and no two neighbours eating for every N >= 2, everyone can be brought to eat in at most 6 N + 4 steps, all five kinds of fork behave alike |
| `H4Parser`, `H4Uart` | `samples/bluetooth/hci_uart` | the interrupt handler delivers what a one-shot parser of the whole byte stream delivers, however the stream is cut |
| `ZperfTime`, `ZperfReceiver`, `ZperfFlows`, `ZperfReports`, `ZperfAccounting`, `ZperfJitter`, `ZperfPacing` | `samples/net/zperf` | flows do not disturb each other's statistics, whose report a flow is told, what the loss counters account for, when the jitter estimate is that of RFC 3550, no datagram earlier than its turn on an advancing clock, and how few and how many a test sends |
| `SlipCodec`, `SlipSerial` | `samples/net/wpan_serial` | round trip exactly for non-empty payloads that fit, self-synchronisation after any noise |
| `MetaIrqStats`, `MetaIrqPipeline`, `MetaIrqThreads` | `samples/scheduler/metairq_dispatch` | integer square root, an integer Popoviciu inequality with its exact exception, every message in exactly one place in every run, per-worker order, every run ends |
| `SpiHandoff`, `SpiProgress`, `SpiThreads` | `samples/bluetooth/hci_spi` | one owner of the bus in every interleaving, every accepted packet given to the bus once and right after its length was announced, which of them arrive, when messages can be received |

`Options`, `Bytes` and `MachineIntegers` are shared. Programs that work by changing state are
methods and classes here too (`PiThread.TestThread`, `DiningForks.Restaurant`, `H4Uart.HciUart`,
`ZperfReceiver.Receiver`, `ZperfPacing.UdpUpload`, `SlipSerial.SlipReceiver`, `SlipSerial.SlipBuffer`,
`MetaIrqStats.CalcStats`, `MetaIrqThreads.Pipeline`, `SpiThreads.SpiBus`). Each is tied to a
function of the old state, and the theorems are about that function. `SpiThreads` and
`MetaIrqThreads` write the thread functions as their loops, with other threads running between any
two statements, and prove that they go through exactly the states a fold of the steps gives, which
are states those theorems are about.

Threads are modelled as steps that may interleave in any order: one kernel call in the
philosophers and the pipeline, one assignment to a descriptor or one bus transfer in the SPI
sample. Clocks, UART data, buffer allocation, random targets and transfer results are inputs that
may be anything.

## Findings

Where the code does not do what its comments or names suggest, the code is modelled as it is.

- `time_delta` (`samples/net/zperf/src/zperf_internal.h:94-97`) is one tick short whenever the counter reads lower than before, and does not see full turns; `ZperfTime.TimeDeltaExact` says exactly when it is right. The duration in a report is such a difference.
- The receiver answers a datagram with a negative id with the report of the session last completed in the slot it finds or gives the flow, which may be another flow's (`ZperfReports.ForeignReport`). The answer is about the flow that asks exactly when that session was its own (`ZperfReports.NegativeIdAnswer`), and a slot under a new key keeps the foreign report (`ZperfReports.RepeatedReport`).
- The jitter update (`samples/net/zperf/src/zperf_udp_receiver.c:253`) takes a last transit time of 0 for "no datagram yet" and skips the sample, which section 6.4.1 of RFC 3550 does not (`ZperfJitter.SkippedSample`). It matters exactly when the deviation is 16 or more away from the estimate (`ZperfJitter.JitterIsFilter`).
- The arrival time is converted to microseconds after the cycle counter has wrapped (`samples/net/zperf/src/zperf_udp_receiver.c:249`), so it jumps back at every turn of the counter and the jitter estimate takes the jump for a deviation (`ZperfJitter.TurnedOver`; `ZperfJitter.JumpIsTurns` says how far, `ZperfJitter.HarmlessClocks` when it is harmless).
- The receiver prints `outorder` as packets lost and `error` as packets out of order (`samples/net/zperf/src/zperf_udp_receiver.c:226-231`). In the model the fields have the meaning the updates give them.
- The datagram that opens a session is received but not counted (`samples/net/zperf/src/zperf_udp_receiver.c:166-175`), so its id is booked as lost: ids 0, 1 and 2 in order give one loss (`ZperfAccounting.LosslessRun`). `error - outorder` is the number of ids below the highest one that were lost exactly when as many datagrams are repeated as the opening one is mistaken for a loss, once or not at all (`ZperfAccounting.SessionLosses`).
- The uploader can send a burst ahead of its rate on a clock that stands still between two time stamps (`ZperfPacing.StalledClockBursts`), and its correction loses its sign when one round takes more than half a turn of the counter longer than planned (`ZperfPacing.NextDelayExact` says exactly when), which makes it late, never early (`ZperfPacing.DelayLower`). A full turn of the counter between two rounds goes unseen and prolongs the test (`ZperfPacing.RateCap`).
- A SLIP payload longer than the receive buffer is not dropped whole: its last bytes, |p| modulo (capacity + 1) of them, are delivered as a packet (`SlipCodec.EncodeDecode`). Two END bytes resynchronise exactly when the decoder is not in an escape with a packet under way (`SlipCodec.TwoEndsSynchronise`); three always do.
- Twice the deviation computed by `calc_stats` exceeds the spread exactly when the samples are split evenly between two neighbouring values (`MetaIrqStats.DeviationBound`). The lowest value it reports is never above INT_MAX.
- A comment (`samples/philosophers/src/main.c:32-35`) says any number of philosophers should work. A single one asks for the same fork twice and is stuck for ever, except with mutexes (`DiningForks.LonePhilosopher`).
- `MAX_EVENTS + 1` messages are created, not `MAX_EVENTS` (`MetaIrqPipeline.RunsEnd`).
- When `spi_write` fails, the packet is released and lost, and `spi_send` still returns 0 (`samples/bluetooth/hci_spi/src/main.c:154-163`, `SpiProgress.SilentLoss`). All packets arrive exactly when no write failed (`SpiHandoff.TrafficIntact`).
- After the SPI host has asked to read while nothing is to be sent, the receiving thread waits for the next packet, and nothing is received until then (`SpiProgress.BlockedRun`). Those are exactly the states in which a message cannot be received (`SpiProgress.ReceivingNeedsUnblocked`).
- `bt_tx_thread` neither initialises nor clears the header it reads (`samples/bluetooth/hci_spi/src/main.c:168`), so a header exchange without an answer acts on the last answer, or on what the stack held before the first: it takes a message, or grants the bus, unasked (`SpiProgress.StaleHeader`, `SpiProgress.UninitialisedHeader`; `SpiHandoff.FailedPollActs` and `SpiHandoff.ActsOnHeader` say exactly when).

## Model

| member | source | states |
|---|---|---|
| PiSeries.WeightStep | samples/smp/pi/src/main.c:63-67 | the carry out of a cell, times its modulus, is worth what enters the next cell, so carries telescope |
| PiSeries.EulerTail | samples/smp/pi/src/main.c:53-58 | the series the array stands for grows, and everything after cell m is at most twice the next weight |
| PiSeries.BlockWeightDrop | samples/smp/pi/src/main.c:60-75 | fourteen cells are worth more than the four digits a pass emits: 2^14 > 10000 |
| PiSpigot.CellConserves | samples/smp/pi/src/main.c:63-67 | one cell: content and carry in equal remainder and carry out, weighted |
| PiSpigot.PassConserves | samples/smp/pi/src/main.c:63-67 | one pass multiplies the worth of the array by 10000 and loses nothing: it is the sum plus what stays behind |
| PiSpigot.RunConserves | samples/smp/pi/src/main.c:60-75 | over a whole run, digits, final carry and everything dropped with the last fourteen cells of each pass add up exactly to the initial worth |
| PiBounds.FirstPassBounds | samples/smp/pi/src/main.c:60-67 | in pass one no number before a division exceeds 40,000,000 and the pass leaves remainders behind |
| PiBounds.LaterPassBounds | samples/smp/pi/src/main.c:60-67 | in later passes the quotient never exceeds 20000, so nothing exceeds 20000 (2 n - 1) |
| PiBounds.SpigotBounds | samples/smp/pi/src/main.c:60-75 | the first value is at most 4000, every other at most 10001, the carry stays below 10000 |
| PiBounds.ResidueBound | samples/smp/pi/src/main.c:60-75 | everything dropped during a run is worth at most 228 units of the last carry, whatever the number of passes |
| PiThread.RunCell | samples/smp/pi/src/main.c:64-66 | the body of the inner loop in 32-bit integers, in place: no overflow, and remainder and carry are those of one cell |
| PiThread.RunPass | samples/smp/pi/src/main.c:63-67 | the inner loop in 32-bit integers, in place: no overflow, and array and sum are those of the pass function |
| PiThread.InitialArray | samples/smp/pi/src/main.c:53-58 | every cell but the last starts at 2000; the last one stays 0 |
| PiThread.TestThread | samples/smp/pi/src/main.c:50-75 | the whole thread in 32-bit integers for every LENGTH up to 53687: the values emitted are those of the spigot function |
| PiThread.InitialWorth | samples/smp/pi/src/main.c:53-58 | the array starts out worth 2000 times the partial sum of the series |
| PiThread.RunAccount | samples/smp/pi/src/main.c:57-75 | digits, carry below 10000 and residue of at most 228 account for the scaled partial sum exactly |
| PiThread.DigitsOfPi | samples/smp/pi/src/main.c:57-75 | the emitted digits, as one number, never exceed the scaled series and fall short of it by less than 1.52, however far beyond cell LENGTH - 1 the series is continued |
| Dining.ForkOrder | samples/philosophers/src/main.c:150-157 | the lower-numbered fork is taken first, and the two forks are those the thread is granted |
| Dining.StepKeepsInv | samples/philosophers/src/main.c:159-178 | every step keeps the agreement of program positions and fork holders, and moves nobody else |
| Dining.ReachableInv | samples/philosophers/src/main.c:140-180 | in every reachable state every fork is held by exactly the philosopher whose position says so |
| Dining.NeighboursNeverEatTogether | samples/philosophers/src/main.c:150-178 | no fork is in two hands and neighbours never eat at the same time, for every N >= 2 |
| Dining.WaitChainCorrect | samples/philosophers/src/main.c:150-178 | following waiter to holder climbs the fork numbers and ends at a philosopher who can step |
| Dining.NoDeadlock | samples/philosophers/src/main.c:150-178 | in every reachable state the chain of waits from anybody ends within N hops at somebody who can step |
| Dining.TakesLowerFirstDropsItLast | samples/philosophers/src/main.c:150-178 | in every reachable state, by fork number: the lower fork is waited for and held alone before the upper one is taken, and again after the upper one has been dropped, so it is dropped last; a step waits only for the fork it takes |
| DiningProgress.FreeFork | samples/philosophers/src/main.c:159-178 | any fork can be freed by steps of holders of that fork or higher ones only |
| DiningProgress.EveryoneCanEat | samples/philosophers/src/main.c:159-178 | from every reachable state every philosopher can be brought to eat within 6 N + 4 allowed steps |
| DiningForks.ForkInit | samples/philosophers/src/phil_obj_abstract.h:42-133 | each of the five kinds starts as a free fork |
| DiningForks.ForkRefines | samples/philosophers/src/phil_obj_abstract.h:42-137 | tokens plus holders is always one, a take gets through exactly when the fork is free, what it receives is MAGIC, no give, push or unlock is out of place |
| DiningForks.DropThenTake | samples/philosophers/src/phil_obj_abstract.h:77-135 | whatever they hold, a take from a stack or a LIFO undoes the drop before it, a FIFO gives out what it has held longest |
| DiningForks.KindsAgree | samples/philosophers/src/phil_obj_abstract.h:42-137 | whether a take gets through does not depend on the kind of fork |
| DiningForks.LonePhilosopher | samples/philosophers/src/main.c:150-178 | a single philosopher is stuck for ever after its first take, except on a mutex, with which it goes on for ever |
| DiningForks.Restaurant.constructor | samples/philosophers/src/main.c:201-228 | the table is set with free forks and starving philosophers |
| DiningForks.Restaurant.TakeFork | samples/philosophers/src/phil_obj_abstract.h:55-135 | take succeeds exactly when the abstract fork is free, its assertion holds, no other fork changes |
| DiningForks.Restaurant.DropFork | samples/philosophers/src/phil_obj_abstract.h:56-136 | drop by the holder leaves a free fork, no other fork changes |
| DiningForks.Restaurant.Step | samples/philosophers/src/main.c:159-178 | one step of the loop over real fork objects blocks exactly when the abstract step is not allowed and otherwise does exactly that step |
| DiningForks.Restaurant.RunAll | samples/philosophers/src/main.c:159-178 | under any interleaving the same steps get through for every kind of fork, and they form an abstract run |
| H4Parser.ParseAppend | samples/bluetooth/hci_uart/src/main.c:154-229 | parsing can stop anywhere and resume from the incomplete frame |
| H4Parser.ChunkingIndependence | samples/bluetooth/hci_uart/src/main.c:154-229 | however the byte stream is cut, incremental parsing gives the packets of the whole stream |
| H4Parser.FrameConsumed | samples/bluetooth/hci_uart/src/main.c:200-212 | a frame refused for lack of a buffer or of room costs exactly itself; parsing goes on right behind it |
| H4Parser.StreamRoundTrip | samples/bluetooth/hci_uart/src/main.c:108-229 | a stream of well-formed frames yields exactly the accepted ones, in order, unchanged |
| H4Parser.AclFrame | samples/bluetooth/hci_uart/src/main.c:131-152 | type byte 2, two bytes, a little-endian length and that many bytes are taken whole, and kept exactly when there is a buffer and they fit |
| H4Parser.CmdFrame | samples/bluetooth/hci_uart/src/main.c:108-129 | the same for type byte 1, two bytes and a one-byte length |
| H4Parser.OtherByte | samples/bluetooth/hci_uart/src/main.c:193-196 | any other byte where a frame should begin is skipped alone |
| H4Parser.Incomplete | samples/bluetooth/hci_uart/src/main.c:207-227 | of either frame, any beginning yields nothing and is all left over |
| H4Uart.HciUart.constructor | samples/bluetooth/hci_uart/src/main.c:156-157 | the handler starts between frames with nothing queued |
| H4Uart.HciUart.FifoRead | samples/bluetooth/hci_uart/src/main.c:83 | what one read of the UART may deliver: any part of the stream, possibly nothing |
| H4Uart.HciUart.H4Read | samples/bluetooth/hci_uart/src/main.c:75-99 | reads up to len bytes of the stream in order, waiting for the first min of them, and all of them while the UART delivers |
| H4Uart.HciUart.H4Discard | samples/bluetooth/hci_uart/src/main.c:101-106 | takes at most len and at most 33 bytes off the stream |
| H4Uart.HciUart.ReceiveHeader | samples/bluetooth/hci_uart/src/main.c:108-152 | reads one command or ACL header, learns the payload length and tries once for a buffer |
| H4Uart.HciUart.ReceivePayload | samples/bluetooth/hci_uart/src/main.c:207-227 | one turn inside a frame keeps the queue equal to what the bytes read so far parse to |
| H4Uart.HciUart.StartPacket | samples/bluetooth/hci_uart/src/main.c:175-205 | the start of a frame: type byte, header, buffer, room; an unknown type byte is skipped alone |
| H4Uart.HciUart.BtUartIsr | samples/bluetooth/hci_uart/src/main.c:154-229 | every interrupt keeps the queue equal to the one-shot parse of all bytes read, and reads something when there is something; it returns when there is nothing to receive or behind one byte of unknown type, and only then |
| H4Uart.HciUart.Interrupts | samples/bluetooth/hci_uart/src/main.c:154-229 | over any interrupts, reads and allocations the packets queued are those of the bytes read; enough interrupts queue those of the whole stream |
| ZperfTime.TimeDeltaMeasures | samples/net/zperf/src/zperf_internal.h:94-97 | within a turn of the counter it measures true time, less one tick exactly when the counter wrapped |
| ZperfTime.DeltaTurns | samples/net/zperf/src/zperf_internal.h:94-97 | over any time it loses the full turns, and one tick exactly when the reading is lower than the first |
| ZperfTime.TimeDeltaExact | samples/net/zperf/src/zperf_internal.h:94-97 | it is the true time exactly when less than a turn has passed and the counter did not wrap |
| ZperfReceiver.Receiver.GetSession | samples/net/zperf/src/zperf_session.c:60-106 | the searching loop finds the flow's slot or the first free one, writes its key there and nothing else |
| ZperfReceiver.Receiver.ResetStats | samples/net/zperf/src/zperf_session.c:144-158 | zeroes the statistics and start time of one slot |
| ZperfReceiver.Receiver.constructor | samples/net/zperf/src/zperf_session.c:160-170 | every slot starts unused with zero statistics |
| ZperfReceiver.Receiver.UdpReceived | samples/net/zperf/src/zperf_udp_receiver.c:142-282 | one datagram changes the table and is answered exactly as the receive function says |
| ZperfReceiver.Receiver.CountDatagram | samples/net/zperf/src/zperf_udp_receiver.c:244-277 | counter, length, jitter and id bookkeeping in the source's integers |
| ZperfFlows.ReceiveKeepsFindable | samples/net/zperf/src/zperf_session.c:60-106 | handing out a slot never takes a running session's slot nor hides it from its flow |
| ZperfFlows.OngoingStep | samples/net/zperf/src/zperf_udp_receiver.c:153-282 | a datagram of another flow leaves a running session untouched |
| ZperfFlows.FlowIsolation | samples/net/zperf/src/zperf_udp_receiver.c:153-282 | in every run a running session's statistics are the fold of the count step over its own flow's datagrams after the one that opened it |
| ZperfFlows.EndReport | samples/net/zperf/src/zperf_udp_receiver.c:176-216 | the end of a session is answered with the totals of exactly that session's datagrams after the opening one |
| ZperfReports.RepeatedReport | samples/net/zperf/src/zperf_udp_receiver.c:153-165 | asking again gives the same answer and changes nothing, whatever datagrams came in between, as long as none of them was given the slot |
| ZperfReports.ReportStep | samples/net/zperf/src/zperf_udp_receiver.c:176-216 | one datagram changes the report in a slot exactly when it ends the session running there |
| ZperfReports.SlotReport | samples/net/zperf/src/zperf_udp_receiver.c:153-282 | in every run the report in a slot is that of the session last completed there, with the totals of exactly its own datagrams after the opening one, whoever holds the slot now; the state for a last packet received is never entered |
| ZperfReports.NegativeIdAnswer | samples/net/zperf/src/zperf_udp_receiver.c:153-216 | in every run a negative id is answered with that report; the answer is about the flow that asks exactly when the session running in its slot, or else the last one completed there, was its own |
| ZperfReports.SlotState | samples/net/zperf/src/zperf_udp_receiver.c:153-282 | in every run a slot holds a running session exactly when the last datagram given it had an id that is not negative; so only a negative id ends a session and any other begins one where none is running |
| ZperfReports.RunningSinceEnd | samples/net/zperf/src/zperf_udp_receiver.c:153-282 | in every run, exactly when a datagram with such an id was given the slot after the last one that ended a session there |
| ZperfReports.SlotGiven | samples/net/zperf/src/zperf_session.c:60-106 | in every run a datagram is given a slot exactly when its flow has one or one is not running: the first of its flow, or else the first not running; it is answered exactly when it gets one and its id is negative |
| ZperfReports.ForeignReport | samples/net/zperf/src/zperf_udp_receiver.c:153-165 | a run in which that report is another flow's |
| ZperfAccounting.Balance | samples/net/zperf/src/zperf_udp_receiver.c:245-277 | next_id plus outorder equals counter plus error in every session; next_id is one above the highest id counted; outorder is the number of datagrams, modulo 2^32, that come after one with an id at least theirs |
| ZperfAccounting.LengthCounts | samples/net/zperf/src/zperf_udp_receiver.c:246 | length is the number of bytes in the datagrams counted, those after the opening one, modulo 2^64 |
| ZperfAccounting.LossCount | samples/net/zperf/src/zperf_udp_receiver.c:267-277 | error minus outorder is the number of ids below next_id not among the datagrams counted, exactly when none was counted twice |
| ZperfAccounting.SessionLosses | samples/net/zperf/src/zperf_udp_receiver.c:166-277 | over the whole session, opening datagram included: error minus outorder is the number of ids below next_id never received, plus one if the opening id is below next_id and not counted later, minus the repetitions; so it is that number exactly when these cancel out |
| ZperfAccounting.RunningSessionLosses | samples/net/zperf/src/zperf_udp_receiver.c:166-277 | the same for every running session of every run, from the datagram that opened it on and over its own flow only, while it has fewer than 2^32 datagrams |
| ZperfAccounting.LosslessRun | samples/net/zperf/src/zperf_udp_receiver.c:166-277 | a run in which ids 0, 1 and 2 arrive once and in order and one loss is counted |
| ZperfJitter.JitterStep | samples/net/zperf/src/zperf_udp_receiver.c:253-263 | one update is one step of the filter, rounded towards the old estimate, exactly when the last transit time is not 0 or the deviation is less than 16 from the estimate |
| ZperfJitter.DeviationIsSpacing | samples/net/zperf/src/zperf_udp_receiver.c:249-259 | the source's deviation differs from the true spacing by at most the jump of its arrival times plus 1; where the true spacing is 0 it is that jump, up to 1 |
| ZperfJitter.JumpIsTurns | samples/net/zperf/src/zperf_udp_receiver.c:249 | the jump between two datagrams is what the turns of the counter between them are worth in microseconds, modulo 2^32 and up to 1 |
| ZperfJitter.HarmlessClocks | samples/net/zperf/src/zperf_udp_receiver.c:249 | there is none to speak of in a session within one turn of the counter, nor on a clock whose cycle is a whole number of microseconds |
| ZperfJitter.JitterIsFilter | samples/net/zperf/src/zperf_udp_receiver.c:248-265 | the estimate follows the filter over the source's deviations throughout a session exactly when every sample skipped after a transit time of 0 is less than 16 from the estimate |
| ZperfJitter.JitterTracksRfc | samples/net/zperf/src/zperf_udp_receiver.c:248-265 | then it stays within 15 of the filter of section 6.4.1 of RFC 3550 over the source's deviations, and within 16 plus the largest jump of that over the true spacings, both in exact arithmetic, and below the largest deviation |
| ZperfJitter.SkippedSample | samples/net/zperf/src/zperf_udp_receiver.c:253 | a session whose estimate stays 0 and should be 100000 |
| ZperfJitter.TurnedOver | samples/net/zperf/src/zperf_udp_receiver.c:249 | a session at 100 MHz with a turn of the counter whose estimate is 2684354 and should be 0 |
| ZperfPacing.NextDelayExact | samples/net/zperf/src/zperf_udp_uploader.c:204-218 | the correction is the intended one exactly while the round took at most half a counter turn more than the period, or the delay makes up for it |
| ZperfPacing.AdjustDelay | samples/net/zperf/src/zperf_udp_uploader.c:204-218 | the correction in the source's u32 and s32 |
| ZperfPacing.Wait | samples/net/zperf/src/zperf_udp_uploader.c:264-266 | reads the clock until the delay has passed |
| ZperfPacing.UdpUpload | samples/net/zperf/src/zperf_udp_uploader.c:187-269 | the send loop sends at exactly the times of the upload function |
| ZperfPacing.WaitTakesDelay | samples/net/zperf/src/zperf_udp_uploader.c:264-266 | the wait ends only when the delay has passed in true time |
| ZperfPacing.LoopEndsInTime | samples/net/zperf/src/zperf_udp_uploader.c:269 | another round starts only while the duration has not passed |
| ZperfPacing.LoopStops | samples/net/zperf/src/zperf_udp_uploader.c:194-269 | the loop stops only because the duration has passed, a datagram could not be sent, or the readings of the clock ended during a wait |
| ZperfPacing.LoopSends | samples/net/zperf/src/zperf_udp_uploader.c:240-250 | every datagram counted was sent: the first failure ends the test |
| ZperfPacing.RateFloor | samples/net/zperf/src/zperf_udp_uploader.c:187-269 | on a clock read often enough a test sends at least duration / (period + 2 g) datagrams, g being the longest gap between readings |
| ZperfPacing.NotLate | samples/net/zperf/src/zperf_udp_uploader.c:187-269 | on such a clock datagram k leaves at most period + g + k (period + 2 g) after the start |
| ZperfPacing.DelayLower | samples/net/zperf/src/zperf_udp_uploader.c:204-218 | after any gap whatever, one correction moves the end of the wait on by at least a period unless the time stamp is repeated |
| ZperfPacing.Pacing | samples/net/zperf/src/zperf_udp_uploader.c:187-269 | on every monotone clock datagram k leaves no earlier than k periods after the start, less one for each repeated time stamp |
| ZperfPacing.NeverEarly | samples/net/zperf/src/zperf_udp_uploader.c:187-269 | on a clock that advances between readings no datagram is early |
| ZperfPacing.RateCap | samples/net/zperf/src/zperf_udp_uploader.c:187-269 | on such a clock a test never sends more than duration / period + 2 datagrams, plus those of the full turns of the counter, which it does not see |
| ZperfPacing.DelayStaysSmall | samples/net/zperf/src/zperf_udp_uploader.c:204-218 | on a clock read often enough the delay stays within two periods, and within one after the first datagram |
| ZperfPacing.NoDrift | samples/net/zperf/src/zperf_udp_uploader.c:204-218 | on such a clock, while the delay is positive, waits end exactly one period apart, plus one tick for each round in which the counter turned over |
| ZperfPacing.StalledClockBursts | samples/net/zperf/src/zperf_udp_uploader.c:205-212 | a run on a stalled clock that sends ahead of its rate |
| ZperfPacing.LongPeriodIsEarly | samples/net/zperf/src/zperf_udp_uploader.c:206-218 | for every period of 2^31 ticks or more an advancing clock on which a datagram leaves early |
| ZperfPacing.PacingNeedsShortPeriod | samples/net/zperf/src/zperf_udp_uploader.c:187-269 | no datagram is early on any advancing clock exactly when the period is below 2^31 ticks |
| SlipCodec.EncodedShape | samples/net/wpan_serial/src/main.c:46-47 | END occurs only as the last byte and an encoding is at most 2 n + 1 bytes |
| SlipCodec.EncodeCodes | samples/net/wpan_serial/src/main.c:324-355 | 192 is written as 219 220, 219 as 219 221, any other byte as itself, and 192 follows the last one |
| SlipCodec.RunAppend | samples/net/wpan_serial/src/main.c:128-157 | decoding can be cut anywhere |
| SlipCodec.DataByte | samples/net/wpan_serial/src/main.c:104-123 | a byte other than 192 and 219 is appended to the packet, or begins one if it can be allocated; where it does not fit, the packet and the byte are dropped |
| SlipCodec.EscapedByte | samples/net/wpan_serial/src/main.c:77-123 | 219 220 and 219 221 store 192 and 219 in the same way |
| SlipCodec.EndByte | samples/net/wpan_serial/src/main.c:91-97 | 192 delivers the packet, if there is one |
| SlipCodec.BadEscape | samples/net/wpan_serial/src/main.c:64-89 | 219 before any byte but 220 and 221 discards everything up to and including the next 192, whatever can be allocated; nothing is delivered and the packet before it is kept |
| SlipCodec.ThreeEndsSynchronise | samples/net/wpan_serial/src/main.c:64-98 | after anything, three ENDs leave the decoder ready with no packet pending |
| SlipCodec.TwoEndsSynchronise | samples/net/wpan_serial/src/main.c:70-98 | two ENDs leave the decoder ready with no packet pending exactly when it was not in an escape with a packet under way |
| SlipCodec.TwoEndsDoNot | samples/net/wpan_serial/src/main.c:83-86 | a run in which they do not |
| SlipCodec.EncodeDecode | samples/net/wpan_serial/src/main.c:64-157 | what a payload of any length comes out as, including those too long for the buffer |
| SlipCodec.RoundTrip | samples/net/wpan_serial/src/main.c:64-157 | a payload comes back once and whole exactly when it is not empty and fits; the decoder is ready again in every case |
| SlipCodec.StreamRoundTrip | samples/net/wpan_serial/src/main.c:64-157 | any list of such payloads comes back as it was |
| SlipCodec.SelfSynchronisation | samples/net/wpan_serial/src/main.c:64-157 | after any bytes and allocation failures, three ENDs and any list of such payloads, exactly that list is delivered |
| SlipCodec.DeliveredFit | samples/net/wpan_serial/src/main.c:104-152 | on any input every packet delivered is non-empty and fits the buffer |
| SlipSerial.SlipReceiver.constructor | samples/net/wpan_serial/src/main.c:57-60 | the decoder starts in the normal state with no packet |
| SlipSerial.SlipReceiver.ProcessByte | samples/net/wpan_serial/src/main.c:64-126 | one byte changes state and packet as the decoder step says; it reports the end exactly on END in the normal state |
| SlipSerial.SlipReceiver.Interrupt | samples/net/wpan_serial/src/main.c:128-157 | the packets queued are those of the decoder run over all bytes read |
| SlipSerial.SlipBuffer | samples/net/wpan_serial/src/main.c:324-355 | writes exactly the encoding at the start of the buffer, within 2 n + 1 bytes, and nothing after it |
| MetaIrqStats.Isqrt | samples/scheduler/metairq_dispatch/src/main.c:76-85 | r r <= n < (r + 1)^2 for every 64-bit n, with no overflow of the shift or the square |
| MetaIrqStats.MeanProperties | samples/scheduler/metairq_dispatch/src/main.c:100 | the mean lies between the extremes and is the nearest whole number to the true mean, the upper one in a tie |
| MetaIrqStats.Popoviciu | samples/scheduler/metairq_dispatch/src/main.c:102-106 | four times the sum of squared deviations from the rounded mean is at most n (spread^2 + 1) |
| MetaIrqStats.DeviationBound | samples/scheduler/metairq_dispatch/src/main.c:87-109 | twice the deviation is at most the spread plus one, and exceeds the spread exactly for an even split between two neighbouring values |
| MetaIrqStats.DeviationIsRoot | samples/scheduler/metairq_dispatch/src/main.c:102-108 | the deviation is the rounded-down root of the rounded mean of the true squared differences, despite the 32-bit cast and the 64-bit sum |
| MetaIrqStats.DeviationModulo | samples/scheduler/metairq_dispatch/src/main.c:102-108 | in every case, overflow included, the deviation is the root of the rounded mean of the squared 32-bit differences modulo 2^64 |
| MetaIrqStats.Extremes | samples/scheduler/metairq_dispatch/src/main.c:92-98 | the first loop finds the extremes (the lowest capped at INT_MAX) and the sum |
| MetaIrqStats.Squares | samples/scheduler/metairq_dispatch/src/main.c:102-106 | the second loop accumulates the squared deviations in 64 bits |
| MetaIrqStats.CalcStats | samples/scheduler/metairq_dispatch/src/main.c:87-109 | lowest, highest, mean and deviation are those of the samples, in the source's integer types |
| MetaIrqPipeline.StepKeepsInv | samples/scheduler/metairq_dispatch/src/main.c:48-71 | every step of timer, MetaIRQ thread or worker keeps conservation, order, targets and queue depths |
| MetaIrqPipeline.ExactlyOnePlace | samples/scheduler/metairq_dispatch/src/msgdev.c:54-74 | in every reachable state each message created is in exactly one of device queue, dispatch, a worker's queue, processing, finished, dropped at either queue; numbers are 0, 1, 2, ... and at most MAX_EVENTS + 1 |
| MetaIrqPipeline.WorkersSeeOrder | samples/scheduler/metairq_dispatch/src/main.c:54-70 | a worker gets only its own messages, in strictly increasing order, all older than those on their way; no queue is over its depth |
| MetaIrqPipeline.ReachesItsTarget | samples/scheduler/metairq_dispatch/src/main.c:61-69 | a message has reached its target exactly when it is neither on its way nor dropped |
| MetaIrqPipeline.ProcessedOnce | samples/scheduler/metairq_dispatch/src/main.c:136-139 | no number is processed twice by anybody, so the report is made at most once |
| MetaIrqPipeline.NoLossWithoutOverload | samples/scheduler/metairq_dispatch/src/main.c:64-69 | nothing is dropped for a worker that has received less than QUEUE_DEPTH messages, nor at the device while it could hold all messages made |
| MetaIrqPipeline.LostExactlyWhenFull | samples/scheduler/metairq_dispatch/src/msgdev.c:54-74 | in every reachable state a new message, for worker random modulo THREADS, is lost exactly when the device queue is full, and a dispatched one exactly when its target's queue is; otherwise it is last in that queue, and no other event makes or loses any |
| MetaIrqPipeline.StuckMeansDone | samples/scheduler/metairq_dispatch/src/main.c:169-216 | nothing can happen exactly when the timer is off and everything is empty |
| MetaIrqPipeline.RunsEnd | samples/scheduler/metairq_dispatch/src/msgdev.c:54-74 | every run has at most 5 (MAX_EVENTS + 1) steps, and at its end each of the MAX_EVENTS + 1 messages is finished by its target or dropped |
| MetaIrqThreads.Pipeline.constructor | samples/scheduler/metairq_dispatch/src/main.c:218-239 | empty queues and a timer about to expire |
| MetaIrqThreads.Pipeline.DevTimerExpired | samples/scheduler/metairq_dispatch/src/msgdev.c:54-74 | creates the next message, drops it when the device queue is full, re-arms the timer up to MAX_EVENTS |
| MetaIrqThreads.Pipeline.MessageDevFetch | samples/scheduler/metairq_dispatch/src/msgdev.c:103-108 | takes the oldest message of the device queue |
| MetaIrqThreads.Pipeline.MetaIrqPut | samples/scheduler/metairq_dispatch/src/main.c:61-69 | passes the message to its target or drops it |
| MetaIrqThreads.Pipeline.ThreadGet | samples/scheduler/metairq_dispatch/src/main.c:180 | a worker takes the oldest message of its queue |
| MetaIrqThreads.Pipeline.ThreadFinish | samples/scheduler/metairq_dispatch/src/main.c:193-214 | a worker finishes its message |
| MetaIrqThreads.Pipeline.Others | samples/scheduler/metairq_dispatch/src/main.c:218-239 | the timer and other threads running in between leave a thread's own progress alone, and the state is that of their possible steps in order |
| MetaIrqThreads.Pipeline.MetaIrqFn | samples/scheduler/metairq_dispatch/src/main.c:48-71 | the dispatching loop, with the others running in between, goes through exactly the states of the fold of its rounds, all reachable, and holds no message between rounds |
| MetaIrqThreads.Pipeline.ThreadFn | samples/scheduler/metairq_dispatch/src/main.c:179-215 | the worker loop, with the others running in between, goes through exactly the states of the fold of its rounds, all reachable, and forgets nothing it has finished |
| MetaIrqThreads.MetaIrqRound | samples/scheduler/metairq_dispatch/src/main.c:54-70 | each round of that fold takes the oldest message from the device queue, if there is one, and it ends up last in its target's queue or is lost |
| MetaIrqThreads.WorkerRound | samples/scheduler/metairq_dispatch/src/main.c:179-215 | each round of that fold finishes the oldest message the worker finds in its queue, if there is one, and nothing else |
| SpiHandoff.StepKeepsInv | samples/bluetooth/hci_spi/src/main.c:106-267 | every single statement of either thread keeps ownership, descriptors and traffic right |
| SpiHandoff.BusOwnership | samples/bluetooth/hci_spi/src/main.c:135-161 | the two semaphores and the two owners always sum to one; at every transfer tx and rx are as the owner set them; no semaphore is given while full |
| SpiHandoff.TrafficIntact | samples/bluetooth/hci_spi/src/main.c:134-157 | in every run accepted packets are given to spi_write once, in order, each right after an exchange in which the host was told its length and asked to read; those whose one write failed are lost, exactly those; messages handled are what the host sent |
| SpiHandoff.WrittenOnRequest | samples/bluetooth/hci_spi/src/main.c:144-154 | in every run a packet is written only right after an exchange of the sender that clocked out 02 02 00, its length and 00, and was answered with 0x0b |
| SpiHandoff.SenderPollEnds | samples/bluetooth/hci_spi/src/main.c:144-149 | in every reachable state the sender's polling ends exactly at an exchange that succeeds with 0x0b as its first byte |
| SpiHandoff.ReceiverPollEnds | samples/bluetooth/hci_spi/src/main.c:188-204 | an answer to the receiving thread leads to a grant if its first byte is 0x0b, to a message if it is 0x0a, and to another exchange otherwise |
| SpiHandoff.HeaderHoldsLastAnswer | samples/bluetooth/hci_spi/src/main.c:168-197 | in every run the thread's header holds the last answer of the host, or before any what the stack held |
| SpiHandoff.ActsOnHeader | samples/bluetooth/hci_spi/src/main.c:188-215 | a message is received, or the bus granted, only while that asks for it: because the exchange before brought that answer, or because it brought none and found it still there |
| SpiHandoff.FailedPollActs | samples/bluetooth/hci_spi/src/main.c:188-197 | a header exchange without an answer ends the polling exactly when the last answer, or without one what the stack held before, asks for something |
| SpiThreads.SpiBus.constructor | samples/bluetooth/hci_spi/src/main.c:103-104 | both semaphores start empty and the receiving thread owns the bus, whatever its header buffer holds |
| SpiProgress.NeverBothBlocked | samples/bluetooth/hci_spi/src/main.c:197-202 | the threads never wait for each other: no thread can take a step exactly when the receiving thread has granted the bus and there is nothing to send |
| SpiProgress.EveryPacketCanBeWritten | samples/bluetooth/hci_spi/src/main.c:138-161 | from every reachable state at most 21 steps of the threads, with a host that asks to read, complete the packet being sent; it has reached the host exactly if its write succeeded |
| SpiProgress.SilentLoss | samples/bluetooth/hci_spi/src/main.c:154-163 | a run in which a packet is accepted, the result is 0 and the host never gets it |
| SpiProgress.EveryMessageCanBeReceived | samples/bluetooth/hci_spi/src/main.c:182-229 | from every state that is not blocked at most 34 steps, without another packet to send, end with the host's message handled |
| SpiProgress.ReceivingNeedsUnblocked | samples/bluetooth/hci_spi/src/main.c:197-202 | in a reachable state the host's message can be received without another packet to send exactly when the bus is not granted, or about to be, with nothing to send; otherwise nothing at all is handled until there is a packet |
| SpiProgress.BlockedRun | samples/bluetooth/hci_spi/src/main.c:197-202 | such a state is reached when the host asks to read before there is a packet |
| SpiProgress.StaleHeader | samples/bluetooth/hci_spi/src/main.c:188-215 | a run in which a second message is taken after a failed header exchange |
| SpiProgress.UninitialisedHeader | samples/bluetooth/hci_spi/src/main.c:168-215 | a run in which a message is taken without any answer of the host, because of what the stack held |
| SpiThreads.SpiBus.Others | samples/bluetooth/hci_spi/src/main.c:106-267 | other threads running in between leave everything alone while the sender owns the bus, and the receiving thread's buffers and descriptors while it does; the state is that of their possible steps in order |
| SpiThreads.SpiBus.SpiSend | samples/bluetooth/hci_spi/src/main.c:106-164 | the whole function with the other thread running in between, equal to the fold of its turns: an unknown type or a packet over 255 bytes is refused; otherwise the packet is written right after its length was announced and the host asked to read, and the bus given back, with the same result whether or not the write succeeded |
| SpiThreads.SpiBus.InstallHeaders | samples/bluetooth/hci_spi/src/main.c:140-143 | the assignments to the descriptors, undisturbed |
| SpiThreads.SpiBus.PollHost | samples/bluetooth/hci_spi/src/main.c:144-149 | header exchanges until the first one in which the host asks to read |
| SpiThreads.SpiBus.WritePacket | samples/bluetooth/hci_spi/src/main.c:151-161 | the packet is written and the bus given back |
| SpiThreads.SenderMoves | samples/bluetooth/hci_spi/src/main.c:134-163 | every turn of that fold leads on, except where the semaphore is down or the host has not asked to read |
| SpiThreads.SpiBus.BtTxThread | samples/bluetooth/hci_spi/src/main.c:182-267 | the thread's loop with senders running in between is equal to the fold of its turns, goes only through reachable states, and what it has handled is what the host sent |
| SpiThreads.SpiBus.PollForRequest | samples/bluetooth/hci_spi/src/main.c:188-197 | header exchanges, equal to the fold of their turns, until the host asks for something |
| SpiThreads.SpiBus.ReceiveMessage | samples/bluetooth/hci_spi/src/main.c:204-215 | one message is received and handled, or none when the transfer failed |
| SpiThreads.ReceiverMoves | samples/bluetooth/hci_spi/src/main.c:182-267 | every turn of that fold leads on, except where the semaphore is down or the header holds no request |

## Left out

- The kernel: semaphores, mutexes, stacks, queues, message queues and timers are modelled by what the samples rely on. Handing a message straight to a waiting thread is a put followed by a get.
- Printing, sleeping, priorities and the passing of real time; a thread that can go on may always go on.
- pi: that Euler's series, which the array stands for, converges to pi / 2. The statements compare the digits with the series itself.
- Formatting of pi's values into characters. Values can reach 10001, which prints as five characters.
- H:4: the transmit side, and events and SCO packets, which the handler does not accept. Waiting for a header is a busy loop in the interrupt handler; where no more bytes come the model stops and says so.
- zperf: TCP, the shell, the client side of the final report, one of the two address families, printing, and the rate. The report's split of the length into two words (`samples/net/zperf/src/zperf_udp_receiver.c:200-202`) and its fixed fields are not part of the report here.
- zperf uploader: computing the packet period from the rate and the size asked for, which the source does before it clamps the size, the header fields, and the variant for the POSIX architecture, which waits a fixed time.
- ZperfPacing.RateFloor: assumes that nothing fails, that the clock is read until the test is over, and a test within one turn of the counter, besides what DelayStaysSmall assumes.
- ZperfPacing.DelayStaysSmall: assumes that twice the sum of packet period and longest gap between clock readings is below 2^31 ticks, because beyond that the source's correction loses its sign, as NextDelayExact shows. NoDrift assumes the same. Every pacing result assumes a period below 2^31 ticks; PacingNeedsShortPeriod shows that it is needed.
- ZperfJitter.JitterTracksRfc: excludes a deviation of exactly 2^31 microseconds, which the source cannot negate. JitterStep and JitterIsFilter exclude it too.
- ZperfAccounting.LossCount: assumes fewer than 2^32 datagrams, after which the counter wraps, as SessionLosses does; Balance holds without that. Datagrams lost after the highest id received are in none of the counters.
- wpan_serial: the radio, the commands carried in the packets, and the transmit thread.
- metairq_dispatch: latencies, processing times and their storage; `CalcStats` takes an array of explicit length. The random generator: a target is any number modulo the number of workers.
- MetaIrqStats.DeviationBound: assumes that the spread fits s32 and the squares fit u64, as the source's casts do.
- hci_spi: the contents of messages passed on to the Bluetooth stack, buffer allocation for them, the interrupt line, and aborting the receiving thread when the first event is refused, which its size rules out.
- Samples that only call drivers or stacks: sensors, displays, LEDs, Bluetooth services, MQTT, LwM2M, file systems. `samples/bluetooth/hci_rpmsg` and `samples/synchronization` are easier cases of the H:4 parser and the SPI hand-off.
