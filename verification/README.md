# protofish4 transfer core: a Dafny model

protofish4 moves one audio stream from a *tap* to a *sink* over UDP. The sink tees what arrives:
playback gets every frame at once and never waits; the cache gets a *reliable* copy, in order,
repaired by retransmission, ending in exactly one outcome (`Complete` or `Aborted`). This project
models the sans-IO state machines of both ends, composes them over a network that may lose,
duplicate, delay and reorder anything, and proves what the design rests on.

Each state machine appears twice. A class with mutable fields follows the code method by method;
every method is proved equal to a step function on a value (`ReceiverSpec`, `SenderSpec`,
`RetransSpec`, `GapSpec`, `DispatchSpec`, `ReplaySpec`). The theorems are about runs of those step
functions: every sequence of packets, ticks and reports, of any length and at any times.

| file | contents |
|---|---|
| `Types.dfy` | packet bodies, frames, events, configuration, the clock |
| `GapTracker.dfy` | which sequence numbers arrived, and which are missing |
| `ReceiverSpec.dfy`, `Receiver.dfy` | one step of the receiving half: as a function, and as the class |
| `ReceiverSteps.dfy` | what one step keeps and changes |
| `ReceiverRuns.dfy`, `ReceiverOutcomes.dfy`, `ReceiverPlayback.dfy`, `ReceiverNacks.dfy`, `ReceiverGiveUp.dfy`, `ReceiverAborts.dfy`, `ReceiverReports.dfy` | theorems over all runs of the receiver |
| `Retrans.dfy`, `Sender.dfy`, `Dispatch.dfy` | ring, sending half, and the seal-once dispatch, each as function and class |
| `SenderRuns.dfy` | theorems over all runs of the sending half |
| `System.dfy`, `SystemTheorems.dfy`, `RingTheorems.dfy`, `Nonces.dfy`, `Saturation.dfy` | both ends and the network; end-to-end theorems; the ring over whole runs; nonce uniqueness; what happens when the numbers run out |
| `Wire.dfy`, `WireLayout.dfy` | body codec, header, nonce, sealed datagram; the bytes at each offset, errors and directions |
| `Replay.dfy` | the replay window: a set, sixteen 64-bit words, and the refinement between them |

## Conventions

- Time is an integer number of nanoseconds; `Since` saturates at zero as `duration_since` does. No
  theorem assumes a monotone clock except `BoundedGiveUp`.
- A datagram is represented by its sequence number and body. `Wire.SealedRoundTrip` justifies this
  for every cipher whose decryption undoes encryption; authentication means that only packets that
  were sent are delivered.
- Sequence numbers of the tap saturate at 2^32 - 1 and control numbers wrap, as in the source. The
  receiver's numbers are unbounded naturals: its `contiguous + 1` and `have + 1` would overflow only
  at number 2^32 - 1, which a tap that pushed fewer than 2^32 - 1 frames never reaches. Theorems
  about the composed system assume that bound (`Short`), except `FinalSeqExact` and `NoncesUnique`,
  which are exact conditions over every run. `CopyWrongAtBound` and `SaturatedRunReusesNonce` reach
  the failing side with real runs.
- A socket failure is a parameter of the step: how many sends still succeed (`sends`). The buffer
  occupancy put into an acknowledgement is an arbitrary number.
- A closed receiver may go on being fed packets and ticks, which covers more runs than the binding
  produces.

## Where the code and its comments differ

The model follows the code.

- `ReplayWindow::shift_by` forgets the old highest counter when the window jumps by exactly 1024,
  while `accept` still admits a counter 1024 back. `ExactJumpRepeats` gives the failing family;
  `AcceptedTwiceIff` gives the exact condition.
- `GapTracker::abandon` drops the numbers above the prefix but does not move the prefix, so a number
  can be played a second time after the reliable stream ended: `PlayedTwice` gives such runs for
  every configuration, and `PlayCountExact` says which numbers, and only which, play twice.
- For the same reason a finished stream does not stay free of cost, as the comment in `finish_rel`
  has it: the tracker's set grows with every later arrival, without a cap (`AheadUncapped`). The
  reorder buffer and the request table do stay empty (`MemoryBounded`).
- `RetransRing::ack_through` raises `lost_below` although its comment calls acked frames not lost.
  `DiscardJustified` shows that no acknowledged frame causes a false abort.
- The comment on `PacketKind::direction` says it is checked after decryption, never before; `open`
  checks it before decrypting (`WrongWay`).

## Model

| member | source | states |
|---|---|---|
| `GapSpec.AdvanceIsMaximal` | protofish4-proto/src/xfer/gap_tracker.rs:46-48 | the prefix stops at the first number not held; exactly the numbers it passed leave the set |
| `GapSpec.RecordCovers` | protofish4-proto/src/xfer/gap_tracker.rs:35-50 | recording adds exactly that number (zero never) to the numbers counted as arrived, keeps the tracker well formed, never moves prefix or maximum back |
| `GapSpec.WalkIsFirst` | protofish4-proto/src/xfer/gap_tracker.rs:67-81 | the bounded walk over an interval lists the smallest absent numbers, ascending, exactly min(limit, total) of them |
| `GapSpec.MissingIsFirstHoles` | protofish4-proto/src/xfer/gap_tracker.rs:67-81 | `missing(limit)` is the first min(limit, total) holes between prefix and largest held number, ascending, distinct; nothing when nothing is held |
| `GapSpec.FirstMissing` | protofish4-proto/src/xfer/gap_tracker.rs:67-81 | while anything is held, the number after the prefix is listed first |
| `GapTracking.GapTracker.Record` | protofish4-proto/src/xfer/gap_tracker.rs:35-50 | in-place record equals `GapSpec.Record`; the result says whether the number was new |
| `GapTracking.GapTracker.Fill` | protofish4-proto/src/xfer/gap_tracker.rs:71-74 | the inner loop moves exactly the next stretch of the walk into the output and stops at the held number or the limit |
| `GapTracking.GapTracker.Missing` | protofish4-proto/src/xfer/gap_tracker.rs:67-81 | the nested loop over the ordered set computes the walk of `MissingIsFirstHoles` |
| `GapTracking.GapTracker.Abandon` | protofish4-proto/src/xfer/gap_tracker.rs:89-93 | clears the held numbers and nothing else; prefix and maximum stay |
| `Types.ReceiverConfig.NackDelay` | protofish4-proto/src/config.rs:102-105 | attempt k waits table entry k, every attempt past the table its last entry, and 100 ms if the table is empty |
| `Receiver.XferReceiver.constructor` | protofish4-proto/src/xfer/receiver.rs:80-98 | starts in the initial state of the step functions |
| `Receiver.XferReceiver.FinishRel` | protofish4-proto/src/xfer/receiver.rs:293-305 | first call frees everything held and reports the outcome, later calls do nothing |
| `Receiver.XferReceiver.ReleaseContiguous` | protofish4-proto/src/xfer/receiver.rs:216-233 | the loop drains buffer, byte counter and request table together and stamps progress only if something was released |
| `Receiver.XferReceiver.CheckFinish` | protofish4-proto/src/xfer/receiver.rs:270-291 | state and events of the finish check |
| `Receiver.XferReceiver.OnData` | protofish4-proto/src/xfer/receiver.rs:180-214 | state and events of one data packet, in all five branches |
| `Receiver.XferReceiver.Handle` | protofish4-proto/src/xfer/receiver.rs:112-147 | state and events of one packet of any kind |
| `Receiver.XferReceiver.AskFor` | protofish4-proto/src/xfer/receiver.rs:244-259 | the request loop with its insert-or-update of the table and both early exits |
| `Receiver.XferReceiver.EmitNacks` | protofish4-proto/src/xfer/receiver.rs:235-268 | one request pass: one `SendNack`, an abort, or nothing |
| `Receiver.XferReceiver.MaybeAck` | protofish4-proto/src/xfer/receiver.rs:307-323 | when a progress report is appended and what it says |
| `Receiver.XferReceiver.Tick` | protofish4-proto/src/xfer/receiver.rs:151-178 | state and events of one tick |
| `ReceiverSteps.ReleaseKeeps` | protofish4-proto/src/xfer/receiver.rs:197-233 | after a new frame is buffered, release takes exactly the frames the prefix passed, in order, and restores the coupling: its early break is never taken |
| `ReceiverSteps.CheckFinishShape` | protofish4-proto/src/xfer/receiver.rs:270-291 | in a coupled state the finish check has nothing left to release; when it completes, acknowledges and closes |
| `ReceiverSteps.ReactDelta` | protofish4-proto/src/xfer/receiver.rs:112-178 | every step keeps the coupling; what it may do to arrivals, releases, endings, reports and playback |
| `ReceiverRuns.CouplingAlways` | protofish4-proto/src/xfer/receiver.rs:199-233 | over all runs, while streaming: `rel_released` = prefix, buffer keys = tracker's set, byte counter = sum of held payloads; releases are numbered 1, 2, 3, ... and each frame was delivered |
| `ReceiverRuns.MemoryBounded` | protofish4-proto/src/xfer/receiver.rs:197-214 | over all runs, while streaming buffer, tracker set and request table each hold at most `reorder_window` entries and bytes stay within `max_reorder_bytes`; afterwards buffer and table stay empty |
| `ReceiverRuns.AheadUncapped` | protofish4-proto/src/xfer/gap_tracker.rs:89-93 | for every n and every configuration a run whose reliable stream is finished and whose tracker holds n numbers |
| `ReceiverRuns.AckIsTrue` | protofish4-proto/src/xfer/receiver.rs:307-323 | every `SendAck(c, h)` of every run: all of 1..c arrived, h is the largest arrival, c <= h; also after abandonment |
| `ReceiverRuns.AcksAlwaysOrdered` | protofish4-proto/src/xfer/receiver.rs:307-323 | successive reports never decrease in either field and are at least `ack_interval` apart |
| `ReceiverOutcomes.EventsRanked` | protofish4-proto/src/xfer/receiver.rs:112-178 | the events of one step come in one fixed order and are exactly those the step accounts for |
| `ReceiverOutcomes.OutcomesDisciplined` | protofish4-proto/src/xfer/receiver.rs:270-305 | over all runs: at most one `RelFinished`, one `SendEndAck`, one `Closed`; no `Reliable` or `SendNack` after `RelFinished`; no `Closed` before it |
| `ReceiverPlayback.FirstArrivalPlays` | protofish4-proto/src/xfer/receiver.rs:180-195 | in Dual mode the first arrival of a number plays in that very step, whatever the reliable state |
| `ReceiverPlayback.PlaysAtMostTwice` | protofish4-proto/src/xfer/receiver.rs:180-195 | no number plays twice while the reliable stream runs, none more than twice in a run |
| `ReceiverPlayback.NeverPlaysAgain` | protofish4-proto/src/xfer/gap_tracker.rs:35-50 | once inside the prefix a number never plays again, however the run continues |
| `ReceiverPlayback.FinishForgets` | protofish4-proto/src/xfer/receiver.rs:293-305 | the step that finishes the reliable stream leaves nothing above the prefix in the tracker, whichever way it finishes |
| `ReceiverPlayback.PlayCountExact` | protofish4-proto/src/xfer/gap_tracker.rs:35-50 | over all Dual runs a number has played once if it arrived, and once more exactly if it was above the prefix at the finish and arrived again since |
| `ReceiverPlayback.PlaysExactlyWhen` | protofish4-proto/src/xfer/receiver.rs:180-188 | a data packet plays if and only if its number is new or currently lost from sight |
| `ReceiverPlayback.PlayedTwice` | protofish4-proto/src/xfer/gap_tracker.rs:89-93 | in every Dual configuration: frame 2, a keepalive giving up frame 1, frame 2 again plays frame 2 twice |
| `ReceiverNacks.AskFacts` | protofish4-proto/src/xfer/receiver.rs:244-259 | one pass asks for a missing number exactly when its backoff ran out, leaves all other entries alone, and gives up only on a spent or lost number |
| `ReceiverNacks.NackBudget` | protofish4-proto/src/xfer/receiver.rs:235-268 | over all runs: each number is asked for at most `max_nack_attempts` times, request k+1 at least `nack_delay(k)` after request k |
| `ReceiverNacks.RequestsExact` | protofish4-proto/src/xfer/receiver.rs:235-268 | over all runs a step asks for a number if and only if it is a tick the stream survives, the number is among the first 128 missing, and the backoff of its next attempt has run out, counted from its last request or an hour before it was first looked at; ascending |
| `ReceiverNacks.GapReallyUnrecoverable` | protofish4-proto/src/xfer/receiver.rs:244-264 | `UnrecoverableGap` only when a frame that never arrived, below one that did, was asked for exactly `max_nack_attempts` times; the lost-below exit is unreachable |
| `ReceiverGiveUp.BoundedGiveUp` | protofish4-proto/src/xfer/receiver.rs:151-178 | with a frame held above a hole that never fills and no backoff above an hour, any `max_nack_attempts` + 1 ticks spaced by the largest backoff leave the stream finished, whatever interleaves |
| `ReceiverAborts.StampsTrue` | protofish4-proto/src/xfer/receiver.rs:112-233 | over all runs the two timestamps are the time of the last packet and of the last release |
| `ReceiverAborts.AbortsExact` | protofish4-proto/src/xfer/receiver.rs:124-268 | over all runs, each if and only if, on a live stream: `PeerGone` at a tick past `idle_timeout` since the last packet; `Stalled` past `rel_stall_timeout` since the last release with the peer not gone; `UnrecoverableGap` at any other tick when a missing number looked at was asked for `max_nack_attempts` times; `BufferExhausted` at a new frame beyond the window or the byte budget; `SenderDiscarded` at a keepalive above the prefix; `NotAttempted` never |
| `ReceiverAborts.OverflowPrefix` | protofish4-proto/src/xfer/receiver.rs:197-209 | the prefix that distance is measured from is true: all of it arrived, the number after it did not |
| `ReceiverReports.NotesTrue` | protofish4-proto/src/xfer/receiver.rs:80-147 | over all runs the report time, the occupancy and the declared end are those of the history, and an acknowledged tail means closed |
| `ReceiverReports.PrefixAlways` | protofish4-proto/src/xfer/gap_tracker.rs:35-50 | over all runs the prefix is exact: all of it arrived and is in sight, the next number did not arrive or is lost from sight |
| `ReceiverReports.ReportsExact` | protofish4-proto/src/xfer/receiver.rs:307-323 | over all runs a packet or tick yields a `SendAck` if and only if the receiver is not closed even by this step, the last report is at least `ack_interval` old, and something arrived; it carries the prefix, the largest arrival and the last occupancy cut at 65535 |
| `ReceiverReports.ClosesExact` | protofish4-proto/src/xfer/receiver.rs:151-178 | over all runs a step emits `Closed` if and only if none was emitted and it either emits `SendEndAck` or is a tick past `idle_timeout`; and `SendEndAck` if and only if the finish check runs, none was emitted, and the prefix reached the declared end |
| `ReceiverReports.TailCloses` | protofish4-proto/src/xfer/receiver.rs:280-290 | `SendEndAck` in a trace implies `Closed` in it |
| `ReceiverReports.CompletesExact` | protofish4-proto/src/xfer/receiver.rs:270-278 | over all runs the stream completes if and only if it is live, a packet brings the prefix to the declared end, and nothing aborts it in that step |
| `RetransSpec.TrimIsLongestSuffix` | protofish4-proto/src/xfer/retrans.rs:36-44 | eviction keeps the longest suffix within both budgets, moves the watermark to the last evicted number, and never meets an empty ring over budget |
| `RetransSpec.PushKeeps` | protofish4-proto/src/xfer/retrans.rs:36-44 | after a push both budgets hold, the byte counter is exact, and each entry is held exactly when above the watermark |
| `RetransSpec.AckKeeps` | protofish4-proto/src/xfer/retrans.rs:55-67 | an acknowledgement removes exactly the entries it covers and raises the watermark |
| `RetransSpec.FindIsHolds` | protofish4-proto/src/xfer/retrans.rs:47-52 | lookup yields a datagram exactly when it is stored under that number |
| `Retrans.RetransRing.EvictOldest` | protofish4-proto/src/xfer/retrans.rs:86-93 | removes the oldest entry, its bytes, and raises the watermark; nothing on an empty ring |
| `Retrans.RetransRing.Push` | protofish4-proto/src/xfer/retrans.rs:36-44 | the in-place eviction loop computes the ring of `PushKeeps` |
| `Retrans.RetransRing.Get` | protofish4-proto/src/xfer/retrans.rs:47-52 | linear search returns the first entry under the number |
| `Retrans.RetransRing.AckThrough` | protofish4-proto/src/xfer/retrans.rs:55-67 | the in-place loop computes the ring of `AckKeeps` |
| `Sender.XferSender.PushFrame` | protofish4-proto/src/xfer/sender.rs:108-118 | refuses when the window is closed, else emits the frame under the next number |
| `Sender.XferSender.RecordSealed` | protofish4-proto/src/xfer/sender.rs:125-127 | files the sealed datagram in the ring and touches nothing else |
| `Sender.XferSender.Finish` | protofish4-proto/src/xfer/sender.rs:130-139 | emits `End` with the last number once, from streaming only |
| `Sender.XferSender.Collect` | protofish4-proto/src/xfer/sender.rs:158-167 | the stored datagrams among those asked for, in the order asked |
| `Sender.XferSender.Handle` | protofish4-proto/src/xfer/sender.rs:142-175 | state and events for `Ack` with pause hysteresis, `Nack`, `EndAck` and ignored kinds |
| `Sender.XferSender.Tick` | protofish4-proto/src/xfer/sender.rs:178-238 | timeouts and keepalives of every phase |
| `SenderRuns.RunRecalls` | protofish4-proto/src/xfer/sender.rs:45-67 | over all runs of the sending half every field but the ring is a reading of the log of moves and events |
| `SenderRuns.PushExact` | protofish4-proto/src/xfer/sender.rs:97-118 | over all runs a push is accepted if and only if the tap is streaming, the last occupancy outside the water marks was not the high one, and the last number is less than `max_outstanding` above the largest acknowledged; it carries the next number |
| `SenderRuns.FinishExact` | protofish4-proto/src/xfer/sender.rs:130-139 | over all runs a finish is accepted if and only if the tap is streaming, and declares the last number |
| `SenderRuns.TickExact` | protofish4-proto/src/xfer/sender.rs:178-238 | over all runs, each if and only if: `NoAck` when not done, nothing heard and the first accepted push too old; else `FinalizeTimeout` when finalizing too long; else a `Keepalive` with the watermark when finalizing or paused and the last control packet old enough |
| `SenderRuns.HearExact` | protofish4-proto/src/xfer/sender.rs:142-175 | completion is reported exactly for `EndAck`, nothing for an `Ack` or a packet of the other direction |
| `SenderRuns.TapIsRun` | protofish4-proto/src/xfer/sender.rs:69-244 | the tap of a composed run is a run of the sending half alone, so all of these apply to it |
| `Dispatch.TapSender.DispatchEvent` | protofish4/src/sender.rs:122-147 | seal, send, then record only a `Data` datagram that was sent; resends touch no cipher |
| `Dispatch.TapSender.Dispatch` | protofish4/src/sender.rs:119-149 | the loop over events stops at the first failure |
| `DispatchSpec.DispatchExact` | protofish4/src/sender.rs:119-149 | what leaves the socket is, in order, the datagrams of the events before the first that cannot be sent, as many as the socket takes; success if and only if every event encodes, none is a failure, and all were taken |
| `DispatchSpec.DispatchSplit` | protofish4/src/sender.rs:119-149 | dispatching a list in two parts is the first and then, if it succeeded, the second |
| `Dispatch.SinkEntry.SealReply` | protofish4/src/receiver.rs:411-419 | takes a control number on every call, before anything can fail |
| `Dispatch.SinkEntry.ApplyEvent` | protofish4/src/receiver.rs:331-406 | one event: a channel send, a dropped and counted playback frame, the first outcome, or a sealed reply |
| `Dispatch.SinkEntry.Apply` | protofish4/src/receiver.rs:329-408 | the loop over events: replies sealed in order, every `Reliable` frame to the cache, playback frames while there is room and the others counted, the first outcome only |
| `DispatchSpec.ApplySeals` | protofish4/src/receiver.rs:329-408 | the datagrams returned are exactly the `SendNack`, `SendAck` and `SendEndAck` events, in order, under consecutive control numbers |
| `DispatchSpec.ApplyPlays` | protofish4/src/receiver.rs:333-360 | playback gets exactly the first frames there is room for; the rest are counted, none is lost silently |
| `DispatchSpec.ApplyCaches` | protofish4/src/receiver.rs:361-402 | the cache gets exactly the `Reliable` frames in order; the outcome channel gets the first outcome |
| `DispatchSpec.ApplyNewest` | protofish4/src/receiver.rs:329-408 | the newest timestamp is the largest of the old one and those of the frames handled |
| `SystemTheorems.FinalSeqExact` | protofish4-proto/src/xfer/sender.rs:130-139 | the number `End` declares is the count of frames pushed if and only if fewer than 2^32 - 1 were pushed |
| `SystemTheorems.EndToEnd` | protofish4/tests/loopback.rs:3-5 | over all composed runs the `Reliable` events are a prefix of the pushed frames (same order, timestamps, bytes); once `Complete { final_seq }` is out, `final_seq` is the number pushed and the copy is whole |
| `SystemTheorems.ReliableTrace` | protofish4-proto/src/xfer/receiver.rs:216-233 | the `Reliable` events of a run's trace are exactly its released frames, in order |
| `SystemTheorems.RepliesAreEvents` | protofish4/src/receiver.rs:372-398 | the replies of a composed step are those its events ask for, in the order of the events |
| `SystemTheorems.ChannelsFed` | protofish4/src/receiver.rs:361-402 | over all runs the cache channel carries the trace's `Reliable` frames and the outcome channel its outcome |
| `SystemTheorems.CacheChannelExact` | protofish4/tests/loopback.rs:3-5 | over all composed runs what the cache channel received is a byte-exact prefix of what was pushed, and whole when the outcome channel says `Complete` |
| `SystemTheorems.CompletedMeansArrived` | protofish4-proto/src/xfer/sender.rs:168-171 | when the sender reports completion, `End` was sent and every pushed frame arrived, whichever way the reliable stream ended |
| `SystemTheorems.FlowControl` | protofish4-proto/src/xfer/sender.rs:97-118 | `acked_highest` <= receiver's highest <= last number pushed <= receiver's highest + `max_outstanding`, under lost, duplicated and stale acks |
| `SystemTheorems.RingIsInterval` | protofish4-proto/src/xfer/retrans.rs:36-93 | a number is answered exactly when recorded and above the watermark, with the datagram first sealed for it; with nothing lost before the wire the ring is the interval (watermark, last pushed]; the byte count is exact and both configured limits hold |
| `RingTheorems.TrimExact` | protofish4-proto/src/xfer/retrans.rs:36-44 | a push drops an entry exactly when it and those after it exceed a budget |
| `RingTheorems.OverflowExact` | protofish4-proto/src/xfer/retrans.rs:25-44 | over all runs a push that reaches the ring evicts exactly the frames from which on the recorded ones exceed one of the two configured limits; no other move evicts |
| `RingTheorems.WatermarkExact` | protofish4-proto/src/xfer/retrans.rs:55-93 | over all runs the watermark is the largest number acknowledged as a prefix or lost by overflow |
| `SystemTheorems.GoneForGood` | protofish4-proto/src/xfer/retrans.rs:55-93 | once a keepalive naming l was sent, nothing up to l is in the ring then or at any later point |
| `SystemTheorems.DiscardJustified` | protofish4-proto/src/xfer/receiver.rs:124-139 | a `SenderDiscarded` abort comes from a keepalive above the prefix whose number left the ring by overflow; the missing frame is absent now and at every later point |
| `SystemTheorems.NoOverflowNoDiscard` | protofish4-proto/src/xfer/receiver.rs:124-139 | if the ring never overflows, `SenderDiscarded` is never reported |
| `SystemTheorems.SinkIsRun` | protofish4-proto/src/xfer/receiver.rs:112-178 | the sink of a composed run is a run of the receiver alone, so all receiver theorems apply to it |
| `SystemTheorems.RunInv` | protofish4-proto/src/xfer/sender.rs:108-175 | every composed run keeps the invariant: ring contents, honest packets in both directions, true outcomes |
| `SystemInv.LookupStored` | protofish4-proto/src/xfer/sender.rs:158-167 | the answer to a `Nack` is exactly the stored datagrams among those asked for |
| `RingTheorems.ResendIsVerbatim` | protofish4-proto/src/xfer/sender.rs:158-167 | over all runs a `Nack` is answered with exactly the datagrams first sealed for the numbers asked for that are recorded and above the watermark, in the order asked, and with no event exactly if there are none; they go on the wire again as far as the socket takes them, and nothing is sealed |
| `Nonces.NextIsNew` | protofish4-proto/src/types.rs:65-67 | the next control number is new if and only if fewer than 2^32 were taken |
| `Nonces.OneLatePut` | protofish4-proto/src/xfer/sender.rs:108-118 | a frame repeats an earlier number if and only if both are encodable and pushed from number 2^32 - 1 on |
| `Nonces.ReplyNumbers` | protofish4/src/receiver.rs:411-419 | the sink's replies take consecutive control numbers; they stay distinct if and only if at most 2^32 were taken |
| `Nonces.NackFits` | protofish4-proto/src/xfer/receiver.rs:235-268 | a request never outgrows one packet, so every reply encodes |
| `Nonces.RunSeals` | protofish4/src/sender.rs:119-149 | over all runs, without any bound: what was sealed is exactly the numbers of the encodable frames and, on either side, the control numbers taken |
| `Nonces.NoncesUnique` | protofish4-proto/src/crypto.rs:95-102 | over all runs, no two seals by either endpoint share a 12-byte nonce if and only if each side took at most 2^32 control numbers and at most one encodable frame was pushed from number 2^32 - 1 on |
| `Nonces.SaturatedRunReusesNonce` | protofish4-proto/src/types.rs:48-50 | a real run of n encodable pushes keeps its nonces distinct if and only if n < 2^32, and would declare the right final number if and only if n < 2^32 - 1 |
| `Saturation.CopyWrongAtBound` | protofish4-proto/src/xfer/sender.rs:130-139 | for every receiver configuration a real run of 2^32 - 1 frames that reports `Complete` with the wrong number: the bound of `EndToEnd` is sharp |
| `Wire.ReadWritten` | protofish4-proto/src/codec.rs:114-130 | reading a big-endian integer of any width undoes writing it |
| `Wire.WrittenRead` | protofish4-proto/src/codec.rs:114-130 | writing undoes reading, and what is read fits the width |
| `Wire.EncodeBody` | protofish4-proto/src/codec.rs:21-57 | the encoder with its loop computes the encoding of the round trips, or the size error |
| `Wire.EncodedSize` | protofish4-proto/src/codec.rs:21-57 | encoding succeeds exactly for bodies within the limits and has the length the ring accounts |
| `Wire.DecodeEncode` | protofish4-proto/src/codec.rs:59-102 | whatever encodes decodes, under its own kind, to itself |
| `Wire.EncodeDecode` | protofish4-proto/src/codec.rs:59-102 | whatever decodes re-encodes to the same bytes under the same kind |
| `Wire.ParseWritten` | protofish4-proto/src/header.rs:47-88 | parsing header ++ rest returns both; a relay's peek reads the same id |
| `Wire.WrittenParse` | protofish4-proto/src/header.rs:47-71 | whatever parses is header ++ rest again |
| `Wire.NonceInjective` | protofish4-proto/src/crypto.rs:95-102 | equal nonces come from equal direction, class and counter |
| `Wire.SealedRoundTrip` | protofish4-proto/src/crypto.rs:208-223 | for any cipher whose decryption undoes encryption, a sealed body opens to the same header and body |
| `WireLayout.BigEndianAt` | protofish4-proto/src/codec.rs:114-130 | the byte at each offset of an integer, most significant first |
| `WireLayout.BodyLayout` | protofish4-proto/src/codec.rs:21-57 | the length of every encoded body and the offset of each of its fields |
| `WireLayout.DecodesExactly` | protofish4-proto/src/codec.rs:59-102 | decoding accepts exactly the encodings of well-typed bodies of its kind |
| `WireLayout.DecodeErrors` | protofish4-proto/src/codec.rs:59-112 | which error any other body gets, by its length and a `Nack`'s count |
| `WireLayout.HeaderLayout` | protofish4-proto/src/header.rs:64-71 | version, kind code, id and number at their offsets |
| `WireLayout.ParsesExactly` | protofish4-proto/src/header.rs:47-62 | parsing accepts exactly a header followed by anything |
| `WireLayout.ParseErrors` | protofish4-proto/src/header.rs:47-88 | which error any other header gets; a relay ignores the kind |
| `WireLayout.NonceLayout` | protofish4-proto/src/crypto.rs:95-102 | direction, class, zero epoch and counter at their offsets |
| `WireLayout.SealedLength` | protofish4-proto/src/crypto.rs:40-52 | the ring accounts the length a sealed datagram really has, for a 16-byte tag |
| `WireLayout.WrongWay` | protofish4-proto/src/crypto.rs:216-223 | a datagram opens in its own direction only |
| `WireDirections.DirectionsAgree` | protofish4-proto/src/frame/tag.rs:72-85 | over all runs every packet is of a kind that travels in its direction, and its cipher class is that of its kind |
| `ReplaySpec.WindowRemembers` | protofish4-proto/src/crypto.rs:137-190 | over all runs, bit i is set exactly when counter highest - 1 - i was accepted and is not the one a jump of exactly 1024 forgot |
| `ReplaySpec.AcceptedTwiceIff` | protofish4-proto/src/crypto.rs:137-164 | an accepted counter is accepted again if and only if it is the forgotten one |
| `ReplaySpec.WindowIsSet` | protofish4-proto/src/crypto.rs:137-164 | without a jump of exactly 1024, `accept` succeeds exactly for new counters within 1024 of the highest |
| `ReplaySpec.ExactJumpRepeats` | protofish4-proto/src/crypto.rs:153-170 | for every h: after h, h + 1024 the window accepts h again |
| `Bits64.ShlBit` | protofish4-proto/src/crypto.rs:182 | bit i of a word shifted up by n is bit i - n, or clear |
| `Bits64.ShrBit` | protofish4-proto/src/crypto.rs:181 | bit i of a word shifted down by n is bit i + n, or clear |
| `Bits64.ShlIsShift` | protofish4-proto/src/crypto.rs:182 | n single shifts are the machine shift by n (`ShrIsShift` likewise) |
| `Bits64.MaskBit` | protofish4-proto/src/crypto.rs:199-204 | testing a word against a unit mask reads that bit |
| `BitRows.BitsMoved` | protofish4-proto/src/crypto.rs:178-185 | shift with carry across the words moves every bit of the row by b |
| `BitRows.WordsMoved` | protofish4-proto/src/crypto.rs:173-177 | moving whole words moves every bit of the row by 64 per word |
| `BitRows.MovedSet` | protofish4-proto/src/crypto.rs:166-190 | moving the row and adding the old highest is the shift of the set |
| `Replay.ShiftWord` | protofish4-proto/src/crypto.rs:181-183 | one step of the carry loop, bit by bit |
| `Replay.ReplayWindow.Set` | protofish4-proto/src/crypto.rs:192-197 | adds exactly that bit, nothing past the end |
| `Replay.ReplayWindow.Get` | protofish4-proto/src/crypto.rs:199-204 | reads membership, false past the end |
| `Replay.ReplayWindow.MoveWords` | protofish4-proto/src/crypto.rs:173-177 | the downward in-place word loop moves every bit by 64 per word |
| `Replay.ReplayWindow.MoveBits` | protofish4-proto/src/crypto.rs:178-185 | the carry loop moves every bit, across word borders |
| `Replay.ReplayWindow.ShiftBy` | protofish4-proto/src/crypto.rs:166-190 | the sixteen words after the shift are the shifted set |
| `Replay.ReplayWindow.Accept` | protofish4-proto/src/crypto.rs:137-164 | the bitmap decides and updates exactly as the set does |

## Left out

- ChaCha20-Poly1305 (section 2.8 of RFC 8439): an arbitrary pair of functions in `SealedRoundTrip`; forgery is excluded by delivering only sent packets.
- Sockets, tasks, mutexes, channels, DNS, disarm on drop, logging: I/O plumbing; the model keeps the dispatch order and the reply numbering.
- `BufferFeedback` and `ack_buffered_ms`: replaced by an arbitrary occupancy.
- Liveness of recovery under loss: `End` and `EndAck` are each sent once and frames lost after the highest arrival are never requested, so it does not hold.
- Replay protection of running endpoints: neither binding calls `ReplayWindow`, so it is proved on its own.
- BoundedGiveUp: assumes a clock that does not run backwards, as the platform's monotonic clock promises.
- SystemTheorems.EndToEnd: assumes fewer than 2^32 - 1 frames pushed; at 2^32 - 1 it is false of the code (`CopyWrongAtBound`).
- SystemTheorems.DiscardJustified: assumes fewer than 2^32 - 1 frames pushed, as do the other composed theorems.
- Receiver.XferReceiver.Handle: does not model the 32-bit overflow of `contiguous + 1` once the prefix is 2^32 - 1, which no tap within the bound above reaches; past it, theorems without that bound follow the receiver on natural numbers.
- Dispatch.SinkEntry.ApplyEvent: a channel is the list of frames handed to it; a receiver that hung up, waiting for room on the cache channel and the rate-limited warning are not modelled.
- Request id generation, key minting, configuration presets, error texts and Display/Debug implementations: easy members only.
