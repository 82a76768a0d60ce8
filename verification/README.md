# Verified model of the casting path

LLrdc Casting casts a browser screen to a receiver on the local network. This project models,
in Dafny, the part of it that keeps state and does arithmetic, and proves what that part is
for. Nothing in it is executed; everything is proved for all inputs, runs or interleavings.

| file | models |
|---|---|
| `Prelude.dfy` | optional values, bytes, list operations, big-endian integers |
| `Wire.dfy`, `WireExact.dfy`, `WireValues.dfy` | the packet format: what the receiver parses, what the sender builds, exactly which packets are accepted, and the numbers its floating-point fields stand for |
| `Reassembly.dfy` | the bounded table of partial frames, as a transition function and as a class |
| `ReassemblyTable.dfy`, `ReassemblyDelivery.dfy`, `ReassemblyLedger.dfy` | what every call keeps, delivery in any order, bookkeeping over runs |
| `ReassemblyConcurrent.dfy`, `ReassemblyOrder.dfy` | concurrent callers as interleaved atomic steps, and when they emit in order |
| `CastRuns.dfy` | what the reassembler makes of whole casts |
| `Framing.dfy` | length-prefixed messages in byte streams: the control stream and the media stream |
| `AnnexB.dfy` | NAL units to Annex B, the decoder description, the start-code scanner |
| `EndToEnd.dfy` | the sender's write chain, the receiver's read loop, and their composition |
| `Congestion.dfy`, `CongestionRuns.dfy`, `CongestionWindows.dfy` | bitrate control, its behaviour over runs, and what its windows hold |
| `Freshness.dfy`, `InputSelection.dfy` | how many frames are on their way; which frames are encoded, and which as key frames |
| `Latency.dfy`, `LatencyRuns.dfy`, `LatencyExact.dfy` | capture-time tracking, clock synchronisation, phases, smoothing, pacing |
| `Compositor.dfy` | the layout of the composed frame |
| `Management.dfy`, `ManagementRuns.dfy`, `ManagementHistory.dfy` | sessions, connections, clocks and latency estimates, as steps, over runs and read off their history |
| `Receiver.dfy`, `ReceiverFields.dfy` | the receiver's event loop, event by event and field by field |
| `ConstantExpressions.dfy`, `ConstantMeaning.dfy`, `ConstantTexts.dfy` | the expression evaluator that compares constants across languages |
| `Redaction.dfy`, `RedactedText.dfy`, `RedactedSecrets.dfy`, `RedactedFields.dfy` | redaction of log text: markers and their values, secrets of the environment |

An object that the source updates in place is a class; each of its methods is tied, by its
postcondition, to a function on the value of its fields, and the properties are proved about
runs of those functions. Times are parameters. Numbers of the browser are exact integers and
reals; floating-point fields on the wire are bit patterns, and `WireValues` says which numbers the
receiver's checks on them let through.

Where the code and its description differ, the model follows the code:

- The reset rule of the reassembler is asymmetric: any number below the last completed one
  restarts the pipeline, and so does a repeat of a number up to 5, while a repeat above 5 is ignored
  (`ResetRule`).
- Emission order holds for one caller at a time; two concurrent callers can emit a frame twice
  (`RaceEmitsTwice`). From any state until the next reset it holds exactly as long as nothing at
  or below the last completed number is finished under the lock (`OrderExactly`).
- A partial frame left open before anything completed can swallow a unit of the next cast
  (`StaleEntryBlocks`, `CastEmittedExactly`).
- The fallback of the Annex B conversion is not a pass-through for Annex B input (`KeptExactly`).
- The sender limits a pipeline to 30 s before it adds the display interval, so the report of a
  pipeline within one such interval of 30 s is refused by the receiver (`LongReportRejected`, `FirstReportBelieved`).
- A dimension between 0 and 1 is sanitised to 0, not to 1 (`PositiveDimensionSafe`).
- A secret of several lines is never redacted (`MultiLineSecretKept`), and a secret that is part
  of the replacement word is replaced again inside it (`RedactedTwice`). A secret that agrees with
  an end of the replacement can come back beside it (`RemovedExactly`).
- A division by zero in a constant gives an infinity or no number, and inside another divisor
  it goes unnoticed (`IntegerExactly`, `HiddenZeroDivisor`).
- A stop marker among the frames does not clear the stall report, while a stop command does
  (`StallAfterStop`, `StallOutlivesMarker`).

## Model

| member | source | states |
|---|---|---|
| `WireValues.DurationMeaning` | src/v4l2_decoder.rs:175 | the test on the four bytes of a duration says that the binary32 number they stand for is finite and from 0 to 30,000 |
| `WireValues.TimeMeaning` | src/v4l2_decoder.rs:174-178 | the test on the eight bytes of a time says that the binary64 number they stand for is finite and above 0 |
| `WireValues.TimingExactly` | src/v4l2_decoder.rs:138-182 | which timing is read out of a packet, in those numbers: by its tag, its length, times above 0 and a duration of at most 30 s |
| `WireValues.SameHeaderExactly` | src/v4l2_decoder.rs:212-216 | two headers agree exactly if size, codec and number of chunks do and the timing does |
| `WireValues.SameTimingExactly` | src/v4l2_decoder.rs:212-216 | and timings agree exactly if they have the same fields with the same numbers in them, the two zeros being one |
| `WireValues.ParsedExactly` | src/v4l2_decoder.rs:91-195 | what any packet is to the receiver, in bytes and numbers: stop marker, not recognised, or a number with a body that is accepted exactly within the limits of its codec, 6214 chunks and 8 MiB |
| `WireValues.SentTag` | client/src/lib/stream-worker.ts:36-71 | which of the four tags the sender writes |
| `WireExact.ChunksExactly` | src/v4l2_decoder.rs:91-195 | a packet is read as a chunk if and only if it is the encoding of that chunk under a tag that fits its codec and timing: every encoding is accepted, nothing else is, and no field is lost |
| `WireExact.ParsePacket` | client/src/lib/stream-worker.ts:36-71 | the receiver parses the packet of any sendable access unit back into exactly that unit, as chunk 0 of 1, with the timing bits unchanged |
| `Wire.MakePacket` | client/src/lib/stream-worker.ts:36-71 | filling the buffer field by field yields the big-endian length followed by the packet of the unit |
| `Wire.MakeStopPacket` | client/src/lib/stream-worker.ts:73-81 | the stop packet is a zeroed full header behind its tag, and the receiver parses it as a stop marker |
| `Reassembly.Reassembler.ProcessChunk` | src/v4l2_decoder.rs:91-275 | one call changes fields and counters and returns a frame exactly as the transition on values says; history and output grow by this call |
| `Reassembly.Reassembler.ProcessParsed` | src/v4l2_decoder.rs:91-136 | stop marker, unknown packet, repeat, restart and malformed packet each take their own branch |
| `Reassembly.Reassembler.UpdateTable` | src/v4l2_decoder.rs:197-244 | expiry, placement and completion inside the lock, for a last-completed number read before it |
| `Reassembly.Reassembler.PlaceChunk` | src/v4l2_decoder.rs:212-232 | fills the slot, counts a duplicate, rejects a disagreeing header without any change, evicts the first entry when 32 are open |
| `Reassembly.Reassembler.TakeCompleted` | src/v4l2_decoder.rs:234-247 | removes the finished entry, purges entries at or below it, and emits the joined chunks or rejects their length |
| `Reassembly.Reassembler.Join` | src/v4l2_decoder.rs:243-244 | the chunks joined in index order, or nothing from the first empty slot on |
| `Reassembly.Reassembler.ResetDecoderPipeline` | src/v4l2_decoder.rs:84-89 | a reset zeroes the last completed number and empties the table |
| `Reassembly.Reassembler.Stats` | src/v4l2_decoder.rs:70-77 | the published figures are the table size, timeouts plus evictions, and ignored packets |
| `ReassemblyTable.AssembleKeeps` | src/v4l2_decoder.rs:198-244 | every critical section, whatever last-completed number it starts with, keeps at most 32 entries with distinct numbers, correct counts and a chunk still missing in each |
| `ReassemblyTable.RunKeeps` | src/v4l2_decoder.rs:91-275 | the same over every run of calls and resets |
| `ReassemblyTable.ReassemblerKeeps` | src/v4l2_decoder.rs:91-275 | the same for the object after any calls on it |
| `ReassemblyTable.TakenIsFull` | src/v4l2_decoder.rs:234-244 | an entry taken for emission has every slot filled |
| `ReassemblyTable.SizeExactly` | src/v4l2_decoder.rs:241 | the size that is tested is that of all chunks there are |
| `ReassemblyDelivery.Pending` | src/v4l2_decoder.rs:197-234 | until every index has arrived the frame is not emitted, and the table holds exactly the first copy of each chunk that has arrived, in any order and with any repeats |
| `ReassemblyDelivery.Delivered` | src/v4l2_decoder.rs:212-244 | the call that supplies the last missing index emits the frame at once, joined in index order from first copies, unless it is longer than an access unit may be |
| `ReassemblyDelivery.ReassembledFromPieces` | src/v4l2_decoder.rs:197-275 | an access unit cut into any admissible number of pieces is emitted as those pieces joined, whatever their order, repetition and the packets between them |
| `ReassemblyLedger.Conservation` | src/v4l2_decoder.rs:204-244 | over every run: opened = emitted + oversize + timed out + evicted + purged + cleared + in flight, and the counters and emitted frames say how many |
| `ReassemblyLedger.ReassemblerConservation` | src/v4l2_decoder.rs:70-77 | the same equation between the real counters, the table and the output of the object |
| `ReassemblyLedger.IgnoredAreRejected` | src/v4l2_decoder.rs:104-247 | over every run the counter of ignored packets counts exactly the unrecognised, repeated, malformed, disagreeing, duplicate and oversize ones |
| `ReassemblyLedger.RunAbove` | src/v4l2_decoder.rs:206-239 | over every run every open entry numbered 1 or more lies above the last completed number |
| `ReassemblyLedger.EmittedIncrease` | src/v4l2_decoder.rs:127-136 | between resets the emitted numbers from 1 up strictly increase |
| `ReassemblyLedger.ZeroNeverSurvives` | src/v4l2_decoder.rs:206 | an entry numbered 0 is gone after the next critical section for another number |
| `ReassemblyConcurrent.InterleavingsSafe` | src/v4l2_decoder.rs:84-136 | under every interleaving of callers, with the number read and the reset outside the lock, the table bounds hold and every slot and every emitted frame comes from packets with one number and one header |
| `ReassemblyConcurrent.EmptySlotUnreachable` | src/v4l2_decoder.rs:234-244 | in every interleaving the early return on an empty slot cannot be reached |
| `ReassemblyConcurrent.Uninterrupted` | src/v4l2_decoder.rs:91-275 | the atomic steps of one call, run without interruption, are the sequential call |
| `ReassemblyConcurrent.UninterruptedReset` | src/v4l2_decoder.rs:84-89 | and those of a reset forget the number and the table and emit nothing |
| `ReassemblyConcurrent.RaceEmitsTwice` | src/v4l2_decoder.rs:127-136 | order is not safe under every interleaving: two callers can emit the same frame |
| `ReassemblyOrder.OrderSuffices` | src/v4l2_decoder.rs:127-136 | from any safe state, in every interleaving until the next reset: as long as every number finished under the lock is above the last-completed number at that moment, the numbers emitted from there on strictly increase, from above the last-completed number of that state up to the present one |
| `ReassemblyOrder.OrderExactly` | src/v4l2_decoder.rs:197-244 | and exactly then, if nothing that is finished is too long; stop frames of resets that are still clearing may come in between |
| `ReassemblyOrder.OrderFromStart` | src/v4l2_decoder.rs:197-244 | the case of a new receiver, where the first number may be 0 |
| `ReassemblyOrder.ApartAscending` | src/v4l2_decoder.rs:91-136 | from any safe state with at most one call under way: calls that do not overlap, from whatever tasks, emit strictly increasing numbers above the last-completed one until the next reset |
| `ReassemblyOrder.ApartBetweenResets` | src/v4l2_decoder.rs:84-136 | so between any two resets of calls that never overlap |
| `ReassemblyLedger.ResetRule` | src/v4l2_decoder.rs:127-136 | with a frame completed, a lower number and a repeat of a number up to 5 restart the pipeline, and only a repeat above 5 is ignored |
| `Framing.IncomingStream.ReadExact` | src/webtransport_server.rs:357-361 | reads exactly n bytes across any pieces and leaves the rest, or fails at the end |
| `Framing.IncomingStream.ReadMessage` | src/webtransport_server.rs:357-361 | one length-prefixed message, refused when the length is zero or over the limit |
| `Framing.FrontExactly` | src/webtransport_server.rs:357-361 | in bytes: the first four give the length of the message behind them, from one byte up to the limit |
| `Framing.SendControlMessage` | client/src/lib/streamer.ts:498-508 | length then payload, which deframe to exactly that payload, and nothing for a payload over the limit |
| `Framing.TakeMessages` | client/src/lib/streamer.ts:519-531 | the inner loop hands over every complete message and keeps the bytes after them, or stops at an invalid length |
| `Framing.ReadControlMessages` | client/src/lib/streamer.ts:510-531 | the result of reading depends only on the bytes received, not on how they were cut into reads |
| `Framing.DeframeAppend` | client/src/lib/streamer.ts:515-531 | deframing more bytes continues from the leftover exactly as if all bytes had come at once |
| `Framing.DeframeExactly` | client/src/lib/streamer.ts:515-531 | deframing loses no byte: the messages framed again and the rest are the stream, and the rest lacks bytes of its next message or begins with a length out of range |
| `Framing.DeframeFramed` | client/src/lib/streamer.ts:498-531 | framed messages followed by any bytes deframe to those messages and whatever the bytes deframe to |
| `Framing.ControlDeframing` | client/src/lib/streamer.ts:498-531 | for any messages within the limit and any partition of their framed bytes, after any number of reads the handler has seen exactly the complete ones in order, and the leftover is a strict prefix of the next frame |
| `EndToEnd.StreamWorker.EncoderOutput` | client/src/lib/stream-worker.ts:160-171 | numbers every access unit; one over the decoder limit stops the stream instead of being queued |
| `EndToEnd.StreamWorker.RunNextWrite` | client/src/lib/stream-worker.ts:126-156 | writes are appended in order under their numbers; a stop or the end of the stream skips the write and a failed write stops the stream |
| `EndToEnd.StreamWorker.RequestStop` | client/src/lib/stream-worker.ts:83-89 | a stop request leaves what was written as it is |
| `EndToEnd.StreamWorker.Finish` | client/src/lib/stream-worker.ts:197-216 | at the end a requested stop is written behind the packets of the units, unless its write fails; waiting writes write nothing any more |
| `EndToEnd.ServeStream` | src/webtransport_server.rs:356-365 | the read loop passes exactly the deframed packets, in order, to the reassembler and its frames on; it ends early only when the closed channel refuses a frame, which is then the one frame lost |
| `CastRuns.UnitsEmitted` | src/v4l2_decoder.rs:91-275 | units numbered 1, 2, ... come out at once, in order, each with its own number, size, codec, timing bits and bytes |
| `EndToEnd.ReceiveCast` | src/webtransport_server.rs:356-365 | end to end: whatever the sender has written, cut into any pieces, the receiver sends on exactly those access units, and the stop behind them, if and only if it has completed a frame before or no open entry is in the way; scanning the frames lists the supplied NAL types, and a stopped cast leaves it reset |
| `CastRuns.StaleEntryBlocks` | src/v4l2_decoder.rs:212-216 | after a stray first chunk numbered n, delivered to a new receiver, the cast that follows is complete if and only if it has fewer than n units or the stray has expired when unit n arrives |
| `CastRuns.EmittedUnlessBlocked` | src/v4l2_decoder.rs:197-244 | one unit is emitted if and only if no unexpired entry with its number is open, and what the table holds afterwards |
| `CastRuns.CastEmittedExactly` | src/v4l2_decoder.rs:197-244 | a whole cast is emitted, from any table, if and only if a frame was completed before or no entry is in the way of its units |
| `CastRuns.ClearWithRoom` | src/v4l2_decoder.rs:205-232 | with fewer than 32 open entries, an entry is in the way exactly if it is numbered like a unit and unexpired when that unit arrives |
| `CastRuns.ClearWhenFull` | src/v4l2_decoder.rs:221-226 | with 32 unexpired entries unit 1 evicts the first, and only the others are in the way of later units |
| `CastRuns.WholeCastExactly` | src/v4l2_decoder.rs:91-275 | the same for a cast with its stop marker, which adds its frame and resets the reassembler |
| `CastRuns.ConsecutiveCasts` | src/v4l2_decoder.rs:91-275 | any number of casts in a row, each numbered from 1 again and stopped or not, come out one after the other |
| `EndToEnd.NalTypesArrive` | client/src/lib/annexb.ts:123-170 | a converted access unit is never empty, and scanning its frame lists exactly the NAL types the sender put in |
| `EndToEnd.CastTypesArrive` | src/v4l2_decoder.rs:277-324 | scanning the frames of a whole cast lists, frame by frame, exactly the NAL types that the encoder and the cache supplied |
| `AnnexB.ReadNals` | client/src/lib/annexb.ts:46-57 | the inner loop caches every complete NAL unit of its type and reports where it stopped |
| `AnnexB.ParseDecoderDescription` | client/src/lib/annexb.ts:20-88 | the parameter-set cache after any description, truncated ones included |
| `AnnexB.HevcDescription` | client/src/lib/annexb.ts:36-58 | after a well-formed hvcC record each parameter set is the last NAL unit of type 32, 33 or 34 in it, or what it was before |
| `AnnexB.AvcDescription` | client/src/lib/annexb.ts:60-82 | after a well-formed avcC record the SPS is its last SPS and the PPS its last PPS, or what it was before, and the VPS stays |
| `AnnexB.CacheNalsLast` | client/src/lib/annexb.ts:53-55 | of several NAL units of one type the last one is the parameter set of that type, and the others stay |
| `AnnexB.ConvertToAnnexB` | client/src/lib/annexb.ts:90-171 | the cache is updated first; the result is the delimiter, the parameter sets for a key or first frame, and the converted body |
| `AnnexB.CollectPrologue` | client/src/lib/annexb.ts:123-141 | the delimiter of the codec, then the cached parameter sets exactly when they are asked for |
| `AnnexB.PrologueExactly` | client/src/lib/annexb.ts:123-141 | in bytes: the delimiter, and if asked for VPS (H.265 alone), SPS and PPS in this order, as far as there are any |
| `AnnexB.DelimitersAre` | client/src/lib/annexb.ts:123-128 | the delimiters are NAL units of type 35 and 9 that allow any slice |
| `AnnexB.BodyParts` | client/src/lib/annexb.ts:143-159 | the loop over length-prefixed NAL units, with its fallback on a length that does not fit |
| `AnnexB.Assembled` | client/src/lib/annexb.ts:161-170 | copying the parts into one buffer yields their concatenation |
| `AnnexB.ConvertedWellFormed` | client/src/lib/annexb.ts:123-170 | well-formed input becomes the delimiter, the cached sets exactly when key or first, and every NAL unit in order behind a start code |
| `AnnexB.ScanAccessUnit` | src/v4l2_decoder.rs:277-324 | the scanning loop lists the types behind start codes; shorter input than four bytes is not scanned |
| `AnnexB.ScanExactly` | src/v4l2_decoder.rs:289-320 | whatever the bytes, the scanner lists the type behind each 0, 0, 1 that has a byte behind it, and nothing else |
| `AnnexB.NalTypeExactly` | src/v4l2_decoder.rs:298-302 | the type is the six bits behind the forbidden one under H.265, and the last five under H.264 |
| `AnnexB.ScanStream` | src/v4l2_decoder.rs:285-324 | over NAL units that are not empty and contain no start code the scanner lists exactly their types in order |
| `AnnexB.ScannerSeesConversion` | src/v4l2_decoder.rs:285-324 | scanning a conversion lists the types of delimiter, parameter sets and NAL units in order |
| `AnnexB.AnnexBInputIsNotKept` | client/src/lib/annexb.ts:147-155 | input that already is Annex B is not passed through |
| `AnnexB.KeptExactly` | client/src/lib/annexb.ts:143-159 | exactly which inputs the converted body equals: one whose first length does not fit and that begins with a start code, or nothing but start codes followed by single bytes |
| `Congestion.P95IsCount` | client/src/lib/congestion.ts:42-45 | the sorted percentile exceeds a bound exactly when at least one value in twenty does |
| `Congestion.CongestionController.ShouldDropInput` | client/src/lib/congestion.ts:24-30 | drops exactly when the encoder queue or the pending writes are at the mode limit, and records the decision |
| `Congestion.CongestionController.WriteFinished` | client/src/lib/congestion.ts:32-37 | a finished write enters the window and leads to one evaluation, whose whole report is given |
| `Congestion.CongestionController.Evaluate` | client/src/lib/congestion.ts:38-59 | an evaluation that is due prunes the window, judges it and adjusts; one that is not due changes nothing |
| `Congestion.CongestionController.Adjust` | client/src/lib/congestion.ts:46-59 | the decision step: reduction, increase or neither, with all timers |
| `CongestionRuns.ControllerFollowsLog` | client/src/lib/congestion.ts:24-59 | on every run the controller agrees with a policy read off the log of evaluations alone |
| `CongestionRuns.RunBounds` | client/src/lib/congestion.ts:46-58 | on every run the bitrate lies between round(0.4 ceiling) and the ceiling, and the congested-window count is 0 or 1 after each evaluation |
| `CongestionRuns.Hysteresis` | client/src/lib/congestion.ts:50-57 | changes are at least 2 s apart; an increase comes 5 s after any change and after 10 s without congestion; a decrease answers two congested evaluations in a row |
| `CongestionRuns.EvaluationsApart` | client/src/lib/congestion.ts:39 | evaluations are at least 2 s apart |
| `CongestionRuns.FloorReachedExactly` | client/src/lib/congestion.ts:51 | repeated reductions reach the floor, by the fifth, exactly for ceilings of 4 and more |
| `CongestionRuns.TinyCeilingSticks` | client/src/lib/congestion.ts:51-53 | for a ceiling of 1, 2 or 3 rounding keeps the bitrate above the floor for good |
| `CongestionRuns.CongestionReachesFloor` | client/src/lib/congestion.ts:50-53 | ten congested evaluations in a row reach the floor from anywhere |
| `CongestionRuns.SevenSufficeExactly` | client/src/lib/congestion.ts:55 | seven recovery steps span floor to ceiling for every ceiling but 1 to 4, 13 and 14 |
| `CongestionRuns.HealthReachesCeiling` | client/src/lib/congestion.ts:54-57 | sustained health reaches the ceiling by at most seven changes, within ten seconds and six more recovery intervals |
| `CongestionRuns.CongestedController` | client/src/lib/congestion.ts:38-59 | the same of the controller itself after any history: ten congested evaluations leave it at the floor |
| `CongestionRuns.HealthyController` | client/src/lib/congestion.ts:38-59 | and a long enough healthy stretch leaves it at the ceiling |
| `CongestionRuns.CongestedIsCounting` | client/src/lib/congestion.ts:42-45 | the congestion verdict without sorting: one write in twenty slow to start or to finish, or one input in ten limited |
| `CongestionWindows.WindowsFollowCalls` | client/src/lib/congestion.ts:24-41 | over every run, from the calls alone: how many writes wait, how many inputs were dropped, and what the windows hold of the last two seconds at any later time |
| `CongestionWindows.VerdictExactly` | client/src/lib/congestion.ts:32-45 | the verdict at the end of any write is the count over the writes and inputs of the two seconds before it |
| `CongestionWindows.EvaluatedExactly` | client/src/lib/congestion.ts:39 | a finished write is followed by an evaluation exactly if the last one was two seconds ago or more |
| `CongestionWindows.StepsExactly` | client/src/lib/congestion.ts:51-55 | a reduction takes a fifth off down to two fifths of the ceiling, an increase adds a tenth of the ceiling up to it, each rounded to the nearest |
| `Freshness.FewFramesInFlight` | client/src/lib/stream-worker.ts:126-190 | over every interleaving of input, encoding, output and write completion at most 2L-1+D frames are on their way, D being how many the encoder works on beyond its queue; with ultra-low latency 1+D |
| `Freshness.MovesExactly` | client/src/lib/stream-worker.ts:126-171 | what an output, an oversize output and a finished write do to the number of frames on their way |
| `Freshness.BoundIsReached` | client/src/lib/stream-worker.ts:126-190 | some run reaches 2L-1+D |
| `InputSelection.InputLoop.OnFrame` | client/src/lib/stream-worker.ts:176-190 | a captured frame is skipped, dropped or encoded, with the new state in each case |
| `InputSelection.InputLoop.OnWritten` | client/src/lib/stream-worker.ts:135-139 | a bitrate change reported by a finished write reconfigures the encoder and asks for a key frame |
| `InputSelection.InputLoop.OnOutput` | client/src/lib/stream-worker.ts:161-170 | an output looks up its capture time, and only an access unit within the limit counts as a started write |
| `InputSelection.KeyFramesExactly` | client/src/lib/stream-worker.ts:134-187 | over every run a frame is a key frame if and only if it is among the first five, on the key-frame interval, or the first after a reconfiguration |
| `InputSelection.LoopFollowsParts` | client/src/lib/stream-worker.ts:126-190 | over every run the controller and the tracker are where their own calls lead them; a frame is encoded exactly if it is not too soon and nothing stops it, and a write reconfigures exactly if it changed the bitrate of a configured encoder |
| `InputSelection.FramesSpaced` | client/src/lib/stream-worker.ts:176-183 | any two encoded frames are at least the minimum interval apart |
| `Latency.EncoderTimingTracker.Mark` | client/src/lib/latency.ts:36-48 | a capture time is queued under its timestamp and the tracker evicts from its first key past 64 |
| `Latency.EncoderTimingTracker.Resolve` | client/src/lib/latency.ts:50-57 | the oldest capture time of a timestamp is taken out, with a duration that is never negative |
| `Latency.ClockSynchronizer.Record` | client/src/lib/latency.ts:68-81 | only an exchange with non-negative server work and a delay within 30 s becomes a sample; eight are kept |
| `Latency.ClockSynchronizer.Estimate` | client/src/lib/latency.ts:83-93 | the first sample of least delay, its uncertainty widened by drift, and nothing for a time before it |
| `Latency.LatencySmoother.Update` | client/src/lib/latency.ts:144-159 | the first sample is taken as it is, later ones are blended phase by phase |
| `Latency.LatencySampleCoordinator.Prepare` | client/src/lib/latency.ts:195-226 | a pending sample is reported with its diagnostics, discarded or kept, exactly as pacing, age and phase checks say |
| `Latency.LatencySampleCoordinator.Acknowledge` | client/src/lib/latency.ts:189-193 | an acknowledged sample replaces the pending one if its number is positive |
| `LatencyRuns.TrackerWellKept` | client/src/lib/latency.ts:32-63 | over every run the tracked count is the sum of the queue lengths, at most 64, with no empty queue stored |
| `LatencyRuns.TrackerRefinesQueue` | client/src/lib/latency.ts:36-57 | with distinct live timestamps the tracker answers exactly like one list of unresolved marks that drops its oldest past 64 |
| `LatencyExact.OldestAnswers` | client/src/lib/latency.ts:36-57 | however timestamps repeat: as long as no more than 64 captures are unresolved, a timestamp is answered with its oldest one and the time since, or with nothing |
| `LatencyRuns.EstimateSound` | client/src/lib/latency.ts:65-93 | after any exchanges with non-negative one-way delays, and a true offset drifting at most 0.00005 ms/ms, the estimated offset is within the reported uncertainty of the true one |
| `LatencyExact.EstimateExactly` | client/src/lib/latency.ts:65-93 | the estimate in the four times of the first exchange of least delay among the last eight that were kept: the mean of the differences, half the delay, and 50 microseconds for every second since |
| `LatencyExact.UncertaintyAttained` | client/src/lib/latency.ts:68-93 | the bound is attained on either side: an offset consistent with the chosen exchange and the drift differs by all of the uncertainty |
| `LatencyRuns.RollingEight` | client/src/lib/latency.ts:72-80 | the samples are exactly those of the last eight plausible exchanges |
| `LatencyRuns.LeastDelayChosen` | client/src/lib/latency.ts:83-93 | the estimate comes from the least delay among those eight |
| `LatencyRuns.PhasesAddUp` | client/src/lib/latency.ts:113-133 | calculated phases are non-negative and sum to the total |
| `LatencyExact.PhasesMeet` | client/src/lib/latency.ts:113-133 | the phases lie end to end from the capture to the completion in the sender time, one that would be negative being empty |
| `LatencyExact.MeasuredExactly` | client/src/lib/latency.ts:95-124 | exactly which samples can be measured |
| `LatencyRuns.TruthfulDelivery` | client/src/lib/latency.ts:117-124 | with an offset known to within the uncertainty, a truthful sample passes the negative-phase guard and its delivery phase is off by at most the uncertainty |
| `LatencyRuns.TruthfulSampleAccepted` | client/src/lib/latency.ts:65-122 | the same with the clock estimate of any honest history and a constant true offset |
| `LatencyRuns.SmoothingKeepsSum` | client/src/lib/latency.ts:136-159 | after any updates the smoothed total is the sum of the smoothed phases |
| `LatencyExact.SmoothingConverges` | client/src/lib/latency.ts:144-159 | n updates with one sample leave each phase the n-th power of 1 - alpha of its distance from it |
| `LatencyRuns.ReportsPaced` | client/src/lib/latency.ts:184-226 | reports are at least one second apart, exact sums, and never more than the samples acknowledged |
| `LatencyExact.ReportedExactly` | client/src/lib/latency.ts:195-226 | exactly which samples are reported, kept or used up, and what a report holds |
| `LatencyExact.PendingExactly` | client/src/lib/latency.ts:189-205 | over every run the sample that waits is the last one acknowledged under a positive number, unless it has been used up since |
| `Compositor.PositiveDimensionSafe` | client/src/lib/compositor.ts:29-31 | a sanitised dimension is at least 1 exactly unless the number was a positive fraction below 1 |
| `Compositor.DimensionExactly` | client/src/lib/compositor.ts:29-31 | a sanitised dimension is the whole part of a positive number and otherwise one |
| `Compositor.PanelFits` | client/src/lib/compositor.ts:67-75 | the content fits the panel and fills one of its axes |
| `Compositor.PanelExactly` | client/src/lib/compositor.ts:67-75 | the side that limits the content is the panel side, the other one is scaled and rounded to at least one pixel |
| `Compositor.LayoutContained` | client/src/lib/compositor.ts:67-87 | for every geometry that sanitises to positive dimensions the calculated layout has every content rectangle inside its space, opposite bars that differ by at most one pixel, and one axis filled exactly in all three spaces |
| `Compositor.LayoutExactly` | client/src/lib/compositor.ts:46-87 | preserve mode scales and rounds each space from the one before and centres it; stretch mode fills all three whole |
| `Compositor.WidthError` | client/src/lib/compositor.ts:67-87 | for a source narrower than the panel, and where no rounding falls below one pixel, the encoded width is within (1 + T/G + T/P)/2 of the exact projection; otherwise it is the target width |
| `Compositor.HeightError` | client/src/lib/compositor.ts:67-87 | and likewise the encoded height of a source that is not narrower; a narrower one has the target height |
| `Compositor.PassThroughMeaning` | client/src/lib/compositor.ts:121-130 | in both aspect modes, exactly which frames pass through the calculated layout untouched |
| `Compositor.SameShapePassesThrough` | client/src/lib/compositor.ts:67-130 | a source shaped exactly like the panel fills all three spaces, so it passes through exactly when it has the canvas size |
| `Management.ManagementState.Hello` | src/management.rs:251-265 | a hello makes the connection connected, not sharing and just seen |
| `Management.ManagementState.ConnectionClosed` | src/management.rs:267-284 | a closed connection loses its clock and its sharing mark, and ends the session it owns |
| `Management.ManagementState.TouchConnection` | src/management.rs:289-307 | a heartbeat refreshes a connection only while it is connected |
| `Management.ManagementState.FinishLocked` | src/management.rs:628-636 | the active session moves to the front of the history, which keeps 10,000 |
| `Management.ManagementState.Start` | src/management.rs:339-352 | a start ends any session as replaced, takes the next identifier, keeps the configuration and marks the owner sharing |
| `Management.ManagementState.Stop` | src/management.rs:538-542 | a stop finishes the session and says whether there was one |
| `Management.ManagementState.RecordClockSync` | src/management.rs:309-321 | a clock synchronisation is kept only for a connected connection and an uncertainty in range |
| `Management.ManagementState.RecordFrame` | src/management.rs:479-496 | a frame adds to the count and, in 32-bit arithmetic, to the gaps |
| `Management.ManagementState.RecordEstimatedLatency` | src/management.rs:357-406 | a report is accepted exactly when it is believable, from the owner, and about a recorded frame no older than the last report |
| `Management.ManagementState.RecordReceiverEstimatedLatency` | src/management.rs:410-477 | the estimate the receiver computes itself, with the details of the last report, or none |
| `ManagementRuns.RunAccounted` | src/management.rs:251-352 | over every run identifiers increase by one, the history is exactly the latest ended sessions, only the active owner is sharing, and every clock synchronisation belongs to a connected connection |
| `ManagementRuns.EachSessionOnce` | src/management.rs:628-636 | a started session is either active or in the history exactly once, until the cap |
| `ManagementRuns.StreamCounts` | src/management.rs:491-496 | the frames and gaps of the active session are those of the numbers recorded since it started |
| `ManagementHistory.SessionsKept` | src/management.rs:339-352 | over every run the active session and the history are the sessions of the run, each with its owner, its own frames and gaps, and the reason it ended |
| `ManagementHistory.ConnectionsKept` | src/management.rs:251-352 | over every run what is kept of a connection is what was heard of it: open, sharing, last seen, and its clock synchronisation |
| `ManagementHistory.ReportExactly` | src/management.rs:357-406 | exactly which reports are accepted, in numbers |
| `ManagementRuns.FramesAndGaps` | src/management.rs:491-496 | for strictly increasing numbers frames + gaps = last - first + 1 |
| `ManagementRuns.GapAcrossWrap` | src/management.rs:495 | from the top of the 32-bit range the gap counts the numbers from zero on |
| `ManagementRuns.ReceiverEstimatesExact` | src/management.rs:410-477 | over every run an own estimate has non-negative phases that sum exactly to a total of at most 30,000 ms |
| `ManagementHistory.OwnEstimateExactly` | src/management.rs:410-477 | an own estimate moves each phase a quarter of the way to what is measured with the clock of the owner, and carries the details over |
| `ManagementHistory.OwnEstimateWhen` | src/management.rs:410-450 | exactly when there is one |
| `ManagementHistory.NoOwnEstimate` | src/management.rs:410-425 | and without a frame rate, a session, an owner or a clock there is none |
| `ManagementRuns.SmoothedReportPasses` | client/src/lib/streamer.ts:198-223 | after any updates the sender report passes both 2 ms sum checks; it passes every check exactly when total and details are in range |
| `ManagementRuns.RoomyReportsBelieved` | client/src/lib/streamer.ts:198-223 | if every measured sample leaves room for the display interval, every smoothed report is believed exactly when its details are in range |
| `ManagementRuns.FirstReportBelieved` | src/management.rs:362-372 | the first report made of a prepared sample is believed exactly when its pipeline takes at most 30 s less the display interval and its details are in range |
| `ManagementRuns.LongReportRejected` | src/management.rs:362-372 | every waiting sample with a pipeline between those two limits is acknowledged, prepared and smoothed by the sender, and its report is refused |
| `ManagementRuns.CalculatedExactly` | client/src/lib/latency.ts:113-133 | the sender measures a sample in range and guarded exactly when its pipeline takes at most 30 s, and adds the display interval |
| `Receiver.ReceiverLoop.EnsureConfiguration` | src/playback.rs:131-171 | the pipeline is switched only when codec, aspect or rectangle differs; a failed switch leaves the settings and the old process killed |
| `Receiver.ReceiverLoop.StopStreaming` | src/main.rs:200-212 | a stop ends the session, returns to the dashboard and drains the queue; the decoder is reset if asked |
| `Receiver.ReceiverLoop.OnCommand` | src/main.rs:198-395 | the whole new state after each command |
| `Receiver.ReceiverLoop.OnFrame` | src/main.rs:398-518 | the whole new state after a frame or a stop marker |
| `Receiver.ReceiverLoop.PresentAccessUnit` | src/main.rs:438-518 | an access unit is dropped, or configures the pipeline, is written, counted and recorded |
| `Receiver.ReceiverLoop.OnTimeout` | src/main.rs:550-575 | a time-out keeps the stream while its owner is alive and stops it otherwise |
| `Receiver.PassCoherent` | src/main.rs:198-575 | a pass of the loop keeps coherence if and only if no failed reconfiguration does harm in it |
| `Receiver.LoopCoherentExactly` | src/main.rs:198-575 | the loop is coherent at every boundary if and only if no failed reconfiguration does harm in any of its passes |
| `Receiver.LoopCoherent` | src/main.rs:198-575 | if reconfiguration succeeds then at every loop boundary a composed pipeline or an open session means streaming, and every H.264 unit was written to an H.264 pipeline and every H.265 unit to an H.265 one |
| `ReceiverFields.StreamExactly` | src/main.rs:198-575 | what each event does to streaming, labels, the stall report and the loop itself |
| `ReceiverFields.QueueExactly` | src/main.rs:398-518 | the frame queue after each event |
| `ReceiverFields.EngineExactly` | src/playback.rs:131-182 | the pipeline after each event: the idle one at an end, a composed one of the codec of the unit shown, or the old one without its process |
| `ReceiverFields.WrittenExactly` | src/main.rs:438-518 | exactly the units that are shown and written are counted |
| `ReceiverFields.BootExactly` | src/main.rs:117-160 | at the start nothing streams and the idle pipeline runs |
| `ReceiverFields.ManagedRun` | src/main.rs:198-575 | the management state of the loop is that of a run of management operations, one for each end, hello, start and written unit |
| `Receiver.StallAfterStop` | src/main.rs:398-575 | after a stop the stall report is kept if and only if it was a stop marker among the frames |
| `Receiver.StallOutlivesMarker` | src/main.rs:398-575 | a stall reported for a live owner outlives the stop marker that ends the stream |
| `Receiver.FailedStop` | src/main.rs:200-212 | a stop whose reconfiguration fails leaves a composed pipeline without a process and with nothing streaming |
| `Receiver.NothingPlaysAfterStop` | src/main.rs:439-443 | after a stop, trailing packets write nothing, keep the dashboard and open no session until a start or a first frame |
| `ConstantExpressions.TokenizeText` | tools/check_parameter_consistency.ts:27-40 | the sticky-match loop returns the tokens, or a fault where none matches |
| `ConstantExpressions.Evaluation.Primary` | tools/check_parameter_consistency.ts:46-59 | one operand from the shared position, and where the position is left |
| `ConstantExpressions.Evaluation.Multiplicative` | tools/check_parameter_consistency.ts:61-69 | a product, folded from the left; a zero divisor gives an infinity or no number |
| `ConstantExpressions.Evaluation.Additive` | tools/check_parameter_consistency.ts:71-79 | a sum, folded from the left |
| `ConstantExpressions.EvaluateInteger` | tools/check_parameter_consistency.ts:42-84 | tokenizes, evaluates, and refuses tokens left over |
| `ConstantExpressions.FloorDivideMeaning` | tools/check_parameter_consistency.ts:66 | quotients are rounded towards minus infinity whatever the signs |
| `ConstantExpressions.PrintedEvaluates` | tools/check_parameter_consistency.ts:42-84 | evaluating the printed form of any expression gives its value with every token consumed |
| `ConstantExpressions.ExactValue` | tools/check_parameter_consistency.ts:46-79 | wherever integer arithmetic without a zero divisor gives a value, evaluation gives the same one |
| `ConstantTexts.InfinitiesAre` | tools/check_parameter_consistency.ts:61-79 | what an operation is that meets an infinity, no number, or a zero divisor |
| `ConstantTexts.ZerosAre` | tools/check_parameter_consistency.ts:61-79 | the sign of a zero sum, product or quotient |
| `ConstantTexts.SignsAre` | tools/check_parameter_consistency.ts:55-79 | sums and products do not mind the order, and signs can be taken out of products and off quotients |
| `ConstantExpressions.IntegerExactly` | tools/check_parameter_consistency.ts:61-69 | with no quotient inside a divisor, the value is an integer if and only if every name is one and no divisor is zero |
| `ConstantExpressions.HiddenZeroDivisor` | tools/check_parameter_consistency.ts:66 | inside a divisor a division by zero can hide: 1/(1/0) is worth 0 |
| `ConstantMeaning.AcceptsExpressions` | tools/check_parameter_consistency.ts:46-84 | the evaluator accepts exactly the printed forms of expressions that have a value |
| `ConstantMeaning.TokenizesSpellings` | tools/check_parameter_consistency.ts:27-40 | the tokenizer accepts exactly the spellings of its tokens, however spaced and with any grouping of digits |
| `ConstantTexts.DecimalRead` | tools/check_parameter_consistency.ts:36 | the digits of a number are read as that number |
| `ConstantTexts.UnderscoresDropped` | tools/check_parameter_consistency.ts:36 | underscores make no difference |
| `ConstantTexts.NameText` | tools/check_parameter_consistency.ts:27-57 | a name of capitals, digits and underscores is resolved as it is written |
| `ConstantTexts.OtherText` | tools/check_parameter_consistency.ts:27-40 | a text that begins with anything else than a digit, a capital, a symbol or a space is refused |
| `ConstantTexts.SpacesAre` | tools/check_parameter_consistency.ts:29 | what may stand between tokens |
| `ConstantTexts.OrderOfOperations` | tools/check_parameter_consistency.ts:61-79 | as written: products bind before sums, and operations of one kind go from left to right |
| `ConstantMeaning.EvaluatesSpellings` | tools/check_parameter_consistency.ts:27-84 | from text to value: evaluation succeeds exactly on the spellings of expressions that have a value |
| `ConstantMeaning.CycleRejected` | tools/check_parameter_consistency.ts:90-93 | a constant whose definition leads back to itself is rejected |
| `ConstantTexts.ExtractFaults` | tools/check_parameter_consistency.ts:90-95 | the two faults of extraction |
| `ConstantMeaning.AncestorsIrrelevant` | tools/check_parameter_consistency.ts:90-100 | without cycles the list of ancestors makes no difference |
| `ConstantMeaning.ConstantsMeanTheirDefinitions` | tools/check_parameter_consistency.ts:90-100 | without cycles every constant has the value of its definition, each name standing for the constant of that name |
| `Redaction.RedactMarker` | src/operational_log.rs:247-256 | the in-place loop with its moving cursor terminates and replaces the value of every occurrence it finds |
| `Redaction.Redact` | src/operational_log.rs:239-258 | line breaks, secrets and markers are handled in that order |
| `RedactedText.RedactedIsClean` | src/operational_log.rs:246-257 | every occurrence of a marker, in any case, is followed by the replacement and then by the end, an ampersand, a space or a quote |
| `RedactedFields.ValueCut` | src/operational_log.rs:246-257 | a value behind one of the five fields, in any case, is cut up to the first ampersand, space or quote or the end |
| `RedactedFields.OtherTextKept` | src/operational_log.rs:240-257 | a text without those fields is kept but for its line breaks |
| `RedactedText.PassKeepsClean` | src/operational_log.rs:247-256 | a pass for one marker keeps what an earlier pass achieved, even when values contain other markers |
| `RedactedText.ForgottenExactly` | src/operational_log.rs:246-257 | between two texts a value has no influence on the result if and only if a marker is open at its start |
| `RedactedSecrets.NoSecretRemains` | src/operational_log.rs:239-257 | no secret occurs in redacted text, whatever the other secrets are, unless it can be laid over the replacement so that they agree where they overlap |
| `RedactedSecrets.RemovedExactly` | src/operational_log.rs:241-245 | a secret is removed from every text, whatever the other secrets are, exactly unless it can be so laid over the replacement |
| `RedactedSecrets.BracketFreeLasting` | src/operational_log.rs:242-245 | of the secrets without brackets, those are the parts of the replacement word |
| `RedactedSecrets.MultiLineSecretKept` | src/operational_log.rs:239-245 | among any secrets, those with a line break are never redacted, because breaks are blanked first |
| `RedactedSecrets.TwoLineSecret` | src/operational_log.rs:239-245 | a text that is such a secret comes out whole on one line |
| `RedactedSecrets.RedactedTwice` | src/operational_log.rs:239-258 | for secrets free of brackets: redacting any text twice is redacting it once if and only if no secret is part of the replacement word |
| `RedactedSecrets.WordPartReturns` | src/operational_log.rs:242-245 | each part of the replacement word, as a secret, is replaced again inside its own replacement |
| `RedactedSecrets.ValueLeavesNoTrace` | src/operational_log.rs:239-257 | two texts that differ only in the value behind a marker are redacted to the same text, whatever the value contains, if the secrets leave the marker open |
| `RedactedSecrets.ValueAloneLeavesNoTrace` | src/operational_log.rs:246-257 | without secrets the value behind any marker leaves no trace |

## Left out

- Sockets, QUIC, TLS, HTTP, child processes, display ioctls and system files: foreign effects; only the framing loops are modelled.
- Cryptography, pairing, tokens, rate limits, the replay cache and the database: they rest on libraries and a schema.
- Dashboard drawing, the administration pages, capability probing and canvas drawing: user interface; the layout formatters only print.
- IEEE rounding: browser and receiver arithmetic is exact here, so error terms below rounding and values that are not finite are not covered, except the bit patterns on the wire, the dimensions given to the compositor and zero divisors in constants.
- Overflow in debug builds: frame gaps use the wrap-around arithmetic of release builds.
- Diagnostic printing in the reassembler, its chunk counter, and the completion time stamped on a frame.
- Parsing of JSON and of decoder descriptions that are not byte buffers; control messages are byte strings.
- The cache of parameter sets keeps views into the description buffer; here it keeps the bytes.
- Reading exactly n bytes is a library operation, modelled over the pieces in which a stream arrives.
- The frame channel is a queue of at most two frames; a sender that blocks on a full one is not modelled.
- Firing of the idle time-out: a time-out is an event that may happen at any pass, and nothing is claimed about when.
- The event log, the metric windows, the percentiles and the bitrate figures of the management state, and the texts of its records.
- Receiver.ReceiverLoop.OnCommand: commands that only read or report are one case without effect; telemetry messages, the active resolution they print and the acknowledgement cadence are not state here.
- Frames of other codecs than the two cannot be expressed, so the branch that skips them is absent.
- ConstantExpressions.EvaluateInteger: integers are exact here, so constants beyond 2^53 and the rounding of their quotients are not covered.
- Finding the text of a constant in a source file by regular expression; the texts are given.
- RedactedSecrets.NoSecretRemains: stated for secrets that cannot be laid over the replacement; of the others `RemovedExactly` shows that some text and list keep them through the replacement of secrets, but not which texts keep them through the markers as well.
- RedactedSecrets.RedactedTwice: stated for secrets without brackets; a secret with a bracket can meet the brackets of replacements in ways that depend on the text around them.
- RedactedSecrets.ValueLeavesNoTrace: stated for secrets without equals signs and separators; one that contains them can span the marker and its value.
- InputSelection.FramesSpaced: the minimum interval is taken to be non-negative, which it is for every frame rate up to 500.
- Compositor.WidthError: stated where none of the three roundings falls below one pixel; the minimum of one pixel has no bound relative to the exact projection.
- Compositor.HeightError: the same.
