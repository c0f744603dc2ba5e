# The capture data path, verified

This project models the way of the captured bytes through liblgx, from the USB completion handlers to the
audio and video outputs, and proves what that path promises over every byte stream, every way of cutting it
into chunks, and every interleaving of its threads. `dafny verify dfyconfig.toml` checks all of it.

The path has five stages, and each is here twice: as a class whose methods change their fields in place, as
the C++ does, and as functions that the methods are proved to follow. The theorems are about the functions.

* **Chunk hand-off** (`CaptureRing`, `TransferPool`, `CaptureTransfers`, `CaptureStream`): a drop-oldest ring of
  chunks between the USB event thread and the consumer, and the pool of USB transfers with its shutdown. Each
  critical section is one atomic step; the results are about all sequences of steps. The shutdown flag is read
  before the queue's mutex is taken; `CaptureRing.LateStoreIsEarlier` says why the atomic step still covers that.
* **Buffer order** (`Markers`, `MarkerLaws`, `ReorderModel`, `ScanProofs`, `Hysteresis`, `EmitProofs`, `Reorder`, `Restore`, `DeviceOrder`,
  `SinkCalls`, `BufferReorderer`): the scan that gives every SAV a verdict, the two-in-a-row hysteresis over the
  verdicts, and the emission of bytes in restored order with gap flags. Every emitted byte carries its input
  offset and its place in the restored stream, so contiguity and conservation are statements about positions. The
  central result is that incremental feeding equals processing the whole stream at once.
* **Parsing** (`ParserModel`, `ParserProofs`, `CutTheorem`, `ParserSound`, `RoundTrip`, `ParserShift`, `FrameBuilder`):
  the marker parser with its carried tail. The code's parser is compared with a reference parser that passes each
  position as soon as the bytes in view rule out a marker. The two agree across a cut between feeds exactly when
  the cut is clean, that is when the carried bytes lie at or after the final scan position.
* **Pipeline** (`PipelineModel`, `LossIsolation`, `EndToEnd`, `WholeFrameExample`, `Silence`, `AudioGate`, `CapturePipeline`): the two parsers
  in series with gap isolation, the audio gate, the silence sent without a signal, and the no-signal
  announcements. `LossIsolation` puts the ring in front of it. `EndToEnd` composes the rest: from any state, and
  wherever a gap cut the stream, what follows the verdict that settles the order shows the true stream's frames and
  packets, whether its buffer pairs arrive exchanged or not. `WholeFrameExample` is one stream to which this applies.
* **Audio ring** (`AudioRingModel`, `PipeWireAudioOutput`, `AudioRingCalls`): a lock-free ring where every index
  access and every copied byte is a step of its own, and the class with its wrapping 32-bit indices.

## Where the code and its documentation disagree

The model follows the code.

* `src/liblgx/src/FrameBuilder.h:32-36` says that after a gap a SAV/EAV pair with `c0 == b0` is required before
  frames are emitted. The code only counts a mismatch (`FrameBuilder.cpp:146`), and the armed flag is always set
  when it is tested (`FrameBuilder.cpp:145-147`). The first valid pair after a gap is shown if and only if its
  span has a frame's size: `RoundTrip.FirstSpanAfterGap`, and `RoundTrip.MismatchedFrameIsShown` for one input.
* `src/liblgx/src/BufferReorderer.h:26` speaks of about 64 KiB held back, `PROTOCOL.md` of about 32 KiB. The code
  holds back 32 KiB and 9 bytes (`BufferReorderer.cpp:190`), plus less than a pair; `Reorder.Outputs` has the bound.
* `src/liblgx/src/BufferReorderer.h:37` calls a late EAV one with `c0 == b0 - 1`. The code takes any different
  counter byte (`BufferReorderer.cpp:84-87`), as its own comment there explains.
* `src/liblgx/src/CapturePipeline.cpp:25-27` says the first chunk once the signal is back follows a gap. That
  holds if and only if the last chunk offered before it was skipped for want of a signal:
  `PipelineModel.ResyncIff` over any run, and `PipelineModel.AwayIsGapIff` for one period without a signal.

## What the code does not guarantee

* Feeding in pieces is not always parsing the whole: `CutTheorem.SavEndingInZeroIsUnclean` is a cut at which a
  header byte is carried and becomes video. `CutTheorem.CutIsUnnoticeableIffClean` says exactly which cuts can be
  noticed by anyone who receives frames and packets, and `ParserProofs.UncleanCutIff` says it by the last bytes.
* On overflow of the chunk ring, the gap is flagged on the newly stored chunk, not on the one after the lost
  one: `CaptureRing.OverflowLeavesHole` is a run after which an unflagged hole is delivered.
  `CaptureRing.EveryHoleFlaggedIff` says that the consumer can tell every hole at every point of a run if and only
  if no overflow drops a chunk that is followed by an unflagged one.
* `start` aligned to a frame start, called after `stop` has begun, submits a transfer:
  `TransferPool.NothingSubmittedLateIff` says that this is the only way to do so. A second `start` is not refused:
  `TransferPool.StartDisjointIff` says when it leaves the buffer regions disjoint.
* `stop` can find the vector of transfers empty while a completion handler is still running:
  `TransferPool.EmptiedWhileHandling` is such a run. `TransferPool.EmptiedHandler` says that this is only ever the
  probe's handler about to queue the pool, which it then does not.
* Keep-alive cards are spaced by their interval unless the previous one was sent at the clock's epoch:
  `CapturePipelineClass.CardsSpacedIff`.
* A frame whose span is short by up to the tolerance is shown with what its buffer held behind it before:
  `RoundTrip.ShortFrameIsShown` for one input, `FrameBuilderClass.FrameIsSpanIff` for when a frame is its span and
  nothing else, `FrameBuilderClass.TailIsStale` for what the rest is.
* A transfer that completes with no data marks no gap: `CaptureStreamClass.PooledTraceIff`.

## Model

| member | source | states |
|---|---|---|
| MarkerLaws.SavByteCounts | src/liblgx/src/BufferReorderer.cpp:8-10 | raising any one of a SAV header's first three bytes together with its checksum, modulo 256, keeps it valid or invalid |
| MarkerLaws.SavChecksum | src/liblgx/src/FrameBuilder.cpp:9-11 | the header of zeros has checksum C0, and for any three bytes exactly one checksum is valid |
| MarkerLaws.EavByteCounts | src/liblgx/src/BufferReorderer.cpp:12-14 | the same for each of an EAV header's first four bytes |
| MarkerLaws.EavChecksum | src/liblgx/src/FrameBuilder.cpp:15-17 | the header of zeros has checksum C1, and for any four bytes exactly one checksum is valid |
| MarkerLaws.RecordedHeaders | PROTOCOL.md:151 | a recorded SAV header is valid, and so is the EAV of a 1080-line frame, which carries the line count |
| MarkerLaws.MarkerIs | src/liblgx/src/BufferReorderer.cpp:76-83 | a marker is its four bytes and a valid header, wherever they lie |
| ScanProofs.ScanToInv | src/liblgx/src/BufferReorderer.cpp:52-96 | scanning any input from any reset point, to any limit, gives every checksum-valid SAV passed exactly one verdict, in stream order: swapped iff the first valid marker inside the window after it is an EAV with another counter byte; only the last SAV may still wait |
| ScanProofs.ScanToResumes | src/liblgx/src/BufferReorderer.cpp:52-96 | scanning to one limit and later, with more input, to another is scanning to the other at once |
| ScanProofs.ScanToAppends | src/liblgx/src/BufferReorderer.cpp:48-96 | scanning on keeps every verdict already given and adds only verdicts for SAVs that had none |
| ScanProofs.ScanJumps | src/liblgx/src/BufferReorderer.cpp:62-72 | the memchr jump over bytes that are not zero, stopped at a pending SAV's deadline, changes nothing compared with looking at every offset |
| Hysteresis.ChangesExactlyAtSwitches | src/liblgx/src/BufferReorderer.cpp:106-137 | over any observations after a reset: the first decides, and a later one changes the order, its grid or the count iff it and its predecessor both disagree with the decision in force and agree with each other |
| Hysteresis.ChangesAreCounted | src/liblgx/src/BufferReorderer.cpp:131-136 | orderChanges is the first decision plus the number of switches, over any observations |
| Hysteresis.StraysAreIgnored | src/liblgx/src/BufferReorderer.cpp:118-129 | isolated strays, however many, never move an established order or its grid |
| Hysteresis.CandidateIsPrevious | src/liblgx/src/BufferReorderer.cpp:120-127 | the candidate is always the previous observation, and is counted iff that one disagreed |
| Hysteresis.TwoInARow | src/liblgx/src/BufferReorderer.cpp:106-137 | two observations after a decision move it exactly if both view the stream otherwise than it does and alike, where a view is an order and, for a swapped stream, where the pairs lie up to whole pairs |
| Hysteresis.PhaseMoves | src/liblgx/src/BufferReorderer.cpp:106-137 | two swapped SAVs off the grid in force and on one grid of their own re-anchor the grid at the second and are counted |
| Hysteresis.PhaseStays | src/liblgx/src/BufferReorderer.cpp:106-127 | two swapped SAVs of which one is on the grid in force, or which are on different grids, move nothing |
| Hysteresis.OrderFlips | src/liblgx/src/BufferReorderer.cpp:106-137 | two opposite verdicts change the order: normal ones wherever they lie, swapped ones if on one grid |
| Hysteresis.MovedGrid | src/liblgx/src/BufferReorderer.cpp:106-137 | observations on one grid and then on another: the second one on the new grid switches, and nothing after it does |
| EmitProofs.EmitToInv | src/liblgx/src/BufferReorderer.cpp:139-179 | whatever the verdicts: an unflagged byte continues in restored order where the previous one ended, places only grow, no input byte is put out twice, a swapped order keeps the output on the pair grid, no queued SAV is left behind, and less than a pair below the limit stays |
| EmitProofs.EmitNext | src/liblgx/src/BufferReorderer.cpp:141-178 | every turn of the emit loop moves the output on or takes an observation, and never passes the limit: the loop ends |
| EmitProofs.EmitResumes | src/liblgx/src/BufferReorderer.cpp:139-179 | emitting up to one limit and then, with more verdicts, up to a later one gives the output of emitting to the later one at once |
| Reorder.UndecidedIsHeldBack | src/liblgx/src/BufferReorderer.cpp:189-193 | no SAV below the emit limit lacks its verdict, for any input: the hold-back is enough |
| Reorder.ScanOnIsWhole | src/liblgx/src/BufferReorderer.cpp:181-187 | the scanner after a feed is the scanner run once over everything since the reset, and new verdicts lie at or above the old emit limit |
| Reorder.FeedIsWhole | src/liblgx/src/BufferReorderer.cpp:181-199 | an incremental feed leaves, in every field, what scanning and emitting the whole input once leaves |
| Reorder.SplitIndependence | src/liblgx/src/BufferReorderer.cpp:181-199 | from any state, any number of ungapped feeds leave the state, output, gap flags, order and change count of one feed of the concatenation |
| Reorder.Outputs | src/liblgx/src/BufferReorderer.cpp:189-199 | in every reachable state the output is contiguous between flags and once-only, nothing undecided has been put out, and the bytes retained are under the window plus a marker plus a pair |
| Reorder.ResetValid | src/liblgx/src/BufferReorderer.cpp:36-46 | a reset at any point leaves a state from which all of the above holds again, with the earlier output untouched |
| Restore.OrderIsHysteresis | src/liblgx/src/BufferReorderer.cpp:112-179 | the order and count in force are the hysteresis over a prefix of the verdicts the input defines |
| Restore.SwappedIsRestored | src/liblgx/src/BufferReorderer.cpp:139-179 | if the input since a reset is, from any offset on, a stream with its pairs exchanged, its first SAV is found swapped on that grid and there are only stray disagreements, the output since is a contiguous piece of the true stream from that SAV's place, flagged at its start only, with less than the hold-back and a pair still to come |
| Restore.NormalIsPassedOn | src/liblgx/src/BufferReorderer.cpp:139-179 | if the first SAV is found in normal order and there are only stray disagreements, the output since is the input from that SAV on, flagged at its start only, up to less than the hold-back and a pair |
| Restore.SwitchedIsRestored | src/liblgx/src/BufferReorderer.cpp:112-179 | whatever the stream began with: from the first verdict or switch on after which there are only strays, the output is a contiguous piece of the true stream from that SAV's place, flagged at its start only, up to less than the hold-back and a pair |
| Restore.MovedGridIsRestored | src/liblgx/src/BufferReorderer.cpp:159-170 | if the pair grid of a swapped stream moves, as when a chunk of an odd number of buffers is lost unflagged, the output from the second SAV on the new grid on is a piece of the true stream again, behind a flag |
| Restore.CountSurvivesReset | src/liblgx/src/BufferReorderer.cpp:36-46 | a reset forgets the order and keeps the change count |
| Restore.CountOverGaps | src/liblgx/src/BufferReorderer.cpp:131-136 | over any streams with gaps in between, orderChanges is the sum of the decisions made in each |
| Restore.VerdictTaken | src/liblgx/src/BufferReorderer.cpp:189-195 | a verdict on a SAV further from the end of the input than the hold-back and a pair has taken effect |
| DeviceOrder.ExchangedVerdicts | src/liblgx/src/BufferReorderer.h:17-24 | if in the true stream each SAV starts the second buffer of a pair, right after a buffer that ends another frame, and exchanging makes no marker across a buffer's edge, then every verdict on the exchanged stream is Swapped and on the pair grid, wherever a gap and the end of the input cut the stream |
| DeviceOrder.DeviceStreamIsRestored | PROTOCOL.md:823-880 | so such a stream comes out as a contiguous piece of the true one, from the pair of its first SAV on |
| SinkCalls.SplitAppend | src/liblgx/src/BufferReorderer.cpp:98-104 | flushing output whose first byte alone may follow a gap adds exactly one sink call and leaves the earlier calls alone |
| SinkCalls.SplitJoins | src/liblgx/src/BufferReorderer.cpp:98-104 | the sink calls together are the output, none is empty, only their first bytes are flagged, and that of every call but a feed's first is |
| BufferReordererClass.BufferReorderer.Feed | src/liblgx/src/BufferReorderer.cpp:181-199 | the class follows Reorder.Feed for any chunk, gapped or not, and its sink calls are exactly the new output cut at its gap flags |
| BufferReordererClass.BufferReorderer.Reset | src/liblgx/src/BufferReorderer.cpp:36-46 | drops what is retained and undecided, keeps the change count and the output |
| BufferReordererClass.BufferReorderer.Scan | src/liblgx/src/BufferReorderer.cpp:52-96 | the in-place scan with its jumps computes the byte-by-byte scan |
| BufferReordererClass.BufferReorderer.ScanMarker | src/liblgx/src/BufferReorderer.cpp:74-90 | one zero byte: reading through the retained bytes gives the step the whole input defines |
| BufferReordererClass.BufferReorderer.SkipToZero | src/liblgx/src/BufferReorderer.cpp:62-72 | the jump stops at the next zero byte, the limit or the pending deadline, and preserves what scanning to the limit gives |
| BufferReordererClass.BufferReorderer.Emit | src/liblgx/src/BufferReorderer.cpp:139-179 | the in-place emission computes EmitTo, with what waits in the output buffer accounted for call by call |
| BufferReordererClass.BufferReorderer.ApplyObservation | src/liblgx/src/BufferReorderer.cpp:112-137 | one observation: the hysteresis step; a change hands out what waits and makes the next byte follow a gap, and nothing else does |
| BufferReordererClass.BufferReorderer.FlushOut | src/liblgx/src/BufferReorderer.cpp:98-104 | everything emitted so far has reached the sink, and the gap flag is used up iff something was handed out |
| ParserProofs.CleanCutIffParse | src/liblgx/src/FrameBuilder.cpp:168-223 | one feed from any state between feeds leaves the state of the reference parser over all input iff its cut is clean |
| ParserProofs.UncleanCutIff | src/liblgx/src/FrameBuilder.cpp:216-219 | a cut is unclean iff the feed ends outside a payload and the last header or payload it recognised reaches into the trailing 00, 00 FF or 00 FF FF |
| ParserProofs.FeedLog | src/liblgx/src/FrameBuilder.cpp:168-223 | clean or not, one feed recognises the markers, frames and packets that the reference parser does, and counts the same mismatches |
| ParserProofs.SplitIndependence | src/liblgx/src/FrameBuilder.cpp:123-224 | any number of feeds cut cleanly recognise, in order, exactly what one feed of the whole stream does: the same frames and packets over the same stream bytes, and the same mismatch count |
| ParserProofs.RunCodeResumes | src/liblgx/src/FrameBuilder.cpp:189-205 | the scan loop stopped at the end of the input and resumed with more input is one scan |
| ParserProofs.FeedStepValid | src/liblgx/src/FrameBuilder.cpp:63-224 | every feed, clean or not, leaves the scan position inside the input, or inside a payload of at most the maximum packet size |
| CutTheorem.CutIsUnnoticeableIffClean | src/liblgx/src/FrameBuilder.cpp:207-223 | whoever receives frames and packets cannot notice a cut, whatever is fed next, iff the cut is clean |
| CutTheorem.UncleanCutShows | src/liblgx/src/FrameBuilder.cpp:216-219 | after any unclean cut there is a continuation that gives the outputs one packet more than parsing the same bytes in one piece |
| CutTheorem.SavEndingInZeroIsUnclean | src/liblgx/src/FrameBuilder.cpp:216-222 | a chunk ending right after a SAV header whose checksum is 00 is such a cut: the header byte becomes video |
| ParserSound.EmissionSound | src/liblgx/src/FrameBuilder.cpp:73-166 | over any run of feeds and gaps every packet is exactly the payload its header declares; if the cuts are clean every frame is the span between a valid SAV and the valid EAV that ends it, within the tolerance, with no gap, packet or other SAV recognised in between |
| ParserSound.EmissionSoundFromFresh | src/liblgx/src/FrameBuilder.cpp:73-166 | the same for every run of a new builder |
| ParserSound.GapIsolates | src/liblgx/src/FrameBuilder.cpp:63-71 | after a gapped feed everything recognised uses only bytes from that feed on |
| ParserSound.FeedStaysAbove | src/liblgx/src/FrameBuilder.cpp:168-223 | no later feed, clean or not, gapped or not, reaches back below such a point |
| RoundTrip.ParseInvertsEncode | src/liblgx/src/FrameBuilder.cpp:123-166 | parsing an encoded list of video spans and audio packets gives back its frames and packets in order; video and padding may hold anything that looks like a marker but has an unknown type, an invalid header or an implausible length, and padding also stray EAVs |
| RoundTrip.ParsePiece | src/liblgx/src/FrameBuilder.cpp:126-162 | in whatever state but a payload, one such piece shows just itself: a SAV restarts an open span, and a packet cuts it |
| RoundTrip.SpoiledFrame | src/liblgx/src/FrameBuilder.cpp:140-144 | a frame whose EAV is damaged is not shown, ends the span, and is counted |
| RoundTrip.LengthIsValue | src/liblgx/src/FrameBuilder.cpp:153-155 | a packet's length is its four bytes read as a number in base 256, most significant first |
| RoundTrip.FrameSizes | src/liblgx/src/FrameBuilder.cpp:112-115 | a span is shown iff it is within 16384 bytes of 1080 lines of 1920 two-byte pixels |
| RoundTrip.FeedingInvertsEncode | src/liblgx/src/FrameBuilder.cpp:168-223 | feeding that encoding in any number of clean pieces makes the outputs receive exactly those frames and packets |
| RoundTrip.FrameEndIsQuiet | src/liblgx/src/FrameBuilder.cpp:135-136 | the end of a frame, its EAV and filler are such padding |
| RoundTrip.FirstSpanAfterGap | src/liblgx/src/FrameBuilder.cpp:135-150 | from any state, the first SAV and EAV after a gap are shown iff their span has a frame's size, whatever their counters; a mismatch adds one to the count |
| RoundTrip.MismatchedFrameIsShown | src/liblgx/src/FrameBuilder.cpp:145-147 | a frame whose EAV carries another counter than its SAV, shown first after a gap |
| RoundTrip.ShortFrameIsShown | src/liblgx/src/FrameBuilder.cpp:112-117 | a span with fewer bytes than a frame, shown as one |
| ParserShift.ParseShifts | src/liblgx/src/FrameBuilder.cpp:123-166 | parsing a stream behind any other bytes recognises the same at shifted places, whatever was recognised before |
| ParserShift.GapStartsAfresh | src/liblgx/src/FrameBuilder.cpp:63-71 | after a gap, from any state, a stream fed in clean pieces gives the outputs exactly what parsing it alone gives |
| FrameBuilderClass.FrameBuilder.Feed | src/liblgx/src/FrameBuilder.cpp:168-224 | the class follows ParserModel.Feed for any chunk: callbacks get the model's frames and packets in order, desyncCount is the model's count plus overflowing flushes, and the buffer handed out last is not written |
| FrameBuilderClass.FrameBuilder.FlushVideo | src/liblgx/src/FrameBuilder.cpp:73-85 | the current buffer holds the span from its start up to the flushed place, clamped to the capacity, and behind it what it held before; the other buffer is untouched; desyncCount grows by one iff the flush does not fit |
| FrameBuilderClass.FrameIsSpanIff | src/liblgx/src/FrameBuilder.cpp:112-117 | a frame shown is the span's bytes and nothing else iff the span has a whole frame's bytes |
| FrameBuilderClass.TailIsStale | src/liblgx/src/FrameBuilder.cpp:112-120 | what is shown of a shorter span is the span followed by what its buffer held there before |
| FrameBuilderClass.FrameBuilder.CheckFrameCompletion | src/liblgx/src/FrameBuilder.cpp:107-121 | a frame buffer is handed out, and the buffers exchanged, iff the span is within the tolerance |
| FrameBuilderClass.FrameBuilder.ConsumeAudio | src/liblgx/src/FrameBuilder.cpp:87-105 | takes payload bytes up to the declared length and no further, and hands the packet out iff it is complete |
| FrameBuilderClass.FrameBuilder.ProcessMarker | src/liblgx/src/FrameBuilder.cpp:123-166 | follows the model's marker step, waits iff the header runs past the end, and otherwise moves the scan on |
| FrameBuilderClass.FrameBuilder.ResetForGap | src/liblgx/src/FrameBuilder.cpp:63-71 | forgets span, payload and carry; nothing before the end of the input is looked at again |
| FrameBuilderClass.FrameBuilder.ScanLoop | src/liblgx/src/FrameBuilder.cpp:182-205 | the loop over the work buffer computes the scan over the whole input, with all positions inside the buffer |
| FrameBuilderClass.FrameBuilder.EndFeed | src/liblgx/src/FrameBuilder.cpp:207-223 | what is carried is the input's tail, and everything before it of an open span has been flushed |
| PipelineModel.GapIsolation | src/liblgx/src/CapturePipeline.cpp:24-41 | after a chunk that follows a gap, and any chunks, gaps and input states afterwards, every frame, packet and marker recognised uses only bytes that entered with that chunk or later |
| PipelineModel.FlaggedChunkIsolates | src/liblgx/src/CapturePipeline.cpp:24-41 | the same after a flagged chunk in any input state, taken or skipped |
| PipelineModel.ResyncIsolates | src/liblgx/src/CapturePipeline.cpp:28-35 | the same once data has been skipped, whatever happens before the next chunk is taken |
| LossIsolation.HolesAreIsolated | src/liblgx/src/CapturePipeline.cpp:24-41 | feed the pipeline what a ring without an unflagged hole delivered, with any input states in between: nothing recognised from the chunk after a hole on uses bytes from before the hole |
| LossIsolation.RingRunIsIsolated | src/liblgx/liblgx-usb/src/usb/CaptureStream.cpp:117-205 | the same over every run of the ring in which no overflow drops a chunk that is followed by an unflagged one |
| LossIsolation.ShortReadIsIsolated | src/liblgx/liblgx-usb/src/usb/CaptureStream.cpp:56-60 | after a pooled read that fell short, nothing recognised from its chunk on, as stored, uses bytes from before the loss |
| PipelineModel.ResyncIff | src/liblgx/src/CapturePipeline.cpp:28-35 | after any chunks, gaps and input states, the next chunk counts as following a gap though unflagged iff the last chunk offered was skipped for want of a signal |
| PipelineModel.AwayIsGapIff | src/liblgx/src/CapturePipeline.cpp:25-35 | a period in which no chunk meets a signal leaves reorderer and builder as they were, and makes the next chunk follow a gap iff a chunk was offered in it |
| PipelineModel.ReordererFeed | src/liblgx/src/BufferReorderer.cpp:36-46 | in any feed, output bytes come from after the last reset, earlier output stays, and a pending gap lands on the first new byte |
| PipelineModel.FeedPipeInv | src/liblgx/src/CapturePipeline.cpp:9-11 | the builder has always been fed exactly the reordered bytes |
| EndToEnd.SwappedStreamShowsTruth | src/liblgx/src/CapturePipeline.cpp:37-41 | from any state, let the stream after a gap be, from any place on, a true stream with its pairs exchanged, in any chunks; if its first SAV is found swapped on that grid with only strays against it, and the reordered stream is cut cleanly, the outputs receive what parsing the true stream from that SAV's place gives, up to less than the hold-back and a pair from its end |
| EndToEnd.NormalStreamShowsItself | src/liblgx/src/CapturePipeline.cpp:37-41 | the same for a stream whose first SAV is found in normal order: the outputs receive what parsing it from there gives |
| EndToEnd.SwitchedStreamShowsTruth | src/liblgx/src/CapturePipeline.cpp:37-41 | the same after a change of order, whatever the stream began with, from the verdict on that puts an order in force for good |
| EndToEnd.DeviceStreamShowsTruth | src/liblgx/src/BufferReorderer.h:12-24 | the same from the device's own layout alone, with no hypothesis about verdicts, wherever a gap and the end of the input cut it |
| EndToEnd.DeviceStreamShowsPieces | src/liblgx/src/BufferReorderer.h:12-24 | in the device's layout, the frames and packets that the true stream carries from the pair of its first SAV on, and that the hold-back has let through, are the first things the outputs receive, byte for byte and in order |
| EndToEnd.SwappedStreamShowsPieces | src/liblgx/src/CapturePipeline.cpp:37-41 | the same for any exchanged stream whose first SAV is found swapped on its grid |
| EndToEnd.TruthShowsPieces | src/liblgx/src/CapturePipeline.cpp:9-17 | frames and packets that a shown piece of the true stream starts with are received first, whichever order it arrived in |
| EndToEnd.PipelineParses | src/liblgx/src/CapturePipeline.cpp:9-17 | what is reordered after a gap, from its last flag on, is parsed alone: if it is cut cleanly the outputs receive from then on what parsing just that gives |
| EndToEnd.AfterGapReorders | src/liblgx/src/CapturePipeline.cpp:24-41 | what is reordered after a gap depends on the stream only, not on its chunks |
| WholeFrameExample.FrameIsShown | src/liblgx/src/CapturePipeline.cpp:37-41 | a new pipeline, given a whole frame behind the end of another with all pairs exchanged, shows that frame first |
| Silence.SendBounds | src/liblgx/src/CapturePipeline.cpp:75-91 | one call sends whole stereo frames, at most 100 ms of them, something iff a chunk is owed; the time covered never passes now and lags it by less than a chunk despite truncation |
| Silence.RateBound | src/liblgx/src/CapturePipeline.cpp:75-94 | over any no-signal episode with times in order, n packets in t carry at most the real rate's bytes for t plus a microsecond a packet |
| Silence.SendPays | src/liblgx/src/CapturePipeline.cpp:77-90 | one call pays in bytes for all the time it covers, and for all that is owed and not too old but the last chunk |
| Silence.RateFloor | src/liblgx/src/CapturePipeline.cpp:75-94 | over an episode whose ticks are never further apart than the backlog limit less a chunk, silence is sent at no less than the real rate but for the last chunk |
| Silence.TenMilliseconds | src/liblgx/src/CapturePipeline.cpp:77-90 | ten milliseconds of silence are 1920 bytes |
| AudioGateModel.OpenIffSettled | src/liblgx/src/AudioGate.cpp:6-17 | after any reports in time order the gate is open iff the current run of present reports has lasted the settle time |
| AudioGateModel.ScaleBounds | src/liblgx/src/AudioGate.cpp:38-43 | the gate never amplifies nor changes a sign; full ramp is the identity, none is silence; division truncates toward zero |
| AudioGateModel.ScaleIsPart | src/liblgx/src/AudioGate.cpp:39-41 | the gain is the ramp's part of the whole, rounded toward zero |
| AudioGateModel.SampleIs | src/liblgx/src/AudioGate.cpp:38-43 | a sample is the two's complement value of its bytes, low byte first |
| AudioGateModel.RampStep | src/liblgx/src/AudioGate.cpp:33-35 | from frame to frame the ramp moves by one toward its target, and stays there |
| AudioGateModel.GainOfFrame | src/liblgx/src/AudioGate.cpp:33-44 | while the ramp moves, both samples of a frame get the gain of that frame's ramp position |
| AudioGateModel.SteadyPacket | src/liblgx/src/AudioGate.cpp:27-31 | with the ramp at its target any packet, whole frames or not, is passed on unchanged or all zero |
| AudioGateModel.NeverLouder | src/liblgx/src/AudioGate.cpp:23-46 | no sample of a processed packet is louder than it went in, for any packet, gate and ramp |
| AudioGateModel.ShortcutIsGated | src/liblgx/src/AudioGate.cpp:27-45 | for whole frames the shortcut for a finished ramp gives what ramping every frame gives |
| AudioGateModel.PacketisationIndependent | src/liblgx/src/AudioGate.cpp:23-46 | with the gate fixed, processing two packets of whole frames is processing their concatenation, samples and ramp alike |
| AudioGateModel.SettledGate | src/liblgx/src/AudioGate.cpp:23-46 | from the frame on at which the ramp has run its course, an open gate passes bytes unchanged and a closed one gives zero |
| AudioGateModel.AudioGate.Process | src/liblgx/src/AudioGate.cpp:23-46 | the in-place loop over the packet computes the ramped packet and the ramp position |
| AudioGateModel.AudioGate.UpdateSignal | src/liblgx/src/AudioGate.cpp:6-17 | one report in place is one step of the settle timer |
| CapturePipelineClass.CapturePipeline.Feed | src/liblgx/src/CapturePipeline.cpp:24-48 | the class follows FeedPipe, and each output receives exactly the frames and the gated packets that this feed made the builder emit, in order |
| CapturePipelineClass.CapturePipeline.OnVideoFrame | src/liblgx/src/CapturePipeline.cpp:103-109 | a frame reaches the video output, is counted and ends the blanking iff there is a signal |
| CapturePipelineClass.CapturePipeline.OnAudioPacket | src/liblgx/src/CapturePipeline.cpp:111-119 | the output gets the gated copy of the packet, and the ramp moves on by its frames |
| CapturePipelineClass.CapturePipeline.SetInputState | src/liblgx/src/CapturePipeline.cpp:50-73 | without a signal the video output has been told the current reason and has since shown only cards; it is told once per reason and again after captured frames; silence starts at the loss of signal |
| CapturePipelineClass.CapturePipeline.Tick | src/liblgx/src/CapturePipeline.cpp:93-101 | silence as owed and a card when due, neither while there is a signal |
| CapturePipelineClass.CapturePipeline.SendSilence | src/liblgx/src/CapturePipeline.cpp:75-91 | the statements in place compute Silence.SendSilence |
| CapturePipelineClass.CardsSpacedIff | src/liblgx/src/CapturePipeline.cpp:96-98 | after a card, every run of later ticks keeps the keep-alive interval between cards iff that card was not sent at the clock's epoch |
| CapturePipelineClass.CardsKeepComing | src/liblgx/src/CapturePipeline.cpp:96-100 | after every run of ticks the last card is less than an interval old |
| CapturePipelineClass.FirstCardAtOnce | src/liblgx/src/CapturePipeline.cpp:71 | after a new announcement the first tick sends a card |
| CapturePipelineClass.FramesOfBoth | src/liblgx/src/CapturePipeline.cpp:12-14 | the frames of two runs of callbacks reach the video output one after the other |
| CapturePipelineClass.FramesOfOne | src/liblgx/src/CapturePipeline.cpp:12-14 | a frame reaches it as it is, a packet does not |
| CapturePipelineClass.GatedInOneGo | src/liblgx/src/CapturePipeline.cpp:111-119 | the audio output hears the sound of all packets of whole frames gated in one go, and the ramp stands where that leaves it |
| CaptureRing.After | src/liblgx/liblgx-usb/src/usb/CaptureStream.cpp:117-141 | after every sequence of enqueue, deliver, discard, gap and stop steps: stored = delivered + queued + overflow-dropped + discarded, at most the ring's slots are queued, and deliveries are in the order stored |
| CaptureRing.LossNeverForgotten | src/liblgx/liblgx-usb/src/usb/CaptureStream.cpp:136-210 | after an overflow, a non-empty discard or a marked gap, and any steps afterwards, the gap is pending or on a chunk stored since that is queued or was delivered, even if flagged chunks were dropped |
| CaptureRing.StoresWhatIsOffered | src/liblgx/liblgx-usb/src/usb/CaptureStream.cpp:183-205 | over any run the queue stores exactly the accepted chunks, in order, each as offered or cut to a slot; delivered chunks are stored ones |
| CaptureRing.FlagIff | src/liblgx/liblgx-usb/src/usb/CaptureStream.cpp:190-201 | a chunk is flagged iff it was reported with a gap, a gap was pending, or it overwrites another |
| CaptureRing.PendingIff | src/liblgx/liblgx-usb/src/usb/CaptureStream.cpp:136-141 | a gap is pending iff bytes were lost since the last chunk was stored |
| CaptureRing.EveryHoleFlaggedIff | src/liblgx/liblgx-usb/src/usb/CaptureStream.cpp:190-201 | over any run, at every point each chunk that does not follow the one delivered before it is flagged, iff no overflow drops a chunk that is followed by an unflagged one |
| CaptureRing.HoleUnflaggedIff | src/liblgx/liblgx-usb/src/usb/CaptureStream.cpp:190-201 | one step leaves an unflagged hole iff it is such an overflow |
| CaptureRing.OverflowLeavesHole | src/liblgx/liblgx-usb/src/usb/CaptureStream.cpp:190-201 | from the start, one chunk more than the ring holds: the next chunk delivered is the second, unflagged, and the flag is on the newest |
| CaptureRing.LateStoreIsEarlier | src/liblgx/liblgx-usb/src/usb/CaptureStream.cpp:184-187 | a chunk found wanted before stop and stored after it leaves the queue as if stored before, whatever the consumer did in between |
| CaptureRing.CaptureQueue.EnqueueChunk | src/liblgx/liblgx-usb/src/usb/CaptureStream.cpp:183-205 | the slot ring in place refines the history: one chunk stored, clamped to a slot, over the oldest one iff full, flagged iff a gap is pending or reported |
| CaptureRing.CaptureQueue.TakeOldest | src/liblgx/liblgx-usb/src/usb/CaptureStream.cpp:122-131 | the oldest queued chunk, with the contents and flag it was stored with |
| CaptureRing.CaptureQueue.Deliver | src/liblgx/liblgx-usb/src/usb/CaptureStream.cpp:117-134 | undisturbed, one pass hands over every queued chunk, in order, and empties the ring |
| CaptureRing.CaptureQueue.DiscardAll | src/liblgx/liblgx-usb/src/usb/CaptureStream.cpp:136-141 | empties the ring, and leaves a gap pending iff something was queued or one was already |
| CaptureRing.CaptureQueue.MarkGapPending | src/liblgx/liblgx-usb/src/usb/CaptureStream.cpp:207-210 | the next chunk stored will be flagged |
| TransferPool.EveryExecution | src/liblgx/liblgx-usb/src/usb/CaptureStream.cpp:9-76 | in every execution where start is called once, before stop, whatever the outcome of each transfer and submission: live transfers use disjoint buffer regions, each is freed at most once, the vector lists exactly those not freed, and nothing is submitted once stop has begun |
| TransferPool.EveryExecutionFromStart | src/liblgx/liblgx-usb/src/usb/CaptureStream.cpp:9-76 | the same for every execution from the beginning |
| TransferPool.StartDisjointIff | src/liblgx/liblgx-usb/src/usb/CaptureStream.cpp:100-115 | a start, the first or another, keeps the regions of live transfers disjoint iff none that it submits successfully is in use |
| TransferPool.NothingSubmittedLateIff | src/liblgx/liblgx-usb/src/usb/CaptureStream.cpp:100-115 | over any execution nothing is submitted once stop has begun iff no aligned start comes after it |
| TransferPool.SubmitsLateIff | src/liblgx/liblgx-usb/src/usb/CaptureStream.cpp:212-281 | a single action submits late iff it is the aligned start after stop |
| TransferPool.EmptiedStaysEmpty | src/liblgx/liblgx-usb/src/usb/CaptureStream.cpp:143-154 | once stop has seen the vector empty it stays empty, and every transfer is freed from then on |
| TransferPool.EmptiedHandler | src/liblgx/liblgx-usb/src/usb/CaptureStream.cpp:34-37 | with the vector empty after stop began, no handler is running but possibly the probe's, about to queue the pool, which then changes nothing |
| TransferPool.EmptiedWhileHandling | src/liblgx/liblgx-usb/src/usb/CaptureStream.cpp:34-37 | a run from the beginning in which it is still running then |
| TransferPool.StartSubmits | src/liblgx/liblgx-usb/src/usb/CaptureStream.cpp:100-115 | a start puts one probe, or one read for each region, in flight, as far as they are accepted |
| TransferPool.ReadsNeverEnd | src/liblgx/liblgx-usb/src/usb/CaptureStream.cpp:228-238 | as long as stop has not begun, the device is there and submissions are accepted, no read ever started is lost, and whenever no handler runs all are in flight |
| CaptureStreamClass.StopDrains | src/liblgx/liblgx-usb/src/usb/CaptureStream.cpp:143-154 | what stop waits for comes about: once every listed transfer has come back, in any order and with any outcomes, the vector is empty |
| CaptureStreamClass.StoppedHandlerReleases | src/liblgx/liblgx-usb/src/usb/CaptureStream.cpp:228-238 | once stop has begun, a transfer that comes back leaves the vector, however it ended |
| CaptureStreamClass.PooledTraceIff | src/liblgx/liblgx-usb/src/usb/CaptureStream.cpp:55-73 | a pooled completion leaves a chunk or a pending gap in the queue iff it failed or carried data, or a gap was pending already; one without data leaves the queue as it was |
| CaptureStreamClass.ShortReadIsFlagged | src/liblgx/liblgx-usb/src/usb/CaptureStream.cpp:56-60 | a read that falls short is stored with its contents and flagged; a full one is flagged iff a gap was pending or the ring was full |
| CaptureStreamClass.FailedReadIsGap | src/liblgx/liblgx-usb/src/usb/CaptureStream.cpp:68-73 | a failed read leaves a gap pending and nothing else |
| CaptureStreamClass.ProbeRecognises | src/liblgx/liblgx-usb/src/usb/CaptureStream.cpp:26-37 | a probe that reads a SAV first is stored, unflagged unless something was lost before, and ends the probing; one that reads no SAV marker leaves no trace and is tried again |
| CaptureTransfersClass.CaptureTransfers.AddTransferLocked | src/liblgx/liblgx-usb/src/usb/CaptureStream.cpp:212-220 | listed iff submitted, freed at once otherwise |
| CaptureTransfersClass.CaptureTransfers.RemoveTransferLocked | src/liblgx/liblgx-usb/src/usb/CaptureStream.cpp:222-226 | the find-and-erase loop removes the first occurrence, and reports drained iff nothing is left |
| CaptureTransfersClass.CaptureTransfers.SubmitTransfer | src/liblgx/liblgx-usb/src/usb/CaptureStream.cpp:228-238 | in flight again iff not shutting down and accepted, else unlisted and freed |
| CaptureTransfersClass.CaptureTransfers.DiscardTransfer | src/liblgx/liblgx-usb/src/usb/CaptureStream.cpp:240-244 | unlisted and freed, the others untouched |
| CaptureTransfersClass.CaptureTransfers.QueueAllFrameReads | src/liblgx/liblgx-usb/src/usb/CaptureStream.cpp:269-281 | the loop adds one transfer a region, or none once shutting down |
| CaptureTransfersClass.CaptureTransfers.RecordProbeAttempt | src/liblgx/liblgx-usb/src/usb/CaptureStream.cpp:246-248 | counts, and allows exactly the maximum number of retries |
| CaptureStreamClass.HandlerRuns | src/liblgx/liblgx-usb/src/usb/CaptureStream.cpp:9-76 | a completion handler that nothing interrupts is an execution of the pool, and ends with the transfer resubmitted, released, or released and the pool queued |
| CaptureStreamClass.PooledReadsOnIff | src/liblgx/liblgx-usb/src/usb/CaptureStream.cpp:52-76 | after its handler a pooled read is in flight again, with nothing else changed, iff stop has not begun, the device is there and libusb takes it; else it is freed and struck off |
| CaptureStreamClass.CompletionReadsOnIff | src/liblgx/liblgx-usb/src/usb/CaptureStream.cpp:55-75 | so reads that returned data, failed or were cancelled go on, and those of a device that is gone do not |
| CaptureStreamClass.ProbeReadsOnIff | src/liblgx/liblgx-usb/src/usb/CaptureStream.cpp:9-50 | the same for a probe that starts no frame, which must also have tries left; a cancellation is no try |
| CaptureStreamClass.ProbeCompletionReadsOnIff | src/liblgx/liblgx-usb/src/usb/CaptureStream.cpp:13-49 | so a failed probe and one that starts no frame are tries, and a cancelled probe and one whose device is gone are none |
| CaptureStreamClass.ProbeHandsOver | src/liblgx/liblgx-usb/src/usb/CaptureStream.cpp:26-38 | a probe that starts a frame is freed, and a read for every region takes its place unless stop has begun |
| CaptureStreamClass.ProbeTries | src/liblgx/liblgx-usb/src/usb/CaptureStream.cpp:246-248 | the probe is read once and then eight times more |
| CaptureStreamClass.CaptureStream.ProbeTransferComplete | src/liblgx/liblgx-usb/src/usb/CaptureStream.cpp:9-50 | runs such an execution of the pool, and the queue gets the probe's data iff it starts a frame |
| CaptureStreamClass.CaptureStream.UsbTransferComplete | src/liblgx/liblgx-usb/src/usb/CaptureStream.cpp:52-76 | runs such an execution, and the queue gets the data, flagged iff the read was short, or the gap of a failed read |
| CaptureStreamClass.CaptureStream.StartReading | src/liblgx/liblgx-usb/src/usb/CaptureStream.cpp:100-115 | one action of the pool; starting mid-stream also leaves a gap pending |
| CaptureStreamClass.CaptureStream.BeginStop | src/liblgx/liblgx-usb/src/usb/CaptureStream.cpp:143-149 | sets the shutdown flag for pool and queue at once, and asks for exactly the listed transfers to be cancelled |
| AudioRingModel.EveryInterleaving | src/liblgx/liblgx-pipewire/src/pw/PipeWireAudioOutput.cpp:79-144 | after every interleaving of the two threads' steps: what was heard is the accepted bytes in order, each at most once, minus exactly the trimmed runs, and accepted = heard + trimmed + queued |
| AudioRingModel.EveryInterleavingFromEmpty | src/liblgx/liblgx-pipewire/src/pw/PipeWireAudioOutput.cpp:79-144 | the same for every interleaving from an empty ring |
| AudioRingModel.WriteAvoidsReader | src/liblgx/liblgx-pipewire/src/pw/PipeWireAudioOutput.cpp:82-90 | the byte being written is never one that is queued or being read |
| AudioRingModel.NextKeepsInv | src/liblgx/liblgx-pipewire/src/pw/PipeWireAudioOutput.cpp:79-144 | every single step, with stale snapshots of the other thread's index, keeps the ring consistent |
| AudioRingModel.WrapAgrees | src/liblgx/liblgx-pipewire/src/pw/PipeWireAudioOutput.cpp:80-90 | fill level, place and advance computed on wrapping 32-bit indices are those of unbounded ones |
| PipeWireAudioOutputClass.PipeWireAudioOutput.AudioFrameAvailable | src/liblgx/liblgx-pipewire/src/pw/PipeWireAudioOutput.cpp:79-91 | the packet is appended whole iff it fits, else dropped whole and counted; nothing queued is overwritten |
| PipeWireAudioOutputClass.PipeWireAudioOutput.OnProcess | src/liblgx/liblgx-pipewire/src/pw/PipeWireAudioOutput.cpp:93-144 | the callback's buffer is the oldest untrimmed accepted bytes, then silence; prebuffering, underruns and trims change exactly when they should |
| PipeWireAudioOutputClass.PipeWireAudioOutput.TrimBacklog | src/liblgx/liblgx-pipewire/src/pw/PipeWireAudioOutput.cpp:111-123 | skips, in whole frames, exactly what exceeds the latency target, and only beyond the maximum |
| PipeWireAudioOutputClass.Skipped | src/liblgx/liblgx-pipewire/src/pw/PipeWireAudioOutput.cpp:115-120 | after a trim the backlog is the target, up to less than one frame more |
| PipeWireAudioOutputClass.Wanted | src/liblgx/liblgx-pipewire/src/pw/PipeWireAudioOutput.cpp:106-109 | whole frames, never more than the buffer holds or than was requested, and all of either |
| AudioRingCalls.CallbackRuns | src/liblgx/liblgx-pipewire/src/pw/PipeWireAudioOutput.cpp:93-144 | an undisturbed callback is an execution of the interleaving model that plays what OnProcess promises |
| AudioRingCalls.OfferRuns | src/liblgx/liblgx-pipewire/src/pw/PipeWireAudioOutput.cpp:79-91 | an undisturbed packet is an execution of the interleaving model that accepts or drops it whole |

## Left out

- FrameBuilderClass.FrameBuilder.Feed: does not say what a frame shows behind a span that is too short beyond what TailIsStale says of one flush, because that depends on how much of earlier spans had been flushed, and so on the cuts; nor does it tie the number of overflowing flushes to the stream, for the same reason.
- EndToEnd.SwappedStreamShowsTruth: assumes clean cuts of the reordered stream, the condition that CutTheorem.CutIsUnnoticeableIffClean shows to be exact.
- ParserSound.EmissionSound: its half about frames assumes clean cuts, since an unclean cut can move the start of a span.
- PipelineModel.GapIsolation: is about the bytes of the stream, so it does not cover the stale tail of a short frame noted above.
- CaptureStreamClass.CaptureStream.BeginStop: does not model the wait with its timeout, only what it waits for; that libusb does complete cancelled transfers is libusb's promise.
- CaptureStreamClass.CaptureStream.ProbeTransferComplete: does not model the recorded error message, nor that the handler's parts may interleave with the other thread; the latter is what TransferPool models.
- BufferReordererClass.BufferReorderer.Feed: takes a sink to be present; without one the code keeps the output in its buffer.
- Integer widths: stream offsets, counters and lengths are unbounded. Bytes, checksums, 16-bit samples, the truncating division and PipeWire's 32-bit indices are exact.
- Buffers that grow (the reorderer's pipe and output, the builder's work, carry and packet buffers, ring slots) are sequence-valued fields; the video buffers, the PipeWire ring, the chunk ring and the gate's packet are arrays changed in place.
- The reorderer's order, grid, candidate and count are one field holding a record, and the ring's memory is copied byte by byte.
- Outputs and callbacks are modelled as the list of what they received; what an output does with it is not.
- Memory ordering weaker than the interleaving of index accesses on the PipeWire ring; the index updates are release stores and the reads acquire loads.
- libusb, PipeWire, V4L2, SDL and libao themselves: a completion, an index access or an output call stands for them.
- CommandBridge, Bootstrapper, UsbContext and the recorded command blobs: device traffic without logic of its own.
- SignalStatus, StatusMonitor, DeviceSession, UsbStream and CaptureDaemon: lifecycle wiring; the input state is an arbitrary input of the pipeline.
- NoSignalCard rendering, dump files, logging and statistics: input and output only.
