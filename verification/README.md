# A verified model of quic-tracker's core

quic-tracker is a small QUIC client that speaks draft-17. This project models its hard parts in Dafny and proves,
for all inputs and all runs, what they promise:

- **Stream reassembly.** `addToRead` keeps a buffer, a read offset, a high-water mark and a linked ring of missing
  intervals. `ByteIntervals` and `Leftovers` are the interval algebra, `IntervalRing` the pointer structure,
  `Reassembly`, `SegmentedStreams` and `Stalls` whole runs, `Streams` the object whose fields change.
- **The wire.** `VarInts`, `Frames`, `PacketNumbers`, `Headers`, `Protection` and `Datagrams` go from
  variable-length integers to coalesced, masked and sealed packets; `InitialPackets` is the size of the first one.
- **Acknowledgements.** `Acks` and `AckAgents` encode, decode and process ACK ranges; `MergedAcks` merges frames.
- **The sending agent.** `SendingAgents` is its state machine, `SendingRuns` what every run keeps, `PacketSizes` and
  `MtuBounds` how much a packet holds, `SendingLoop` the agent with its maps updated in place.
- **HTTP/3.** `Http3Frames` is the frame codec and `Http3Decoder` the incremental decoder.
- **RTT.** `Rtt` is the estimator.

Ciphers are parameters of which only "opening undoes sealing" and "masks have five bytes" is asked. Channels are
sequences of what was submitted, and goroutine events are single steps.

`dafny verify dfyconfig.toml` checks everything.

## Where the code departs from its intent

The model follows the code. Each of these has a concrete input or an exact condition in the table below.

- `Exclude` mixes closed and half-open bounds, so a fill that starts inside a gap and ends no later than it forgets
  bytes. Delivery can then hand out bytes nobody sent (`MishandledFillCorrupts`). A fill that covers a gap and runs past
  it leaves an empty or inverted interval. At the front of the list this stops delivery until a frame ends exactly where
  the leftover ends, at or below the read offset; no byte still to be submitted helps (`StuckIff`,
  `CoveringFillStallsIff`), while an empty frame can (`EmptyFrameReleases`).
- `Add` of an interval that covers two others leaves the list out of order (`AddCoveringTwo`); the union stays right.
- A duplicate packet number makes a gap wrap around, and writing the ACK frame panics (`WritableIff`).
- `GetAckedPackets` lists gaps as acknowledged (`AckedPacketsExactIff`); `ProcessAck` never returns anything.
- `mergeAckFrames` misses the last number of a block, counts later blocks from the wrong place and biases gaps by 1
  instead of 2, so a merged frame can both lose numbers (`MergingLosesZero`) and claim others (`MergingInventsNine`).
- An ACK_ECN frame is written with the type of an ACK; unidirectional MAX_STREAMS and STREAMS_BLOCKED are read back as
  bidirectional (`FrameRoundTripIff`).
- Empty connection IDs do not survive a long header (`LongHeaderRoundTripIff`).
- The next packet number can be misread across a byte boundary (`NextNumberCanBeMisread`).
- The frame left in a buffer after an overflow is not counted, so a packet can exceed the MTU by one frame
  (`BoundIsReached`). Merging ACK frames can add to a packet (`MergingCanGrow`), and frames moved from a Best buffer are
  not checked against the MTU at all (`MovedFramesExceed`). `PacketExceedsIff` has the exact condition.
- `ReadPUSH_PROMISE` never reads the header block (`HttpFrameRoundTripIff`), and a frame with an eight-byte length
  blocks its stream for good (`LongFrameBlocks`).

## Model

| member | source | states |
|---|---|---|
| `ByteIntervals.OverlapIsClosedIntersection` | streams.go:402-407 | For intervals that are not inverted, Overlap holds exactly when the closed intervals share a point, so touching intervals overlap. |
| `ByteIntervals.MergeIsUnion` | streams.go:408-410 | Merging overlapping intervals gains and loses no byte when both are proper or the first starts no later. |
| `ByteIntervals.MergePassSettles` | streams.go:198-213 | On every start-sorted list, empty and inverted intervals included, the pass ends sorted and non-touching and denotes the same bytes. |
| `ByteIntervals.CanonicalIsUnique` | streams.go:198-213 | Two sorted, proper, non-touching lists with the same bytes are equal. |
| `ByteIntervals.MergePassIsCanonicalForm` | streams.go:198-213 | On a start-sorted proper list the pass returns the one canonical list of the same bytes. |
| `ByteIntervals.FillSound` | streams.go:181-196 | Fill keeps a settled list settled and never records a byte that was filled or was not missing. |
| `ByteIntervals.FillExactIff` | streams.go:181-196 | Fill removes exactly the filled bytes if and only if no gap starts before the fill and ends no earlier than it. |
| `ByteIntervals.AddIsUnion` | streams.go:162-179 | Adding a proper interval to proper intervals records exactly the union. |
| `ByteIntervals.AddAtEnd` | streams.go:93-96 | The calls addToRead makes keep every settled list settled and record the union. |
| `ByteIntervals.AddCanonicalIff` | streams.go:162-179 | Adding to a canonical list leaves a canonical list if and only if at most one recorded interval reaches the new one. |
| `ByteIntervals.AddCoveringTwo` | streams.go:162-179 | {1,2},{4,5} plus {0,6} gives {1,2},{0,6}. |
| `IntervalRing.IntervalList.constructor` | streams.go:232-232 | A new list is a well-formed, empty sentinel ring. |
| `IntervalRing.IntervalList.Insert` | streams.go:262-272 | Linking an element after a position keeps the ring well formed and inserts it there in the sequence of elements. |
| `IntervalRing.IntervalList.Unlink` | streams.go:279-288 | Unlinking an element keeps the ring well formed, removes it from the sequence and clears its pointers. |
| `IntervalRing.IntervalList.Remove` | streams.go:292-299 | Removes the element if it belongs to this list and returns its value either way. |
| `IntervalRing.IntervalList.InsertBefore` | streams.go:316-322 | Inserts before the mark, or does nothing and returns null if the mark is not of this list. |
| `IntervalRing.IntervalList.InsertAfter` | streams.go:327-333 | Inserts after the mark, or does nothing and returns null if the mark is not of this list. |
| `IntervalRing.IntervalList.MoveToFront` | streams.go:338-344 | The element moves to the front, the others keep their order. |
| `IntervalRing.IntervalList.MoveToBack` | streams.go:349-355 | The element moves to the back, the others keep their order. |
| `IntervalRing.IntervalList.MoveBefore` | streams.go:360-366 | The element moves just before the mark, the others keep their order. |
| `IntervalRing.IntervalList.MoveAfter` | streams.go:370-376 | The element moves just after the mark, the others keep their order. |
| `IntervalRing.IntervalList.PushBackList` | streams.go:379-384 | Appends a copy of the other list's values and terminates, also when the list is appended to itself. |
| `IntervalRing.IntervalList.PushFrontList` | streams.go:388-393 | Prepends a copy of the other list's values in order and terminates, also for the list itself. |
| `IntervalRing.IntervalList.EnsureConsistency` | streams.go:198-213 | The loop that replaces neighbours while it iterates computes the merge pass. |
| `IntervalRing.IntervalList.Add` | streams.go:162-179 | The pointer code computes the interval algebra's Add. |
| `IntervalRing.IntervalList.Fill` | streams.go:181-196 | The loop that inserts and removes while it iterates equals a flat-map of Exclude followed by one merge pass. |
| `Reassembly.AddToReadKeepsWellFormed` | streams.go:75-122 | Every frame whatsoever keeps the buffer as long as the high-water mark, the gaps settled and within it, and never lowers the read offset. |
| `ByteIntervals.FillDenotes` | streams.go:181-196 | After any fill of a settled list exactly those bytes are recorded that were, less the filled ones and the ones a mishandled gap forgets. |
| `Reassembly.StepRecordedIff` | streams.go:87-117 | After any frame each byte below the mark is still received or recorded if and only if everything Fill forgets for it had been received. |
| `Reassembly.RecordedThroughoutIff` | streams.go:75-122 | Over every run of any frames that holds after every step if and only if every step forgets received bytes only. |
| `Reassembly.WhatIsSubmitted` | streams.go:75-122 | Over every run of frames cut from one source each submitted byte is the source's if it had arrived by then, and zero if it had not. |
| `Reassembly.SafeIff` | streams.go:75-122 | Over every such run the submitted chunks concatenate to the source up to the read offset if and only if every non-zero byte had arrived when it was submitted. |
| `Reassembly.ReassemblyIsSafe` | streams.go:75-122 | In particular they do, in any order, overlapping or repeated, when every fill forgets received bytes only. |
| `SegmentedStreams.ReassemblyIsExact` | streams.go:79-121 | For segments of a partition in any order with repetitions, each that lands in a gap following one that has arrived: the read offset is the first byte not arrived, the buffer is as long as the high-water mark, all before is submitted, and the stream is closed exactly when all segments have arrived. |
| `SegmentedStreams.ExactThroughoutIff` | streams.go:93-117 | Over every run of segments the gap list is exact after every step if and only if each segment Fill handles is the first of its gap. |
| `SegmentedStreams.ExactThroughoutIffInPlace` | streams.go:93-117 | The same on the arrivals alone: if and only if each segment has come before, lies at or above everything seen, is the first, or follows one that has come. |
| `SegmentedStreams.WritingCutsSegments` | frames.go:399-412 | Writing a stream part by part sends exactly its segments, with their lengths and non-zero offsets, and closes with the last. |
| `SegmentedStreams.WrittenFramesReadBack` | frames.go:344-412 | Each of these frames is read back from the wire as it was written, whatever follows it. |
| `SegmentedStreams.MishandledFillCorrupts` | streams.go:102-117 | Three frames of a stream of ones make addToRead submit zeros. |
| `Stalls.StuckStepIff` | streams.go:102-117 | When the first gap is a leftover at the read offset, the stream goes on exactly when a frame, empty or not, ends where the leftover ends, at or below the read offset; any other frame submits nothing and leaves it stuck. |
| `Stalls.StuckIff` | streams.go:75-122 | In every continuation of a stuck run nothing more is submitted if and only if no frame ends where the leftover ends when it arrives, which is worked out from the frames alone. |
| `Stalls.StuckForGood` | streams.go:75-122 | In particular no frame that reaches past the read offset helps: no new byte and no retransmission of an unsubmitted one. |
| `Stalls.GetsStuckIff` | streams.go:102-117 | From a canonical list whose first gap is at the read offset, a fill, empty or not, makes the stream stuck if and only if it covers that gap and runs past it, or cuts it right behind its first byte. |
| `Stalls.CoveringFillStallsIff` | streams.go:102-117 | After two frames that bring every byte below 4, nothing is submitted in any continuation if and only if no empty frame at offset 0 arrives. |
| `Stalls.EmptyFrameReleases` | streams.go:102-117 | An empty frame at offset 0 makes addToRead submit all four bytes. |
| `Leftovers.LeftoverRemovedIff` | streams.go:411-420 | A fill, empty or not, removes an empty or inverted interval exactly when it ends where that one ends, and otherwise leaves one with the same start. |
| `Leftovers.FillCanonicalIff` | streams.go:181-196 | On every settled list, a fill that mishandles no gap leaves a canonical list if and only if no leftover stays and either nothing is covered and run past, or some gap has its back covered. |
| `Leftovers.FillKeepsCanonicalIff` | streams.go:181-196 | The same for canonical lists, where only the gaps covered and run past matter. |
| `Leftovers.FrontLeftover` | streams.go:181-196 | Whatever the fill, a leftover at the front of a settled list stays in front unless the fill ends where it ends. |
| `Streams.Stream.Receive` | streams.go:75-122 | addToRead on the object's fields and its ring computes the step on values. |
| `Streams.Stream.NewStreamFrame` | frames.go:399-412 | The frame carries the stream ID, the next bytes of the stream with their length, and their offset if it is not 0; the sending half grows by them. |
| `Streams.ReceiveAll` | streams.go:64-122 | A fresh object fed a whole run ends in the state the run theorems are about. |
| `VarInts.VarIntRoundTrip` | lib/varint.go:47-116 | Reading undoes writing whatever follows, and leaves exactly that. |
| `VarInts.VarIntPrefixFree` | lib/varint.go:100-116 | If two encodings with anything behind them agree, the numbers and what follows are the same. |
| `VarInts.ReadVarIntBound` | lib/varint.go:47-94 | Whatever is read fits 62 bits and took the number of bytes its first byte announces, no fewer than needed. |
| `Frames.FrameRoundTripIff` | frames.go:19-74 | A frame that declares itself truthfully is read back as itself, whatever follows, if and only if it is no ACK_ECN, no unidirectional limit, and a STREAM frame's missing offset or length bit loses nothing. |
| `Frames.FrameListRoundTripIff` | packets.go:186-225 | Parsing the encoding of a list of frames gives the list back if and only if each can be recovered where it stands. |
| `Frames.ParseFrames` | packets.go:208-225 | The loop over a payload computes the parse on values, for any bytes. |
| `Frames.WritePayload` | packets.go:186-192 | The loop that appends frame after frame computes the encoding on values. |
| `Frames.PayloadSize` | frames.go:154-165 | The encoded size is the sum of the frames' lengths, and FrameLength is that of the written frame modulo 2^16. |
| `PacketNumbers.TruncatedLengthIsLeast` | common.go:70-80 | The length Truncate picks is the least n > 0 with x < 256^n. |
| `PacketNumbers.TruncatePanicsIff` | common.go:70-80 | Truncate panics exactly when the number is below the largest acknowledged one, or 2^32 - 1 or more are outstanding. |
| `PacketNumbers.JoinRecoversIff` | common.go:110-112 | Join gives the number back if and only if number and base agree above the bytes kept. |
| `PacketNumbers.NextNumberCanBeMisread` | common.go:110-112 | The number right after the largest received can be joined to another one. |
| `PacketNumbers.NumbersNeverReusedAndPanicIff` | connection.go:65-69 | In every run with a peer that acknowledges only numbers handed out, no number is reused between resets, and the next header panics exactly when 2^32 - 1 or more are outstanding. |
| `Headers.HeaderSize` | headers.go:95-101 | HeaderLength is the number of bytes Encode writes. |
| `Headers.LongHeaderRoundTripIff` | headers.go:70-126 | A long header is read back if and only if both connection IDs are non-empty and joining recovers the packet number. |
| `Headers.ShortHeaderRoundTripIff` | headers.go:157-187 | A short header is read back if and only if its connection ID has the expected length and joining recovers the packet number. |
| `Headers.CidsNeverEmpty` | headers.go:107-112 | No bytes are ever read as a long header with an empty connection ID. |
| `Protection.ApplyMaskTwice` | connection.go:89-95 | Masking twice with the same mask gives the bytes back. |
| `Protection.SampleUnmasked` | crypto.go:99-118 | The sample is the same before and after masking and does not depend on the packet number's length. |
| `Datagrams.UnmaskRecovers` | agents/parse_agent.go:57-65 | A reader that sees only the masked header recovers the sealed bytes, whatever follows them. |
| `Datagrams.TurnRecovers` | agents/parse_agent.go:33-134 | One turn of the loop recovers the packet at the head of a datagram and leaves exactly the rest. |
| `Datagrams.DatagramRoundTrip` | agents/parse_agent.go:33-134 | For every mask function and lawful AEAD, the loop recovers exactly the packets that were sealed, masked and concatenated, in order, to the end of the datagram, with the largest numbers noted. |
| `Datagrams.UnmaskInPlace` | agents/parse_agent.go:57-65 | Flipping the bytes in the datagram's array computes the unmasking on values and touches nothing before the packet. |
| `Datagrams.ParseInPlace` | agents/parse_agent.go:33-134 | The loop over the array computes the parse on values, for any bytes. |
| `InitialPackets.Pad` | connection.go:136-142 | The loop appends exactly the padding that is missing, and each frame adds one byte. |
| `InitialPackets.InitialSize` | connection.go:129-144 | Whatever the payload, token and IDs, the sealed Initial has at least one byte less than the target and at least 1200; a padded one never exceeds the target and meets it exactly when the length field grew. |
| `Acks.SortedSorts` | connection.go:164-164 | Sorting gives a descending permutation of the queue. |
| `Acks.RunsRoundTrip` | connection.go:173-187 | The run-encoding loop with a bias of 0 to 2 is inverted by the reading with the same bias on every strictly descending list. |
| `Acks.BuildBlocks` | connection.go:173-187 | The loop over the sorted numbers, in 64-bit arithmetic, computes the blocks on values. |
| `Acks.AckFrameIsExact` | connection.go:163-189 | Without duplicates the frame acknowledges exactly the queue under section 19.3.1 of RFC 9000, with one block per maximal run. |
| `Acks.WritableIff` | connection.go:163-189 | The frame can be written if and only if the queue has no duplicates. |
| `AckAgents.SubmittedAcksAreExact` | agents/ack_agent.go:29-51 | Over every run in all spaces the submitted frame is writable exactly when no number arrived twice, and then acknowledges exactly the numbers received in its space, also after being written and read. |
| `AckAgents.AckAgent.GetAckFrame` | connection.go:163-189 | Sorts the queue in place and returns that frame, or nil for an empty queue. |
| `AckAgents.AckAgent.OnPacket` | agents/ack_agent.go:29-51 | The agent's queues and submissions stay those of the run of arrivals. |
| `AckAgents.GetAckedPackets` | frames.go:166-186 | Lists the contiguous run from the largest number down over all blocks and gaps. |
| `AckAgents.WalkEndsAt` | frames.go:166-186 | That run ends exactly at the smallest number when gaps are biased by 1, and one above it per extra block with the standard's 2. |
| `AckAgents.AckedPacketsExactIff` | frames.go:166-186 | On every valid frame, received ones included, it lists exactly the numbers the frame acknowledges if and only if there is a single block. |
| `AckAgents.RecoveryAgent.ProcessAck` | agents/recovery_agent.go:105-129 | For every frame and buffer nothing is returned and exactly the capped walk's numbers leave the buffer; within the thresholds these are the ones GetAckedPackets lists. |
| `AckAgents.RemovedIsListedIff` | agents/recovery_agent.go:105-129 | On every valid frame ProcessAck removes the numbers GetAckedPackets lists if and only if no block exceeds 1000 and no gap 999. |
| `MergedAcks.OwnAcksAreValid` | connection.go:163-189 | Every frame the client builds without duplicates has a smallest number that is not negative. |
| `MergedAcks.CollectedExactIff` | agents/send_agent.go:210-221 | What is collected from a frame is what it acknowledges if and only if it acknowledges one number only. |
| `MergedAcks.MergedReadsLowered` | agents/send_agent.go:199-248 | For all valid frames, a receiver of the merged frame reads every collected number lowered by the number of breaks above it. |
| `MergedAcks.MergesExactlyIffLowered` | agents/send_agent.go:199-248 | For all valid frames the merged frame reads as what they acknowledged if and only if the collected list, lowered by its breaks, is the list of what they acknowledged. |
| `MergedAcks.ErrorsCanCancel` | agents/send_agent.go:199-248 | Merging acknowledgements of 6, 3, 1, 0 and of 3, 2, 1, 0 collects 4, which nobody acknowledged, and is read right all the same. |
| `MergedAcks.MergesExactlyIff` | agents/send_agent.go:199-248 | Where everything collected is acknowledged, the merge is exact if and only if all that was acknowledged was collected and is one run. |
| `MergedAcks.SingleBlocksMergeIff` | agents/send_agent.go:199-248 | For frames of one block each, the merge is exact if and only if their numbers are one run and each frame's smallest number is its only one, another's largest, or above another's smallest. |
| `MergedAcks.MergingLosesZero` | agents/send_agent.go:213-216 | Merging acknowledgements of 1, 0 and of 2, 1, 0 loses 0. |
| `MergedAcks.GapNumberCollected` | agents/send_agent.go:213-219 | From a frame that acknowledges 10, 5, 4, 3 the numbers 10 and 9 are collected. |
| `MergedAcks.MergingInventsNine` | agents/send_agent.go:199-248 | Merged with an acknowledgement of 11, that frame makes a receiver take 9 for acknowledged. |
| `MergedAcks.MergedReadsRightIff` | agents/send_agent.go:231-245 | A receiver reads the blocks of a merged frame as the collected numbers if and only if those are one contiguous run. |
| `MergedAcks.MergedEncodable` | agents/send_agent.go:231-245 | Merging valid frames that can be written gives one that can be written. |
| `MergedAcks.MergeAckFrames` | agents/send_agent.go:199-248 | On any frames, in 64-bit arithmetic, the function computes the merged frame of the theorems above, from the largest of the frames' largest numbers. |
| `MergedAcks.MergedIs` | agents/send_agent.go:223-229 | The merged frame does not depend on the order in which the map of numbers is traversed. |
| `SendingAgents.StepRouted` | agents/send_agent.go:80-172 | Every event keeps frames where their level allows, packets non-empty, and held packets at unavailable levels. |
| `SendingAgents.FilledKeeps` | agents/send_agent.go:44-64 | Filling a packet neither loses, reorders nor invents a non-ACK frame of any level. |
| `SendingAgents.FilledAcks` | agents/send_agent.go:55-61 | A packet carries one ACK frame if any was buffered: the one, or one that starts at the largest number of them all. |
| `SendingAgents.ChosenIsBest` | agents/send_agent.go:183-197 | The level chosen may carry the frame, no better available level may, and it is available unless application data waits for 1-RTT. |
| `SendingRuns.StepLine` | agents/send_agent.go:80-172 | Every event keeps the frames of a real level in the order sent, held back, waiting, and adds a submitted one at the end. |
| `SendingRuns.StepEverywhere` | agents/send_agent.go:80-172 | Every event keeps the number of times each non-ACK frame is sent, held or waiting, plus what is submitted. |
| `SendingRuns.StepNotStranded` | agents/send_agent.go:80-172 | After every event each non-empty buffer at an available level, or at a level to be chosen, has an armed timer. |
| `SendingRuns.EveryRunIsSound` | agents/send_agent.go:80-172 | In every run: nothing is sent at an unavailable level, BestAppData frames travel only in 0-RTT or 1-RTT packets, nothing is stranded, each real level's frames keep their order, and each submitted frame is at exactly one place. |
| `SendingRuns.TimersRunOut` | agents/send_agent.go:124-155 | With no new input at most eight timer firings can happen, in any order. |
| `SendingRuns.QuietMeansSent` | agents/send_agent.go:80-172 | Once no timer is armed, the frames of each available level are sent exactly once and in order, and so are, without order, the frames whose level the agent chooses (application data once 1-RTT is available). |
| `PacketSizes.OnlyTheLeftBehindIsMissed` | agents/send_agent.go:83-153 | In every run a buffer's counted length is its true one modulo 2^16, less exactly the frame an overflow has left behind in it. |
| `PacketSizes.ReachedWithMarks` | agents/send_agent.go:80-172 | For every reachable state it is determined at which levels an overflow has left a frame behind. |
| `PacketSizes.FilledSize` | agents/send_agent.go:44-61 | A packet holds as many bytes as its buffer plus what merging the buffered ACK frames adds or saves, nothing if there is at most one. |
| `PacketSizes.FormedLeaves` | agents/send_agent.go:66-115 | The packet an event forms is the one it sends or holds back. |
| `PacketSizes.PacketExceedsIff` | agents/send_agent.go:83-153 | In every run a packet formed from a buffer holds the buffered bytes plus the growth by merging, and the agent has counted them, modulo 2^16, less the frame left behind; below 2^16 bytes it exceeds the MTU if and only if the counted bytes, the frame left behind and the growth do. From an empty buffer it is the frame that does not fit, longer than the MTU if submitted at a real level. |
| `PacketSizes.OnlyTheLeftBehindExceeds` | agents/send_agent.go:83-123 | Where the counted length is within the MTU and at most one ACK frame is buffered, a packet exceeds the MTU if and only if a frame was left behind and does not fit with the counted ones. |
| `MtuBounds.PacketsExceedByOneFrame` | agents/send_agent.go:83-123 | While frames of at most F bytes are submitted at real levels, every packet is made of buffered frames of together at most MTU + F bytes. |
| `MtuBounds.BoundIsReached` | agents/send_agent.go:103-109 | For every MTU and every F, a run of frames of at most F bytes sends a packet of MTU + F bytes. |
| `MtuBounds.MovedFramesExceed` | agents/send_agent.go:132-143 | For any two frames no longer than the MTU, one submitted at Initial and one at Best, a run that leaves nothing behind forms a packet of both. |
| `MtuBounds.MergingCanGrow` | agents/send_agent.go:55-58 | Two ACK frames of together 17 bytes are merged into one of 21. |
| `SendingLoop.ChooseBestEncryptionLevel` | agents/send_agent.go:180-197 | The search returns the first available level of its order, 1-RTT for application data and Initial otherwise if there is none. |
| `SendingLoop.Fill` | agents/send_agent.go:44-61 | The loop gives the other frames in order and then one ACK frame, merged if there are several. |
| `SendingLoop.SendingAgent.OnQueuedFrame` | agents/send_agent.go:80-123 | The handler takes the state machine's step for a queued frame and keeps the routing invariant. |
| `SendingLoop.SendingAgent.FillAndSendPacket` | agents/send_agent.go:66-73 | The handler takes the step for a real level's timer. |
| `SendingLoop.SendingAgent.OnBestTimerFired` | agents/send_agent.go:132-155 | The handler takes the step for a timer whose level has to be chosen. |
| `SendingLoop.SendingAgent.OnLevelAvailable` | agents/send_agent.go:156-172 | The handler takes the step for new keys; reading keys change nothing. |
| `Http3Frames.HttpFrameRoundTripIff` | http3/http3.go:28-348 | A frame as the constructors make it is read back if and only if a PUSH_PROMISE's header block is all zeros and a PRIORITY's fields fit their bits. |
| `Http3Frames.WireLengthIsSize` | http3/http3.go:69-75 | WireLength is the number of bytes written. |
| `Http3Frames.ParseSettings` | http3/http3.go:242-251 | The settings loop terminates on any bytes and computes the reading on values. |
| `Http3Decoder.PeekIgnoresStale` | agents/http_agent.go:263-268 | The loop's guard holds exactly when a whole frame is buffered, whatever bytes lie behind the buffer. |
| `Http3Decoder.WholeFrameReads` | agents/http_agent.go:196-199 | Reading a whole frame never panics, and its WireLength is the bytes taken. |
| `Http3Decoder.BytesConserved` | agents/http_agent.go:193-204 | Emitted WireLengths plus the residual equal the bytes fed. |
| `Http3Decoder.ChunkingDoesNotMatter` | agents/http_agent.go:193-204 | For every byte string and every split into chunks the decoder emits, and keeps, what it does for the whole. |
| `Http3Decoder.StreamDecodesIff` | agents/http_agent.go:193-204 | A stream of frames is emitted as written if and only if each survives the codec and has a length of at most four bytes. |
| `Http3Decoder.LongFrameBlocks` | agents/http_agent.go:263-268 | Behind an eight-byte length nothing is ever emitted. |
| `Http3Decoder.StreamBuffer.AttemptDecoding` | agents/http_agent.go:193-204 | The loop over the buffer terminates and emits exactly the one-shot decoding. |
| `Http3Decoder.StreamBuffer.Receive` | agents/http_agent.go:119-125 | Appending a chunk and decoding takes the step the chunking theorem is about. |
| `Rtt.EstimatesStayWithinSamples` | agents/rtt_agent.go:86-111 | After every run MinRTT is the least raw sample, MinRTT <= SmoothedRTT <= the largest one, and RTTVar <= the largest one. |
| `Rtt.LargestDelayIsNoted` | agents/rtt_agent.go:95-97 | After every run MaxAckDelay is the largest delay reported for a packet that held more than ACK frames. |
| `Rtt.RunSmooths` | agents/rtt_agent.go:86-111 | After any run, n repetitions of a sample smooth n times towards its adjusted value, the minimum being settled by the first. |
| `Rtt.RunReachesFromAbove` | agents/rtt_agent.go:99-111 | In every run, from above, SmoothedRTT reaches a repeated sample exactly. |
| `Rtt.RunSettlesFromBelow` | agents/rtt_agent.go:99-111 | In every run, from below, it settles at most 7 under a repeated sample; from 0 it jumps there. |
| `Rtt.SmoothStandsStillIff` | agents/rtt_agent.go:99-111 | SmoothedRTT stands still exactly at the sample or up to 7 below it. |
| `Rtt.RunVariationSettles` | agents/rtt_agent.go:103-109 | In every run, once SmoothedRTT stands d below a repeated sample, RTTVar comes down to exactly d, or settles at most 3 below it. |
| `Rtt.RttAgent.UpdateRtt` | agents/rtt_agent.go:86-111 | The updates of the fields, in their order, compute the step the run theorem is about. |
| `Rtt.Measure` | agents/rtt_agent.go:86-111 | A fresh agent fed a run of samples ends in the state the run theorem is about. |

## Left out

- Key derivation, TLS, QPACK, transport parameters, sockets, tracing, test scenarios and the small agents around them.
- Version Negotiation and Retry payloads: a client does not send them; the parser only recognises them.
- The timer-driven retransmission of agents/recovery_agent.go:42-52 and 131-146, which depends on real time.
- Real time: a timer is armed or not, and may fire whenever it is armed. Races between goroutines, channel capacities,
  logging, allocation limits and slices reaching past a buffer's capacity.
- Offsets and lengths of streams are unbounded: they come from 62-bit integers and their sums do not reach 2^64.
  `ReadCloseOffset`'s maximal value is an absent offset.
- A STREAM frame's Length is the length of its data, as both ways of making one arrange.
- Floating point: RTT averages are exact integer divisions, and Truncate's logarithm is an integer one.
- `GetAckedPackets` and `ProcessAck` are modelled for frames with at least one block, as every reader and writer makes.
- Frames submitted to the sending agent can be written; FrameLength panics on others before they are buffered.
- The origin level that frames carry in the sending agent's model is not in the code; it is there to say where they go.
- PacketsExceedByOneFrame: frames submitted at Best levels are moved into a buffer without any check of its length, so
  there is no bound with them; PacketExceedsIff covers those runs too.
- PacketExceedsIff: for a buffer of 2^16 bytes or more, whose counter has wrapped around, the packet's size and the counter
  are stated, but not as a comparison of the counter with the MTU.
- MergesExactlyIff: asks that everything collected is acknowledged; MergesExactlyIffLowered asks nothing but valid frames.
- DatagramRoundTrip: 0-RTT packets are not part of it, since the parser's switch over packet types rejects them.
