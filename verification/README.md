# The forwarding core of ion-sfu and the room and recording logic of its controller

This project models the parts of the media server that share wrapping 16-bit sequence numbers,
ring buffers and bit-packed wire formats, and two parts of the controller, and proves what they
promise to each other.

- **Transport-wide congestion control** (`twcc_*.dfy`). The responder collects arrival records and
  writes feedback packets into fixed byte arrays. Each method of the class is tied to a function:
  the collection of a report's packet list, the pass over the statuses, the choice of chunks, the
  bytes. A decoder for the chunks, the deltas and the whole packet, written after sections 3.1.1 to
  3.1.5 of draft-holmer-rmcat-transport-wide-cc-extensions-01, is the independent reference.
  `twcc_limits.dfy` says which reports fit the arrays, `twcc_unwrapping.dfy` which arrivals get their
  true numbers.
- **Packet bucket** (`bucket.dfy`, `bucket_ring.dfy`). A flat byte buffer cut into slots, and the map
  from unwrapped sequence numbers to packets that it implements, over all runs.
- **NACK queue and packet buffer** (`nack_*.dfy`, `sequence_counter.dfy`, `loss_*.dfy`,
  `buffer.dfy`). Unwrapping, the ledger of lost packets, the packing into pairs, when that packing is
  the shortest possible, and the life of a request.
- **Down track** (`downtrack_step.dfy`, `downtrack.dfy`, `sequencer.dfy`, `vp8.dfy`,
  `retransmit.dfy`). How numbers, timestamps and picture numbers are rewritten over drops and source
  switches, and the proof that a retransmission sends the packet that was written the first time, and
  nothing else as long as the buckets are less than a cycle past the packets that the sequencer has
  metadata of.
- **NTP time** (`ntp.dfy`).
- **Rooms** (`node_keys.dfy`, `room_protocol.dfy`, `room_store.dfy`). The protocol over a shared Redis
  store by which controllers agree on a room's media node, as interleaved atomic commands.
- **Recordings** (`sorted_search.dfy`, `recordings.dfy`). The sorted index of recordings and the
  two-level search for the recording of a moment.

`words.dfy` has Go's fixed-width arithmetic as integers with the wrap-around written out. Classes
stand for the source's mutable objects; their methods are proved against functions of the old
state, and runs are reasoned about through these functions. Ghost fields (`ring`, `ledger`,
`entries`, `fillings`, `held`) hold the abstract state.

The clock, random numbers, the parser of RTP packets and the remaining lifetime of a Redis key are
parameters. Writing to a subscriber appends to the field `written`, the feedback callback to the
field `feedback`.

## Where the code differs from what it is for

Each of these is proved, with the exact condition under which it happens. Only an input is given for
four of them: `StaleEntryTakesLiveRoom` (a run; when an entry is left behind is exact),
`TrimmedSessionHidesEarlierOnes` (when something is found is exact), `ShorterNameMaySortBehind` and
`NegativeNamesSortBackwards`.

- The last status vector of a feedback report is filled by a loop that compares its counter with the
  length of the list it pops from, so that only half of the pending statuses go into it
  (`LastVector`, `LastFlushDropsHalf`); and a run of more than 8191 equal statuses does not fit the
  13 bits of its chunk (`RunChunkRoundTrip`).
- A delta that does not fit an int16 is replaced by the limit that the sign of the truncated value
  suggests (`SaturateExact`), which is the wrong one for half of all such deltas
  (`WrongLimitEveryCycle`, `WrongLimitBelow`); either limit puts the receiver's clock further off than
  the truncation of up to 2^14 deltas could (`AccuracyIff`).
- A report is written into arrays of 100 and 200 bytes without a check. Up to 100 pending arrivals
  always fit (`HundredFit`), but the report that the 101st one makes due overflows if and only if it
  takes them all and none of them is 0 to 255 ticks after the one before it in the order of the
  numbers (`HundredAndOneIff`), as with 101 numbers in reverse order (`BackwardsOverflows`).
- Arrival records below the last reported number are skipped by the collection, but the same number
  of records is then cut from the front of the list, so that records are lost or repeated
  (`ConservedUnlessLate`). If all of them are below it, and only then, nothing is collected and the
  payload of the report before is sent again (`StaleIff`, `Responder.Push`).
- The responder counts a cycle whenever a low number follows a high one. A number that is late over
  the boundary is put a cycle too high, and so is every number after it (`NextIsRightIff`,
  `RunIsRightIff`, `LateOverTheBoundary`); the reports then list the 65534 numbers in between as lost.
- The bucket looks at the sequence number bytes of a slot, not at its size word, to find duplicates,
  so that an empty slot with old bytes makes a new packet a duplicate (`FreshSlotLooksLikeNumberZero`).
  A packet too long for a slot goes on in the next one (`LongPacketOverwritesNext`).
- A packet exactly half a cycle from the head is ahead for the bucket and late for the buffer's
  counter (`InStep`, `HalfCycleSplits`). A gap that crosses the middle of the number space is
  entered under numbers of the wrong cycle (`SkippedNumberIsCorrectIff`, `GapAcrossTheMiddle`).
- A full NACK queue shifts its entries down without getting shorter (`PushIsInsertion`). The
  test for numbers at least three behind the head wraps around for a head of 0 or 1
  (`RoundRequestsIff`). A packet ID of 0 stands for "no pair yet" (`NumberZeroIsNotRequested`). The
  reach test wraps above 65519, so that every number packed after a head above that gets a pair of its own, and the reach of a pair goes
  around the end of the number space, which the packing does not use (`MinimalIff`).
- The sequencer computes a slot for a late packet and then stores it at the head's slot, after which
  the head is not found, and any other number is looked up in the slot of the one above it
  (`LatePushHidesHead`, `AfterLatePushIff`, `LatePushHidesBelow`); the oldest number of the ring is not found while the next slot is the first
  (`FindableIff`); and slots that were skipped keep what they had, so that a request may be answered
  with a packet that was never pushed under its number (`StrangerAnswersIff`).
- The sequencer has 16-bit source numbers and keeps them for as long as the track is muted or its
  slots are skipped. Once the bucket has a packet whole cycles above the source, and only then, the
  payload of that packet is sent under the number of the old one (`ReplacedIff`, `AnotherIsSentIff`,
  `AnotherIsSent`, `AfterACycleAnotherIsSent`). A packet of 1461 to 1498 bytes is kept by the bucket
  and found by the sequencer, but never sent again (`ReadBackIff`).
- A one-byte VP8 picture ID is overwritten with the high byte of the new one (`ShortPictureIDIff`),
  and an absent field makes the rewrite hit the first byte (`AbsentFieldHitsFirstByte`).
- The first packet of a down track does not record its source, so that the second one always
  counts as a source switch (`SecondPacketIff`), and gets a picture number of its own even if both are
  of one picture (`SecondPictureIff`, `OnePictureIff`). A simple track takes a last number 0 for "none yet"
  (`SimpleResyncIff`). A late packet that is dropped for its layer raises the offset as if it were a
  new one, so that a number is sent twice (`LatePacketIff`, `LateDropRepeats`). A simulcast track that
  was muted and has the same source again leaves a hole for what went by meanwhile (`UnmuteIff`).
- The timestamp step over a source switch is a thousandth of the time that passed, because
  milliseconds are multiplied by the clock rate in kHz and then divided by 1000 (`TimeStepIsTooShort`).
- When a room is taken away between a caller's failed SETNX and its second GET, and not put in again,
  and only then, the caller returns an empty node without an error (`NoNodeIff`). A RemoveRoom or an
  expiry while the room is listed for another node, or while its creator has still to list it, leaves
  an entry (`StepIsExactIff`) with which the cleaner may delete a live room (`StaleEntryTakesLiveRoom`).
- Only a list that is exactly full drops a recording; a list over the limit grows
  (`OverlongListGrows`). The lookup does not fall back to an earlier session
  (`TrimmedSessionHidesEarlierOnes`), and names that are not decimals of one length need not sort like
  the times they stand for (`ShorterNameMaySortBehind`, `NegativeNamesSortBackwards`).

## Model

| member | source | states |
|---|---|---|
| TwccChunks.SetNBitsIsShiftedOr | ion-sfu/pkg/mediatransportutil/twcc/twcc.go:342-350 | the bit-sequence model of setNBitsOfUint16 is the masking, the left shift and the OR of the code |
| TwccChunks.RunChunkRoundTrip | ion-sfu/pkg/mediatransportutil/twcc/twcc.go:304-312 | a run-length chunk decodes to the run it was given if and only if the run is at most 8191 long |
| TwccChunks.OneBitRoundTrip | ion-sfu/pkg/mediatransportutil/twcc/twcc.go:314-330 | a one-bit status vector decodes to the symbols it was filled with, padded with "not received" |
| TwccChunks.TwoBitRoundTrip | ion-sfu/pkg/mediatransportutil/twcc/twcc.go:314-330 | the same for a two-bit status vector |
| TwccEncoder.StepInv | ion-sfu/pkg/mediatransportutil/twcc/twcc.go:196-240 | each turn of the status loop keeps: `same` means all pending statuses are equal, `maxStatus` is their maximum, fewer than 14 are pending once they differ, fewer than 7 if one is large |
| TwccEncoder.StepWrites | ion-sfu/pkg/mediatransportutil/twcc/twcc.go:196-240 | which chunk a turn writes, from the pending statuses alone: a run of eight or more that ends, seven two-bit statuses once one is large, or fourteen one-bit ones |
| TwccEncoder.Lossless | ion-sfu/pkg/mediatransportutil/twcc/twcc.go:161-241 | at every turn, decoding the chunks written so far and appending the pending statuses gives exactly the statuses so far, if and only if no run exceeded 13 bits |
| TwccEncoder.ShortReportsFit | ion-sfu/pkg/mediatransportutil/twcc/twcc.go:196-206 | with at most 8192 statuses no run can be too long |
| TwccEncoder.ReportIsFaithful | ion-sfu/pkg/mediatransportutil/twcc/twcc.go:161-257 | the finished chunk list shows all statuses if and only if no run was too long and the last flush dropped only "not received" statuses |
| TwccEncoder.LastVector | ion-sfu/pkg/mediatransportutil/twcc/twcc.go:246-256 | the last status vector shows just the first half, rounded up, of the pending statuses |
| TwccEncoder.LastFlushDropsHalf | ion-sfu/pkg/mediatransportutil/twcc/twcc.go:246-250 | a received packet that a receiver reads as lost, after a small and a large delta |
| TwccEncoder.ChunkCount | ion-sfu/pkg/mediatransportutil/twcc/twcc.go:196-240 | every chunk of the loop stands for at least seven statuses |
| TwccDeltas.SaturateExact | ion-sfu/pkg/mediatransportutil/twcc/twcc.go:180-188 | a delta is written unchanged if and only if it fits an int16; beyond it on either side, which limit is written follows from the sign of the truncated value, and the right one is written if and only if that sign is right |
| TwccDeltas.WrongLimitEveryCycle | ion-sfu/pkg/mediatransportutil/twcc/twcc.go:180-188 | above the range the wrong limit is written for half of the deltas in every 2^16 |
| TwccDeltas.WrongLimitBelow | ion-sfu/pkg/mediatransportutil/twcc/twcc.go:180-188 | and below it |
| TwccDeltas.PassStatuses | ion-sfu/pkg/mediatransportutil/twcc/twcc.go:161-194 | one status per packet, "not received" exactly for the packets without an arrival time |
| TwccDeltas.PassLayout | ion-sfu/pkg/mediatransportutil/twcc/twcc.go:178-192 | the delta area has one byte per small and two per large status, and no others |
| TwccDeltas.DeltaAccuracy | ion-sfu/pkg/mediatransportutil/twcc/twcc.go:163-194 | without saturation, a receiver that counts 64 ms for each unit of the reference time and 250us for each delta is less than 250us per received packet away from each arrival time |
| TwccDeltas.AccuracyIff | ion-sfu/pkg/mediatransportutil/twcc/twcc.go:163-194 | with up to 2^14 received packets, a receiver is that close to every arrival time if and only if no delta was saturated |
| TwccDeltas.OneArrival | ion-sfu/pkg/mediatransportutil/twcc/twcc.go:167-188 | the reference time and the delta of a single arrival: whole 64 ms, and whole 250us beyond them |
| TwccReports.SortByNumber | ion-sfu/pkg/mediatransportutil/twcc/twcc.go:124-126 | the pending records in the order that the reports are stated over |
| TwccReports.SortingSorts | ion-sfu/pkg/mediatransportutil/twcc/twcc.go:124-126 | that order is one of the numbers, with no record lost |
| TwccReports.CollectTiles | ion-sfu/pkg/mediatransportutil/twcc/twcc.go:130-145 | the collected packets are consecutive, start right after the last report and show a prefix of the pending records |
| TwccReports.PushKeepsTiled | ion-sfu/pkg/mediatransportutil/twcc/twcc.go:73-76 | recording an arrival keeps the ledger of all reports |
| TwccReports.ReportKeepsTiled | ion-sfu/pkg/mediatransportutil/twcc/twcc.go:127-150 | after every report, the packet lists of all reports together are one consecutive run, and every pushed record is in it or still pending, once |
| TwccReports.ConservedUnlessLate | ion-sfu/pkg/mediatransportutil/twcc/twcc.go:130-150 | a report loses or repeats records if and only if some but not all of them are below the last reported number |
| TwccReports.NothingCollectedIff | ion-sfu/pkg/mediatransportutil/twcc/twcc.go:130-145 | the collection is empty if and only if all records are below the last reported number, and then it consumes none |
| TwccFeedback.FeedbackRoundTrip | ion-sfu/pkg/mediatransportutil/twcc/twcc.go:259-302 | parsing a report's bytes, padding included, gives back its header fields, statuses and delta area |
| TwccResponder.Responder.WriteHeader | ion-sfu/pkg/mediatransportutil/twcc/twcc.go:284-302 | the 16 header bytes, with the reference time and the packet count sharing a word |
| TwccResponder.Responder.WriteRunLengthChunk | ion-sfu/pkg/mediatransportutil/twcc/twcc.go:304-312 | appends the two bytes of the chunk to the payload and keeps the rest |
| TwccResponder.Responder.CreateStatusSymbolChunk | ion-sfu/pkg/mediatransportutil/twcc/twcc.go:314-322 | sets one symbol of the chunk word |
| TwccResponder.Responder.WriteStatusSymbolChunk | ion-sfu/pkg/mediatransportutil/twcc/twcc.go:324-330 | seals the chunk word, appends it and clears it |
| TwccResponder.Responder.WriteDelta | ion-sfu/pkg/mediatransportutil/twcc/twcc.go:332-340 | appends one or two bytes to the delta area |
| TwccResponder.Responder.PushStatus | ion-sfu/pkg/mediatransportutil/twcc/twcc.go:196-240 | one turn of the status loop takes the encoder one step, in the byte arrays |
| TwccResponder.Responder.FlushRest | ion-sfu/pkg/mediatransportutil/twcc/twcc.go:243-257 | the final flush appends the last chunk of the encoder |
| TwccResponder.Responder.TakePacket | ion-sfu/pkg/mediatransportutil/twcc/twcc.go:161-241 | one packet of the list: its delta, its status and the chunks that it completes |
| TwccResponder.Responder.CollectPackets | ion-sfu/pkg/mediatransportutil/twcc/twcc.go:127-150 | the packet list of the next report, the new last number and what stays pending |
| TwccResponder.Responder.Assemble | ion-sfu/pkg/mediatransportutil/twcc/twcc.go:259-281 | the packet of header, payload, deltas and padding |
| TwccResponder.Responder.BuildTransportCCPacket | ion-sfu/pkg/mediatransportutil/twcc/twcc.go:120-282 | the report over the collected packets and the new state; without a collected packet, the old payload with its old header |
| TwccResponder.Responder.SendReport | ion-sfu/pkg/mediatransportutil/twcc/twcc.go:88-90 | hands the report over, keeps the ledger of all reports, and sends the old payload again exactly if all records are late |
| TwccResponder.Responder.Push | ion-sfu/pkg/mediatransportutil/twcc/twcc.go:66-93 | the number that the arrival gets, the unwrapper after it, whether a report is due and what it is; reports tile the number space as long as arrivals are in order; with fewer than 100 arrivals pending before it, a call needs no condition on them |
| TwccResponder.Responder.DueIff | ion-sfu/pkg/mediatransportutil/twcc/twcc.go:85-87 | when a report is due, in arrivals and nanoseconds |
| TwccResponder.ReportParses | ion-sfu/pkg/mediatransportutil/twcc/twcc.go:120-282 | a report that loses nothing in its chunks parses to its own contents |
| TwccResponder.ReportDelivers | ion-sfu/pkg/mediatransportutil/twcc/twcc.go:120-282 | end to end: a receiver learns the fate of every packet and, from the 24 bits of reference time that it reads, each arrival time within 250us per received packet |
| TwccResponder.OneArrivalReport | ion-sfu/pkg/mediatransportutil/twcc/twcc.go:259-340 | every byte of the report of a single arrival, as the draft lays it out |
| TwccResponder.StaleIff | ion-sfu/pkg/mediatransportutil/twcc/twcc.go:130-150 | a report collects nothing, so that the old payload goes out again, if and only if every pending record is below the last reported number |
| TwccResponder.LateRecordIsNotCollected | ion-sfu/pkg/mediatransportutil/twcc/twcc.go:130-150 | a single late record: nothing is collected and it stays pending |
| TwccLimits.GapMakesOneChunk | ion-sfu/pkg/mediatransportutil/twcc/twcc.go:196-240 | however many lost packets follow one another, they add at most one chunk |
| TwccLimits.ReportChunksFit | ion-sfu/pkg/mediatransportutil/twcc/twcc.go:50-50 | with up to 222 pending records and gaps of any size the chunks fit the payload array |
| TwccLimits.HundredFit | ion-sfu/pkg/mediatransportutil/twcc/twcc.go:50-54 | a report over up to 100 pending records, whatever their numbers and times, always fits both arrays |
| TwccLimits.MoreFitIff | ion-sfu/pkg/mediatransportutil/twcc/twcc.go:50-54 | up to 222 records fit if and only if their deltas take at most 200 bytes |
| TwccLimits.FitsArraysIff | ion-sfu/pkg/mediatransportutil/twcc/twcc.go:50-51 | a report fits if and only if it has at most 42 chunks and 200 bytes of deltas |
| TwccLimits.HundredAndOneIff | ion-sfu/pkg/mediatransportutil/twcc/twcc.go:50-54 | the report that the 101st record makes due overflows if and only if it takes all of them and, sorted by number, no arrival is 0 to 255 ticks after the one before it |
| TwccLimits.AllTakenIff | ion-sfu/pkg/mediatransportutil/twcc/twcc.go:127-145 | new and distinct records are all taken if and only if the report is below its limit of packets before the last of them |
| TwccLimits.BackwardsOverflows | ion-sfu/pkg/mediatransportutil/twcc/twcc.go:332-340 | 101 packets in reverse order, 250us apart, take 201 bytes of deltas, at which the code panics |
| TwccUnwrapping.NextIsRightIff | ion-sfu/pkg/mediatransportutil/twcc/twcc.go:70-76 | an arrival less than half a cycle from the one before gets its true number, modulo 2^32, if and only if both are in one cycle or it crosses into the next one within the limits tested |
| TwccUnwrapping.RunIsRightIff | ion-sfu/pkg/mediatransportutil/twcc/twcc.go:70-84 | in every run all arrivals up to a point get their true numbers if and only if each follows the one before in that way |
| TwccUnwrapping.LateOverTheBoundary | ion-sfu/pkg/mediatransportutil/twcc/twcc.go:70-76 | a late number from before the boundary, and every number after it, is put a cycle too high |
| BucketRing.NextKeepsSound | ion-sfu/pkg/mediatransportutil/bucket/bucket.go:47-68 | every readable packet stays within the window and under its own number |
| BucketRing.Retained | ion-sfu/pkg/mediatransportutil/bucket/bucket.go:70-151 | an accepted packet stays readable, byte for byte, until the head is a window past it or the bucket restarts |
| BucketRing.NothingElse | ion-sfu/pkg/mediatransportutil/bucket/bucket.go:105-140 | whatever can be read was stored under that very unwrapped number |
| BucketRing.NeverReplaced | ion-sfu/pkg/mediatransportutil/bucket/bucket.go:70-151 | without a restart a stored packet is still there, or has left the window for good and no other is ever read under its unwrapped number |
| BucketRing.ReadsExactlyWhatWasKept | ion-sfu/pkg/mediatransportutil/bucket/bucket.go:47-140 | after any run a number reads as a packet if and only if that packet was stored under it and kept since |
| BucketRing.OneCycleIsUnambiguous | ion-sfu/pkg/mediatransportutil/bucket/bucket.go:105-110 | a window of at most one cycle has no two numbers with the same 16 bits |
| PacketBucket.Bucket.constructor | ion-sfu/pkg/mediatransportutil/bucket/bucket.go:28-37 | a new bucket over any buffer with room for a slot is empty |
| PacketBucket.Bucket.AddPacket | ion-sfu/pkg/mediatransportutil/bucket/bucket.go:47-68 | the new ring, with each of the two errors decided exactly; a live packet is always refused and a refusal changes no byte |
| PacketBucket.LongPacketOverwritesNext | ion-sfu/pkg/mediatransportutil/bucket/bucket.go:142-151 | after Store, a packet of more than 1498 bytes goes on in the next slot, its bytes there first |
| PacketBucket.Bucket.Get | ion-sfu/pkg/mediatransportutil/bucket/bucket.go:105-124 | exactly the packet that the ring has for the nearest number at or below the head |
| PacketBucket.Bucket.GetPacket | ion-sfu/pkg/mediatransportutil/bucket/bucket.go:70-86 | the ring's packet in the caller's buffer, or which of the two errors; the capacity of the buffer decides, its length does not |
| PacketBucket.Bucket.Push | ion-sfu/pkg/mediatransportutil/bucket/bucket.go:88-103 | the ring moves to the new head and forgets what falls out |
| PacketBucket.Bucket.Set | ion-sfu/pkg/mediatransportutil/bucket/bucket.go:126-140 | stores a late packet only in a slot without a live packet |
| PacketBucket.Bucket.Store | ion-sfu/pkg/mediatransportutil/bucket/bucket.go:142-151 | the size word and the packet in the buffer; one that fits its slot leaves the others unchanged |
| PacketBucket.Bucket.Wrap | ion-sfu/pkg/mediatransportutil/bucket/bucket.go:153-163 | the slot number brought into range |
| PacketBucket.Bucket.Invalidate | ion-sfu/pkg/mediatransportutil/bucket/bucket.go:169-178 | exactly the slots of the range become empty and keep their other bytes |
| PacketBucket.IndexAfterGap | ion-sfu/pkg/mediatransportutil/bucket/bucket.go:92-100 | where every number of the window is after the head has moved over a gap |
| PacketBucket.FreshSlotLooksLikeNumberZero | ion-sfu/pkg/mediatransportutil/bucket/bucket.go:134-137 | a packet that was never stored is refused as a duplicate |
| NackPairs.PairsExactIffPackable | ion-sfu/pkg/mediatransportutil/nack/nack.go:85-97 | the pairs denote exactly the given numbers if and only if none begins a pair as number 0 or falls behind the reach of a pair of the cycle before |
| NackPairs.AscendingPairs | ion-sfu/pkg/mediatransportutil/nack/nack.go:85-97 | within one cycle and without number 0 the pairs denote exactly the given numbers |
| NackPairs.NumberZeroIsNotRequested | ion-sfu/pkg/mediatransportutil/nack/nack.go:85-97 | a lost number with low bits 0 may not be requested at all |
| NackMinimal.PairsMinimal | ion-sfu/pkg/mediatransportutil/nack/nack.go:85-97 | without a head above 65519 no list of 17-wide pairs (section 6.2.1 of RFC 4585) that covers the numbers is shorter |
| NackMinimal.NumberAfterHighHead | ion-sfu/pkg/mediatransportutil/nack/nack.go:85-97 | every number packed after a head above 65519 makes the list longer than it need be |
| NackMinimal.LastHeadHighIff | ion-sfu/pkg/mediatransportutil/nack/nack.go:85-97 | with one last head above 65519 the list is a shortest one if and only if no pair that takes in the last number saves another by reaching around to the first ones |
| NackMinimal.MinimalIff | ion-sfu/pkg/mediatransportutil/nack/nack.go:85-97 | for every ascending list of numbers: when the pairs are a shortest list |
| NackMinimal.FirstBeyondReach | ion-sfu/pkg/mediatransportutil/nack/nack.go:85-97 | with one last head above 65519 that does not reach around to the first number the list is a shortest one |
| NackMinimal.NotMinimalAtTheEnd | ion-sfu/pkg/mediatransportutil/nack/nack.go:85-85 | two lists of two numbers for which two pairs are built where one would do |
| NackQueue.Queue.Remove | ion-sfu/pkg/mediatransportutil/nack/nack.go:28-35 | the queue without one entry of the number |
| NackQueue.Queue.Push | ion-sfu/pkg/mediatransportutil/nack/nack.go:37-57 | the queue with the number in its place, shifted at 100 entries |
| NackQueue.Queue.Pairs | ion-sfu/pkg/mediatransportutil/nack/nack.go:59-100 | drops exhausted entries, counts and packs the due ones, and asks for a keyframe if and only if kfSN grows |
| NackQueue.PushIsInsertion | ion-sfu/pkg/mediatransportutil/nack/nack.go:37-57 | Push is set insertion if and only if the number was there, the queue has fewer than 99 entries or its smallest number is there twice |
| NackQueue.RemoveIsDeletion | ion-sfu/pkg/mediatransportutil/nack/nack.go:28-35 | Remove is set deletion of a number that is there once |
| NackQueue.KeyframeGrows | ion-sfu/pkg/mediatransportutil/nack/nack.go:68-73 | kfSN never falls, ends at or above every exhausted number and is one of them if it grew |
| NackQueue.RunKeepsInv | ion-sfu/pkg/mediatransportutil/nack/nack.go:28-100 | after every run the numbers do not decrease and no entry was requested more than five times |
| NackQueue.AtMostFiveRequests | ion-sfu/pkg/mediatransportutil/nack/nack.go:68-83 | from one insertion of a number to the next, pushes of it while it is queued included, it is selected for request at most five times |
| NackQueue.RoundRequestsIff | ion-sfu/pkg/mediatransportutil/nack/nack.go:67-98 | a round requests the low bits of exactly the entries requested fewer than five times and at least three behind the head; for a head of 0 or 1 the subtraction wraps around |
| NackQueue.RoundLeaves | ion-sfu/pkg/mediatransportutil/nack/nack.go:67-98 | an entry counts one more request, stays as it is, or is given up |
| NackQueue.RequestedIff | ion-sfu/pkg/mediatransportutil/nack/nack.go:37-98 | in every run, from its insertion on, a round requests a number if and only if it is still queued, at least three behind the head, and fewer than five such rounds came before |
| NackQueue.SixRoundsEmpty | ion-sfu/pkg/mediatransportutil/nack/nack.go:67-98 | six rounds with the head beyond all entries empty the queue |
| NackQueue.PairsExactAndMinimal | ion-sfu/pkg/mediatransportutil/nack/nack.go:59-100 | within one cycle, the pairs denote exactly the eligible entries, and no list of pairs is shorter if and only if the condition of MinimalIff holds |
| SequenceCounter.UnwrappingIsCorrect | ion-sfu/pkg/buffer/buffer.go:277-298 | in every run with arrivals within half a cycle, cycles and maxSeqNo are the highest true number modulo 2^32 (Appendix A.1 of RFC 3550) |
| SequenceCounter.LateNumberIsCorrect | ion-sfu/pkg/buffer/buffer.go:299-307 | a late packet gets its own extended number |
| SequenceCounter.SkippedNumberIsCorrectIff | ion-sfu/pkg/buffer/buffer.go:285-296 | a skipped number gets its own extended number if and only if it is in the lower half of the number space, or the old head is in the upper half and nothing wrapped |
| SequenceCounter.GapAcrossTheMiddle | ion-sfu/pkg/buffer/buffer.go:285-296 | two lost numbers that are entered under the wrong cycle |
| LossLedger.PacketKeepsLedger | ion-sfu/pkg/buffer/buffer.go:274-308 | one packet keeps the queue equal to the skipped numbers that neither arrived nor were given up |
| LossLedger.RequestsKeepLedger | ion-sfu/pkg/buffer/buffer.go:413-414 | a round of requests gives up the exhausted numbers and no others |
| LossRequests.NextIsExact | ion-sfu/pkg/buffer/buffer.go:274-414 | a call keeps the queue exactly the outstanding losses |
| LossRequests.LostIsRequestedIff | ion-sfu/pkg/buffer/buffer.go:274-414 | in every run of clean gaps, a call asks for a lost number that has not arrived if and only if the head is at least three above it and fewer than five calls asked with such a head before |
| LossRequests.FirstRequest | ion-sfu/pkg/buffer/buffer.go:274-414 | it is asked for by the first call with the head three above it, and by none before |
| MediaBuffer.Buffer.NoteGap | ion-sfu/pkg/buffer/buffer.go:284-297 | pushes every number between the old head and the packet, from the top down |
| MediaBuffer.Buffer.CountPacket | ion-sfu/pkg/buffer/buffer.go:277-308 | the counter and the queue after a packet's sequence number |
| MediaBuffer.Buffer.CalcNext | ion-sfu/pkg/buffer/buffer.go:274-431 | counter, queue, bucket and requests after a packet; counter and bucket stay in step if and only if the packet is not exactly half a cycle away; when the gap is clean the call is a step of LossRequests |
| MediaBuffer.Buffer.Calc | ion-sfu/pkg/buffer/buffer.go:274-431 | from the first packet on, counter, bucket and queue agree under the same conditions, and what the call asks for |
| MediaBuffer.InStep | ion-sfu/pkg/buffer/buffer.go:275-310 | counter and bucket go on to the same head, except for a packet half a cycle away |
| MediaBuffer.HalfCycleSplits | ion-sfu/pkg/buffer/buffer.go:280-299 | a packet that the bucket takes as ahead and the counter as late |
| PacketSequencer.VP8MetaRoundTrip | ion-sfu/pkg/sfu/sequencer.go:37-43 | the codec fields of a packet's metadata come back as they were stored |
| PacketSequencer.FindableIff | ion-sfu/pkg/sfu/sequencer.go:112-118 | a number of the ring is looked up in its own slot if and only if it is not the oldest one while the next slot is the first |
| PacketSequencer.AskFinds | ion-sfu/pkg/sfu/sequencer.go:107-129 | a slot that can answer gives its metadata to the first request for its number |
| PacketSequencer.AskSkipsRecent | ion-sfu/pkg/sfu/sequencer.go:120-124 | a packet that was sent again within the last 100 ms is not handed out |
| PacketSequencer.AskOnce | ion-sfu/pkg/sfu/sequencer.go:107-129 | with a clock that is not 0, no packet is handed out twice in one call |
| PacketSequencer.AskKeepsEntries | ion-sfu/pkg/sfu/sequencer.go:120-124 | a request changes nothing but the time of the last answer |
| PacketSequencer.UnusedSlotAnswersZero | ion-sfu/pkg/sfu/sequencer.go:119-124 | a slot that was never filled answers a request for number 0 |
| PacketSequencer.EntriesAreTheLast | ion-sfu/pkg/sfu/sequencer.go:64-105 | after any run of head packets with increasing targets the entries are exactly the packets among the last max numbers |
| PacketSequencer.Sequencer.Push | ion-sfu/pkg/sfu/sequencer.go:64-105 | a head packet is entered under its unwrapped target beside the entries still in the ring; where a late packet goes; what each slot was filled with |
| PacketSequencer.Sequencer.SetVP8PayloadMeta | ion-sfu/pkg/sfu/sequencer.go:37-39 | adds the codec fields to the entry pushed last, and to no other |
| PacketSequencer.Sequencer.GetSeqNoPairs | ion-sfu/pkg/sfu/sequencer.go:107-129 | the answers and the new slots of a request |
| PacketSequencer.RequestFindsEntry | ion-sfu/pkg/sfu/sequencer.go:107-129 | every pushed target among the last max - 1 numbers is found with its own source number, timestamp and layer |
| PacketSequencer.StrangerIff | ion-sfu/pkg/sfu/sequencer.go:64-105 | a slot shows a number that was not pushed if and only if it was never filled and the number is 0, or it was filled whole cycles of 2^16 before |
| PacketSequencer.YoungLeftoverIsSilent | ion-sfu/pkg/sfu/sequencer.go:112-120 | a leftover of less than a cycle before never shows a newer number |
| PacketSequencer.AskGivesSlots | ion-sfu/pkg/sfu/sequencer.go:107-129 | whatever a request gets is what the slot of one of its numbers holds, and shows that number |
| PacketSequencer.StrangerAnswersIff | ion-sfu/pkg/sfu/sequencer.go:107-129 | as long as no late packet was stored: a request within the window is answered from anything but its own entry if and only if the slot was never filled and the number is 0, or is left over from whole cycles before |
| PacketSequencer.LatePushHidesHead | ion-sfu/pkg/sfu/sequencer.go:83-104 | after a late packet a request for the head finds nothing |
| PacketSequencer.LatePushShiftsLookups | ion-sfu/pkg/sfu/sequencer.go:83-118 | after a stored late packet every number below the head is looked up in the slot of the number above it |
| PacketSequencer.AfterLatePushIff | ion-sfu/pkg/sfu/sequencer.go:83-129 | then a request for a number below the head gets what the slot of the number above it has, if and only if that slot shows the number and may answer |
| PacketSequencer.LatePushHidesBelow | ion-sfu/pkg/sfu/sequencer.go:83-118 | so a pushed number below another pushed one is not found any more |
| PacketSequencer.LatePushHidesEntries | ion-sfu/pkg/sfu/sequencer.go:83-104 | a run of three packets after which two of them are not found |
| VP8Descriptor.VP8.Unmarshal | ion-sfu/pkg/buffer/helpers.go:63-144 | succeeds if and only if the payload is well-formed, and then fills in its fields |
| VP8Descriptor.FlagsAreBits | ion-sfu/pkg/buffer/helpers.go:74-82 | each flag of the second byte is its own bit, whatever the reserved bits are |
| VP8Descriptor.ParseOfBytes | ion-sfu/pkg/buffer/helpers.go:63-144 | parsing undoes writing, for every descriptor of section 4.2 of RFC 7741 and every frame |
| VP8Descriptor.ModifyVP8TemporalPayload | ion-sfu/pkg/sfu/helpers.go:70-79 | the payload after the rewrite in place |
| VP8Descriptor.RewriteRoundTrip | ion-sfu/pkg/sfu/helpers.go:70-79 | with picture ID, M bit and TL0PICIDX present, the payload reads back with the new values modulo 2^15 and every other field and byte unchanged |
| VP8Descriptor.ShortPictureIDIff | ion-sfu/pkg/sfu/helpers.go:71-77 | with a one-byte picture ID the new one reads back if and only if its low seven bits equal its high byte |
| VP8Descriptor.AbsentFieldHitsFirstByte | ion-sfu/pkg/sfu/helpers.go:73-78 | with a field absent, the first byte of the descriptor is overwritten |
| DownTrackStep.SimulcastSentIff | ion-sfu/pkg/sfu/downtrack.go:396-459 | a packet of the current layer is not sent if and only if the track waits for a keyframe and it is none, or it is above the temporal layer |
| DownTrackStep.SimpleSentIff | ion-sfu/pkg/sfu/downtrack.go:349-356 | a simple track sends everything, for video from a keyframe on |
| DownTrackStep.NothingBeforeKeyframe | ion-sfu/pkg/sfu/downtrack.go:396-405 | in every run nothing is sent and nothing changes before the first keyframe |
| DownTrackStep.SimulcastGoesOut | ion-sfu/pkg/sfu/downtrack.go:442-485 | the packet that goes out has the computed number and timestamp, the SSRC and payload type of the subscriber, and all else of the source, but for picture number and TL0PICIDX, which read back as computed |
| DownTrackStep.SimpleGoesOut | ion-sfu/pkg/sfu/downtrack.go:369-383 | the same for a simple track, whose payload is the source's |
| DownTrackStep.StepNumbered | ion-sfu/pkg/sfu/downtrack.go:386-486 | a forwarded packet is numbered one above the last one plus the losses since then; a dropped one is not counted; timestamps go on as in the source |
| DownTrackStep.OutputConservesGaps | ion-sfu/pkg/sfu/downtrack.go:386-486 | over every run with losses, layer drops and source switches, in the headers as written: each number is the one written before plus one plus the losses within its source, the timestamps are as far apart, and SSRC and payload type are the subscriber's |
| DownTrackStep.NoLossNothingOwed | ion-sfu/pkg/sfu/downtrack.go:455-485 | without losses within the sources, forwarded numbers are consecutive over any drops and switches |
| DownTrackStep.AGapAndASwitch | ion-sfu/pkg/sfu/downtrack.go:424-485 | a run with a lost packet and a source switch, and the numbers that go out |
| DownTrackStep.LatePacketIff | ion-sfu/pkg/sfu/downtrack.go:450-458 | a late packet conserves the numbering if and only if it is not dropped for its layer; a dropped one makes one number less be owed |
| DownTrackStep.LateDropRepeats | ion-sfu/pkg/sfu/downtrack.go:450-458 | then, with nothing lost, the next packet repeats the last number sent |
| DownTrackStep.UnmuteIff | ion-sfu/pkg/sfu/downtrack.go:396-442 | the first packet after muting, from the same source, has the next number if and only if nothing was lost or went by meanwhile; its timestamp goes on as in the source |
| DownTrackStep.UnmuteOtherSource | ion-sfu/pkg/sfu/downtrack.go:406-432 | after muting, the first packet of another source follows the last one by one number and one tick |
| DownTrackStep.TimeStepIsTooShort | ion-sfu/pkg/sfu/downtrack.go:426-433 | for any time of a millisecond or more, the timestamp step over a switch is below the 90 ticks of the video clock for each millisecond, by a factor of a thousand |
| DownTrackStep.LayerFilters | ion-sfu/pkg/sfu/helpers.go:40-52 | on a temporal layer exactly the packets above it are dropped, and it stays the layer |
| DownTrackStep.SwitchEnds | ion-sfu/pkg/sfu/helpers.go:40-52 | during a switch none is dropped, and the first packet that the target includes ends it |
| DownTrackStep.LayerIsSent | ion-sfu/pkg/sfu/downtrack.go:442-459 | in every run on one temporal layer, over any source switches, exactly the packets up to that layer are sent |
| DownTrackStep.StepPictures | ion-sfu/pkg/sfu/helpers.go:34-68 | picture numbers and TL0PICIDX of sent packets go on as in the source between two packets of one source, and by one over a switch, which the second packet of a track always is |
| DownTrackStep.LatePictures | ion-sfu/pkg/sfu/helpers.go:57-66 | a late packet gets its own picture number and TL0PICIDX and leaves the last ones as they were |
| DownTrackStep.OnePictureIff | ion-sfu/pkg/sfu/downtrack.go:396-421 | a further packet of the picture sent last keeps its number if and only if it is no switch |
| DownTrackStep.SecondPacketIff | ion-sfu/pkg/sfu/downtrack.go:424-444 | the gap before the second packet of a track is conserved if and only if nothing was lost or the source changed |
| DownTrackStep.SecondPictureIff | ion-sfu/pkg/sfu/downtrack.go:396-441 | the first two packets of a VP8 track with temporal layers go out as the first one's picture plus one and plus two; that is as in the source if and only if the second begins the next picture |
| DownTrackStep.StartTrack | ion-sfu/pkg/sfu/downtrack.go:433-443 | the first packet, even a late one, goes out under its own number and timestamp, from which the track goes on |
| DownTrackStep.SimpleKeepsGaps | ion-sfu/pkg/sfu/downtrack.go:346-384 | a simple track keeps every gap and every time step of its source and nothing else |
| DownTrackStep.SimpleResyncIff | ion-sfu/pkg/sfu/downtrack.go:357-363 | after a resync the next number and the next tick follow if and only if the last number was not 0 or the old offsets happen to fit |
| DownTrackStep.SimpleStart | ion-sfu/pkg/sfu/downtrack.go:349-383 | the first packet of a simple track goes out under its own number and timestamp |
| DownTrackStep.SimpleRunKeepsDistances | ion-sfu/pkg/sfu/downtrack.go:346-384 | in every run, any two packets written with no mute in between are as far apart in number and time as they came in |
| DownTrackStep.SimpleRunAfterMute | ion-sfu/pkg/sfu/downtrack.go:349-369 | in every run, the first packet written after a mute follows the head packet before it by one number and one tick, and for video is a keyframe; if that number was 0, the two are as far apart as they came in |
| DownTracks.SentRebuilds | ion-sfu/pkg/sfu/downtrack.go:442-485 | what the track leaves in the sequencer for a packet rebuilds exactly the header and payload it writes |
| DownTracks.RebuiltGoesOut | ion-sfu/pkg/sfu/receiver.go:300-323 | what is rebuilt has the number and timestamp of the metadata and the SSRC and payload type of the subscriber, and all else of the source's header |
| DownTracks.DownTrack.SetVP8TemporalLayer | ion-sfu/pkg/sfu/helpers.go:34-68 | the layer switch, the decision to drop and the rewritten copy of the payload |
| DownTracks.DownTrack.WriteSimulcastRTP | ion-sfu/pkg/sfu/downtrack.go:386-486 | the new state and the written packet; all entries of the sequencer still rebuild what was written for them, and everything written has the SSRC and payload type of the subscriber |
| DownTracks.DownTrack.WriteSimpleRTP | ion-sfu/pkg/sfu/downtrack.go:346-384 | the same for a track without layers |
| DownTracks.DownTrack.WriteRTP | ion-sfu/pkg/sfu/downtrack.go:158-169 | only a bound and enabled track writes, in the way of its kind |
| DownTracks.DownTrack.Mute | ion-sfu/pkg/sfu/downtrack.go:176-184 | muting disables the track and makes it wait for a keyframe; unmuting only enables it |
| Retransmission.Read | ion-sfu/pkg/buffer/buffer.go:515-522 | the packet of the bucket, unless it is longer than the scratch buffer |
| Retransmission.Restore | ion-sfu/pkg/sfu/receiver.go:307-321 | the rebuilt packet, or none if the payload does not parse |
| Retransmission.RetransmitPackets | ion-sfu/pkg/sfu/receiver.go:284-332 | exactly the packets that can be read and rebuilt are sent, in order, up to the first layer without an open buffer |
| Retransmission.ResentIff | ion-sfu/pkg/sfu/receiver.go:284-332 | a packet is among those sent if and only if it is rebuilt for a request up to which all layers have an open buffer |
| Retransmission.ResentIsOwn | ion-sfu/pkg/sfu/receiver.go:307-310 | everything sent again has the SSRC and payload type of the subscriber |
| Retransmission.HandleNack | ion-sfu/pkg/sfu/downtrack.go:537-546 | the numbers of all pairs go through the sequencer, and everything found is sent |
| Retransmission.InBucketReads | ion-sfu/pkg/mediatransportutil/bucket/bucket.go:105-124 | a packet in the window of its bucket is what its 16-bit number reads as |
| Retransmission.RetransmissionFidelity | ion-sfu/pkg/sfu/receiver.go:284-332 | every packet written as head that is still in the sequencer, and whose source is in the window of its bucket, is sent again, when asked for, with the header and the payload written the first time |
| Retransmission.ReadBackIff | ion-sfu/pkg/sfu/receiver.go:297-321 | a packet in the window is rebuilt if and only if it fits the scratch buffer |
| Retransmission.AcceptedPacketIsSentAgain | ion-sfu/pkg/mediatransportutil/bucket/bucket.go:47-140 | the same from the start: for a packet that the bucket accepted and kept in whatever run of packets and restarts; its metadata is found, and it is rebuilt if and only if it has at most 1460 bytes |
| Retransmission.ReadsAsIff | ion-sfu/pkg/mediatransportutil/bucket/bucket.go:105-124 | a number reads as the one packet in the window, if any, with these low bits |
| Retransmission.ReplacedIff | ion-sfu/pkg/mediatransportutil/bucket/bucket.go:105-124 | without a restart, the number of a stored packet reads as another packet if and only if that one is in the window under a number whole cycles above |
| Retransmission.YoungIsNotReplaced | ion-sfu/pkg/mediatransportutil/bucket/bucket.go:105-124 | while the head is less than a cycle past a stored packet, its number reads as this packet or as none |
| Retransmission.AnotherIsSentIff | ion-sfu/pkg/sfu/receiver.go:297-323 | what is sent for the metadata of a written packet differs from it if and only if the window has a packet whole cycles above the source that can be read and rebuilds to something else |
| Retransmission.AnotherIsSent | ion-sfu/pkg/sfu/downtrack.go:537-546 | then it does go out for a NACK, under the number that was asked for |
| Retransmission.AfterACycleAnotherIsSent | ion-sfu/pkg/sfu/receiver.go:297-323 | a run of three packets after which the payload of the third is sent under the number of the first |
| Retransmission.NothingElseIsSent | ion-sfu/pkg/sfu/downtrack.go:537-546 | as long as every bucket is less than a cycle past the packets that the sequencer has metadata of, and has not restarted since it stored them, every packet sent for a NACK was written before, under a number that was asked for, except that a slot never filled may answer for number 0 |
| NtpTime.FractionIsRounded | ion-sfu/pkg/sfu/helpers.go:133-142 | no 64-bit overflow, and a fraction below 2^32 that is the nearest one |
| NtpTime.ConversionIsExactIff | ion-sfu/pkg/sfu/helpers.go:119-142 | the conversion to NTP time and back is exact to the nanosecond if and only if the time is below 2^32 seconds |
| NtpTime.HalvesOfNtpTime | ion-sfu/pkg/sfu/helpers.go:133-142 | the upper half is the seconds modulo 2^32, the lower half the rounded fraction |
| NtpTime.DurationIsNearest | ion-sfu/pkg/sfu/helpers.go:119-127 | any timestamp is read to the nearest nanosecond without overflow |
| NodeKeys.NodeIDRoundTrip | controller/pkg/node/discovery.go:26-44 | a node's id comes back from its key if and only if it has no separator in it; its service always does |
| NodeKeys.ServiceNodeIff | controller/pkg/node/discovery.go:38-44 | an id is of a service if and only if that is its second part, however many follow |
| NodeKeys.NodeIDIs | controller/pkg/node/discovery.go:30-36 | the node id is the third part, or empty if there is none |
| NodeKeys.KeysAreInjective | controller/pkg/node/discovery.go:46-52 | different rooms, and different connections, have different keys |
| NodeKeys.RoomIsNoSet | controller/pkg/node/discovery.go:19-20 | the key of a room is never the key of a set of rooms |
| RoomProtocol.RoomSurvives | controller/pkg/node/discovery.go:54-101 | a room's node survives every window of a run in which the room is not taken away |
| RoomProtocol.CallersAgree | controller/pkg/node/discovery.go:54-88 | in every interleaving, all calls for a room that begin in a window of the run in which the room is not taken away return the same node, the one in the store |
| RoomProtocol.NoNodeIff | controller/pkg/node/discovery.go:79-83 | a caller that was beaten and reads again returns no node and no error if and only if the room was taken away in between and not put in again |
| RoomProtocol.DeletionGivesNoNode | controller/pkg/node/discovery.go:79-83 | one deletion in between is enough |
| RoomProtocol.StepKeepsIndex | controller/pkg/node/discovery.go:54-101 | every step keeps: a room that holds a node is in the set of that node, or its creator is between SETNX and SADD |
| RoomProtocol.RunKeepsIndex | controller/pkg/node/node.go:50-87 | the same over every run, deletions, expiry and cleaner passes included |
| RoomProtocol.NoDanglingRooms | controller/pkg/node/node.go:50-87 | after a cleaner pass no room is left with a node found dead, except one whose creator is still on the way |
| RoomProtocol.RemovalIsExactIff | controller/pkg/node/discovery.go:90-101 | RemoveRoom leaves no entry for a room elsewhere if and only if the room is listed for no other node and no creator is on its way with it |
| RoomProtocol.ExpiryIsExactIff | controller/pkg/node/discovery.go:79-79 | the same for the expiry of a room, which may then be listed nowhere |
| RoomProtocol.StepIsExactIff | controller/pkg/node/discovery.go:54-101 | every step of callers, nodes, cleaner, RemoveRoom and expiry keeps the sets exact if and only if it is tidy in this sense |
| RoomProtocol.CleanerSparesLiveRooms | controller/pkg/node/node.go:58-67 | in every run in which each RemoveRoom and each expiry is tidy, a pass takes away only rooms whose node is dead |
| RoomProtocol.StaleEntryTakesLiveRoom | controller/pkg/node/node.go:58-67 | with a RemoveRoom that is not, a run after which a pass takes away a live room |
| RoomProtocol.CleanerChecksStreams | controller/pkg/node/node.go:69-83 | an RTSP connection is taken away if and only if it is listed for a dead controller that it names as its holder, whatever happened before |
| RoomProtocol.CleanedExactly | controller/pkg/node/node.go:50-87 | exactly what a pass takes away of rooms, sets, connections and RTSP connections; all else stays as it was |
| RoomProtocol.DeadIsNotPicked | controller/pkg/node/discovery.go:61-75 | after a pass a caller can choose what it could before, except the connections found dead |
| RoomProtocol.DeadStaysAwayIff | controller/pkg/node/node.go:33-85 | in every run, a connection found dead is there again if and only if its node has announced itself since the last pass that found it dead |
| RoomStore.GetNodesOfService | controller/pkg/node/discovery.go:103-113 | exactly the connections of the service |
| RoomStore.SetOrGetSFUAddressForRoom | controller/pkg/node/discovery.go:54-88 | an uninterrupted call: the node of the room, or a media node that the room then has and that lists it, or an error that changes nothing |
| RoomStore.RemoveRoom | controller/pkg/node/discovery.go:90-101 | deletes the room and its entry in the node's set |
| RoomStore.CleanerPass | controller/pkg/node/node.go:50-87 | deletes the rooms listed for every dead media node and the RTSP connections that dead controllers hold, their sets and their connections, and nothing else |
| SortedSearch.Search | controller/pkg/util/util.go:97-97 | a border between "no" and "yes" |
| SortedSearch.InsertSorted | controller/pkg/util/util.go:96-102 | the list with the value at its place |
| SortedSearch.SearchRange | controller/pkg/util/util.go:47-83 | exactly the range of equal elements, or -1 and -1 |
| SortedSearch.RemoveItemInSortedSlice | controller/pkg/util/util.go:22-29 | removes all elements that compare equal and no others |
| SortedSearch.SearchElementOrSmaller | controller/pkg/util/util.go:149-165 | the first element equal to the target, else the last one before it, else -1 |
| Recordings.PushKeepsOrder | controller/apps/controller/entity/metadata.go:30-45 | a push keeps the order and the limit and takes away nothing but the oldest record of a full list |
| Recordings.RunIsSortedAndBounded | controller/apps/controller/entity/metadata.go:30-45 | after every run the list is sorted, is as long as the limit allows and holds only pushed records |
| Recordings.RunInOrderKeepsTheLast | controller/apps/controller/entity/metadata.go:30-45 | pushed in the order of time, the list is the last of the records |
| Recordings.OverlongListGrows | controller/apps/controller/entity/metadata.go:31-33 | a list that is over the limit grows with every push |
| Recordings.Metadata.PushRecord | controller/apps/controller/entity/metadata.go:30-45 | the list after a push; of a list in any order, that nothing but the oldest record of a full list goes |
| Recordings.NamesSortLikeNumbers | controller/apps/controller/service/rtsp_client_service/rtsp_client_service.go:145-152 | decimal names of one length sort like the numbers they stand for |
| Recordings.ShorterNameMaySortBehind | controller/apps/controller/service/rtsp_client_service/rtsp_client_service.go:145-147 | names of different lengths do not |
| Recordings.PrecedesIsAnOrder | controller/apps/controller/service/rtsp_client_service/rtsp_client_service.go:145-147 | the comparison of names is a total order, so that sorting by it is well-defined |
| Recordings.ParseIntIsValue | controller/apps/controller/service/rtsp_client_service/rtsp_client_service.go:150-150 | a decimal name is parsed to the number it stands for, up to the largest int64 |
| Recordings.SignedNames | controller/apps/controller/service/rtsp_client_service/rtsp_client_service.go:150-150 | a sign in front of a decimal name |
| Recordings.NoNumberIsZero | controller/apps/controller/service/rtsp_client_service/rtsp_client_service.go:150-150 | a name with another character behind fewer than 20 digits counts as 0 |
| Recordings.NegativeNamesSortBackwards | controller/apps/controller/service/rtsp_client_service/rtsp_client_service.go:145-152 | names with a minus sign sort against their numbers |
| Recordings.DecimalNamesAreInOrder | controller/apps/controller/service/rtsp_client_service/rtsp_client_service.go:145-152 | for decimal names of one length the order of the names is that of the parsed times |
| Recordings.ComparisonIsRightIff | controller/apps/controller/service/rtsp_client_service/rtsp_client_service.go:149-152 | for any two int64 times the sign of the int64 difference is right if and only if the difference does not wrap |
| Recordings.SortByName | controller/apps/controller/service/rtsp_client_service/rtsp_client_service.go:145-147 | any sessions, in the order of their names, none lost |
| Recordings.FindSession | controller/apps/controller/service/rtsp_client_service/rtsp_client_service.go:149-156 | for any names that sort like their times and comparisons that do not wrap: the last session that was started at or before the moment; none if and only if all started later |
| Recordings.FindRecord | controller/apps/controller/service/rtsp_client_service/rtsp_client_service.go:166-172 | for sorted records and comparisons that do not wrap: the last record at or before the moment; none if and only if all are later |
| Recordings.GetRecord | controller/apps/controller/service/rtsp_client_service/rtsp_client_service.go:145-172 | the two levels together under the same conditions, with each error exactly when its search finds nothing; whatever is found is one of the records |
| Recordings.FoundIsLatestOfAll | controller/apps/controller/service/rtsp_client_service/rtsp_client_service.go:145-172 | for sessions that do not overlap, what is found is the latest record of all at or before the moment; it is found if and only if the moment's own session has a record by then |
| Recordings.TrimmedSessionHidesEarlierOnes | controller/apps/controller/service/rtsp_client_service/rtsp_client_service.go:166-172 | a moment for which an earlier session has a record and the lookup finds none |
| Recordings.EarlierRecordIsLatestOfAll | controller/apps/controller/service/rtsp_client_service/rtsp_client_service.go:166-172 | and that record of the earlier session is the latest of all |

## Left out

- TwccResponder.Responder.BuildTransportCCPacket: requires that the report fits the arrays, where the Go code panics otherwise; HundredFit and MoreFitIff say when it does. Pending arrival times are not 0, which stands for "not received".
- TwccResponder.Responder.Push: an arrival time is at least a microsecond, for the same reason; tiling is promised for arrivals in order.
- TwccReports.SortByNumber: leaves records with equal numbers in the order of an insertion sort, where the unstable sort of Go may leave them in any.
- PacketBucket.Bucket.AddPacket: packets of 4 to 1498 bytes, which is what fits a slot, and a bucket of at least one slot, without which the search for a slot does not end.
- NackQueue.PairsExactAndMinimal: for entries of one cycle with low bits other than 0; PairsExactIffPackable has the exact condition for the pairs to be right.
- MediaBuffer.Buffer.Calc: the counters of bytes and packets do not wrap, and baseSN is not lowered by early reordered packets; the numbering, the queue and the bucket do not depend on either.
- MediaBuffer.Buffer.CalcNext: the queue is exact as long as the highest number stays below 2^32, the gap fits below 100 entries and its numbers get their own cycle.
- PacketSequencer.Sequencer.Push: after a late packet was stored no entry is promised to be found any more, because the ring is out of step; LatePushHidesHead and LatePushHidesBelow say what is lost.
- DownTrackStep.OutputConservesGaps: for head packets on a track that is past its start and not muted; SecondPacketIff, LatePacketIff, UnmuteIff and SimpleResyncIff say what happens otherwise.
- DownTracks.DownTrack.SetVP8TemporalLayer: payloads up to 1460 bytes, beyond which the Go code slices past its buffer; only where a payload is rewritten.
- DownTracks.DownTrack.WriteSimulcastRTP: for packets of the current layer, the codec fields are those of the payload, as the packet buffer fills them in, and the arrival time is not 0.
- Retransmission.NothingElseIsSent: for buckets that have not restarted since they stored the packets, which nothing in the repository makes them do, and that are less than a cycle past them; AnotherIsSentIff is the exact condition for any bucket that has not restarted.
- Retransmission.RetransmissionFidelity: for packets that were the head when they were written, as the sequencer loses track after late ones.
- RoomStore.CleanerPass: reads and deletes in one step.
- RoomStore.RemoveRoom: its pipeline is one step in the protocol.
- Recordings.FoundIsLatestOfAll: for sessions whose records lie between their own start and that of the next one.
- Recordings.GetRecord: the errors of reading files and of uploading.
- Locks, goroutines and pools: each method is one step.
- Receiver reports, REMB, jitter, audio levels and sender reports: floating point and clock policy.
- Bitrate-driven layer changes, the lists of down tracks per layer, and the wire form of keyframe requests.
- Session description, ICE, DTLS, data channels, relays, and the HTTP and RPC servers.
- RemoveRecord: searches by file name in a list that is sorted by time, so its search has no order to rely on.
- The lifetime of keys in Redis: expiry is a step that may happen at any time.
