# Lowlat_stream: a verified model of the weak-network transport

This Dafny project models the weak-network transport of Lowlat_stream
(`modules/transport`), the blocking queue between its stages, the sender's three
thread loops and the receiver's packet dispatch, and proves what they are for: a
frame that can be repaired is repaired byte for byte, nothing is delivered twice,
every gap is accounted for, no wakeup is lost and the sender never deadlocks.

Run `dafny verify dfyconfig.toml` to check everything.

## How it is built

- Each class of the source is a class with the same fields. Its methods are proved
  against specification functions on plain values (`Abs()` is the value an object
  holds); the theorems about whole runs are lemmas about those functions.
- 32-bit arithmetic is explicit (`Cyclic`). Theorems about runs use unbounded frame and
  sequence numbers beside the wrapped ones, and say under which window the two agree.
- Time is a parameter, as in the source. The network is an arbitrary list of arrivals.
- The queue is a monitor whose steps are critical sections, notifications, timeouts
  and spurious wakeups; the sender's loops run over two such monitors.

| module | subject |
|---|---|
| `Basics`, `Bits`, `Cyclic`, `Newest`, `OrderStatistics` | shared helpers, XOR and bit masks on naturals, cyclic numbers, the newest of a set, sorted selection |
| `Packet`, `NackCodec`, `WireFormat` | the wire formats, and their bytes |
| `Packetizer`, `Parity`, `FecEncoder`, `FecDecoder`, `FecRecovery` | cutting frames, XOR protection, recovery |
| `FrameAssembler`, `AssemblerRuns`, `Reassembly`, `LossCount`, `AssemblerCounters` | the reassembly table, alone and over runs, and its counters |
| `ReceiverPipeline`, `EndToEnd`, `LiveStreams`, `FecGroups` | dispatch and request truncation; sender to receiver, in the window and in live streams; which groups are protected |
| `NackTracker`, `NackRuns` | gap tracking and request pacing |
| `RetransmitCache`, `RetransmitRuns`, `Retransmission` | what is resent is what was sent; request, answer and what the answer does |
| `DelayEstimator`, `DelayRuns`, `DelayLaws`, `JitterBuffer`, `JitterRuns`, `JitterIntake`, `JitterTiming` | playout delay and ordered release |
| `BoundedQueue`, `QueueMonitor`, `SenderPipeline`, `PipelineFlow` | the queue, its wakeups, the three loops and what flows through them |
| `Metrics` | latency percentiles |

## Where code and documentation differ

The model follows the code.

- "The next delivered frame is a key frame" (modules/transport/JitterBuffer.h:220) does
  not always hold. Three counterexamples are in `JitterRuns`, with the exact condition for
  one push (`KeyFirstExactly`); the exact condition over whole runs is
  `JitterIntake.FirstAfterResync`.
- `extendFrameId` (modules/transport/JitterBuffer.cpp:122-137) wraps below zero when
  frame 0 comes first and an older frame follows; `JitterRuns.ExtendedIs` gives the
  exact condition.
- A consumer that uses `popFor` and then `isClosed`
  (app/sender/SenderPipeline.cpp:316-361) can leave an element behind. Exactly when is
  `SenderPipeline.WhatTheSenderLeaves`. The render loop
  (app/receiver/ReceiverPipeline.cpp:451-467) has the same shape.
- `packetsLost` understates the loss when packets are repeated (`LossCount`).
- `immediatelyGivenUp` (modules/transport/NackTracker.cpp:84-90) is always 0, because a
  jump of a window or more has already been treated as a discontinuity.
- The gap ledger is forgotten on a discontinuity or reset; the model counts what is
  forgotten in a history variable (`discarded`) so that the equation stays exact.
- A gap is given up in the same call as its last request
  (modules/transport/NackTracker.cpp:145-150), so "retired" means "asked for as often
  as allowed", not "waited for".
- A recovered packet copies the flags of the packet it took its headers from, so it is
  identical to the original if and only if that one was an original
  (modules/transport/FecDecoder.cpp:126-145; `FecRecovery.RebuiltIsOriginal`, with an input
  in `RebuiltIsNotAlwaysOriginal`). The delivered frame does not depend on it.
- An FEC configuration with `minGroupSize` below 2 can make `buildForFrame` fail with
  Internal (modules/transport/FecEncoder.cpp:17-104); `FecEncoder.HasLoneGroup` says when.

## Model

| member | source | states |
|---|---|---|
| EndToEnd.DeliversRepaired | modules/transport/FecDecoder.cpp:28-161 | For a stream of any number of packetized frames, any base number including across the 32-bit wrap, and every run of arrivals (lost, repeated, reordered, originals mixed with retransmissions and FEC packets) whose frame numbers stay within half a turn of what they meet: only sent frames are delivered, each at most once, with the sent bytes, key mark, id and time stamp; and a frame is delivered if and only if each of its fragments arrived, or lay in an FEC group whose other fragments were among the last `recentPackets` DATA arrivals, when DATA packets of fewer than `maxPendingFrames` newer frames had arrived |
| LiveStreams.LiveStreamDelivers | modules/transport/FrameAssembler.cpp:26-138 | The same for a live stream, the window now a condition on the arrivals alone: it holds through any number of wraps if every packet belongs to a frame at most d before or after the newest one seen, with (maxPendingFrames + 1) * d below 2^31 |
| LiveStreams.LiveStaysInWindow | modules/transport/FrameAssembler.cpp:69-115 | Fragments of such a stream stay within half a turn of every entry and watermark they meet |
| LiveStreams.LiveKeepsMark | modules/transport/FrameAssembler.cpp:181-195 | In such a stream the watermark is never more than maxPendingFrames * d behind the newest frame seen |
| EndToEnd.BroughtIsReached | modules/transport/FecDecoder.cpp:28-161 | A fragment reaches the assembler in time if and only if it arrived or was rescued by an FEC packet in time: the decoder contributes nothing else and misses nothing |
| EndToEnd.HeldIsInReach | modules/transport/FecDecoder.cpp:17-26 | What the FEC buffer holds is among the last `recentPackets` DATA packets that arrived |
| EndToEnd.ScanHasOneAnswer | modules/transport/FrameAssembler.cpp:171-179 | In such a run the search for the oldest entry always has exactly one answer, so the receive loop takes exactly the steps of the run |
| EndToEnd.FewFramesAreTimely | modules/transport/FrameAssembler.cpp:102-115 | While the stream has no more frames than the table holds, no frame is ever late |
| EndToEnd.CloseFramesStayInWindow | modules/transport/FrameAssembler.cpp:69-100 | Frame numbers within half a turn of one another stay in the window, whatever arrives in whatever order |
| EndToEnd.GroupsRepair | modules/transport/FecEncoder.cpp:33-101 | With the encoder's own grouping: a frame is repaired if every group arrived in full in time, or is large enough to be protected and lost at most one fragment before its FEC packet came, in time |
| FecGroups.GroupIsProtected | modules/transport/FecEncoder.cpp:33-101 | Which groups have a packet, in numbers: group g is the fragments from g * groupSize up to the next group or the end; it has one if and only if these are at least `minGroupSize`; that packet is the g-th of the output, protects exactly these fragments, and has the g-th FEC number after the start; the output holds nothing else |
| FecGroups.SentGroupsRepair | modules/transport/FecEncoder.cpp:33-101 | A frame is repaired when each of its groups arrived in full in time, or lost at most one fragment before the packet the encoder sent for it came, in time |
| EndToEnd.NumbersAreApart | modules/transport/Packetizer.cpp:18-48 | Frames packetized one after the other, at most 2^32 fragments in all, never share a sequence number modulo 2^32 |
| EndToEnd.PacketizerSends | modules/transport/Packetizer.cpp:18-48 | The packets the packetizer makes are the copies of the fragments the end-to-end runs are about |
| EndToEnd.EncoderSends | modules/transport/FecEncoder.cpp:17-104 | The FEC packet the encoder makes for a group is the one the end-to-end runs are about: same base number, size, parity, group index and count |
| EndToEnd.NeverInvents | modules/transport/FecDecoder.cpp:53-160 | Over buffered copies of a stream the decoder returns a copy of the only missing fragment of the announced group, or nothing |
| EndToEnd.CopiesAreFaithful | modules/transport/FecDecoder.cpp:53-85 | Buffered copies of a stream without shared numbers that match a group by modular distance are fragments of that group and no other |
| EndToEnd.BufferIsLast | modules/transport/FecDecoder.cpp:17-26 | After any run the FEC buffer is exactly the last `recentPackets` DATA packets that arrived |
| EndToEnd.ArrivedIsInReach | modules/transport/FecDecoder.cpp:17-26 | While no more DATA packets have arrived than the FEC buffer keeps, every fragment that arrived can still help a repair |
| EndToEnd.RunReaches | app/receiver/ReceiverPipeline.cpp:250-296 | Over any run the assembler ends as if it had been offered, in order, exactly the fragments the arrivals and the repairs bring |
| FecRecovery.OneMissing | modules/transport/FecDecoder.cpp:96-160 | Exactly one fragment of the group missing: the decoder returns it byte for byte (header, fragment index, length, payload), carrying the retransmission mark of the first packet of the group in its buffer |
| FecRecovery.RebuiltIsOriginal | modules/transport/FecDecoder.cpp:126-145 | The rebuilt packet is the original one if and only if the first packet of the group in the buffer does not carry the retransmission mark; otherwise it is the marked copy |
| FecRecovery.RebuiltIsNotAlwaysOriginal | modules/transport/FecDecoder.cpp:126-145 | It need not be: two fragments, the first held as a retransmission, and the second comes back marked though it never was resent |
| FecRecovery.RecoveredWasAlone | modules/transport/FecDecoder.cpp:86-125 | Whatever is held: a packet is returned only when all members of the announced group but one were collected, none of them longer than the FEC payload |
| FecRecovery.NothingMissing | modules/transport/FecDecoder.cpp:87-90 | All fragments held: the FEC packet is counted complete and nothing is rebuilt |
| FecRecovery.TwoMissing | modules/transport/FecDecoder.cpp:91-94 | Two fragments missing: the FEC packet is unrecoverable, never a guess |
| FecRecovery.RecoveredIsSane | modules/transport/FecDecoder.cpp:28-161 | For arbitrary buffered packets and an arbitrary FEC buffer: what is returned decodes as DATA with index below count, non-empty payload no longer than the FEC payload, and a number inside the announced group that no decodable held packet has |
| FecRecovery.FragIndexBack | modules/transport/FecDecoder.cpp:126-134 | The fragment index rebuilt by subtraction modulo 2^32 is the missing fragment's own, for every base number |
| FecRecovery.ResidueIsMissing | modules/transport/FecDecoder.cpp:108-124 | Taking all members but one out of the parity, in whatever order they are held, leaves the missing payload, its length, and zeros behind it |
| FecRecovery.CollectedCopies | modules/transport/FecDecoder.cpp:53-85 | Every member collected for a group is a held copy, at its own offset, with its own header and payload |
| FecDecoder.FecDecoder.OnDataPacket | modules/transport/FecDecoder.cpp:17-26 | The buffer keeps the last `recentPackets` packets that are longer than the two headers; no counter but the buffer size changes |
| FecDecoder.FecDecoder.OnFecPacket | modules/transport/FecDecoder.cpp:28-161 | Returns exactly the packet of `Decide`, leaves the out-parameter alone otherwise, counts each readable FEC packet in exactly one of complete, recovered, unrecoverable (the ledger is part of `Valid`), and does not touch the buffer |
| FecDecoder.FecDecoder.Reset | modules/transport/FecDecoder.cpp:163-166 | Empties the buffer, keeps every other counter |
| FecDecoder.CollectMembers | modules/transport/FecDecoder.cpp:53-85 | The scan that skips positions already seen collects the first held packet of each group position |
| FecDecoder.RebuildPacket | modules/transport/FecDecoder.cpp:96-160 | The rebuilding code returns the packet of `Rebuild`, or fails and leaves the out-parameter alone |
| FecEncoder.FecEncoder.BuildForFrame | modules/transport/FecEncoder.cpp:17-104 | One FEC packet per group of at least `minGroupSize`, numbered consecutively modulo 2^32, with the exact counters; InvalidArg exactly when a packet is shorter than its headers, Internal exactly when some group of one counts as large enough, and then the packets of the groups before it, the unfinished packet, the number it used up and the counters without it |
| FecEncoder.FirstRefused | modules/transport/FecEncoder.cpp:38-93 | Such a frame fails at its first group when the group size is 1, otherwise at its last |
| FecEncoder.RefusedMeansLone | modules/transport/FecEncoder.cpp:38-93 | A group the header encoder refuses exists exactly when `minGroupSize` is below 2 and the group size is 1 or leaves a remainder of 1 |
| FecEncoder.BuildGroup | modules/transport/FecEncoder.cpp:47-100 | The bytes of one group's FEC packet: header, group header, parity of the zero-padded payloads |
| FecEncoder.XorGroup | modules/transport/FecEncoder.cpp:47-61 | The XOR loops over lengths and payloads compute the group's parity |
| Parity.MissingOneRemains | modules/transport/FecDecoder.cpp:108-120 | XOR-ing all payloads and then all but one leaves that one, whatever their lengths |
| Parity.AbsorbCommutes | modules/transport/FecDecoder.cpp:108-120 | The order in which payloads are XOR-ed in does not matter |
| Parity.AbsorbRemoves | modules/transport/FecDecoder.cpp:108-120 | XOR-ing a subset in again takes exactly that subset out of the parity |
| Parity.XorInto | modules/transport/FecEncoder.cpp:56-60 | The in-place loop is the XOR of the zero-padded payload into the buffer |
| Packetizer.Packetizer.Packetize | modules/transport/Packetizer.cpp:18-48 | All fragments in order with consecutive numbers, next number advanced past them; InvalidArg on an empty frame or more than 65535 fragments, and then nothing has changed |
| Packetizer.PacketizeOneFragment | modules/transport/Packetizer.cpp:54-122 | The one fragment with its headers and slice of the frame, or InvalidArg exactly when the index has no fragment, the out-parameter then untouched |
| Packetizer.JoinedIsFrame | modules/transport/Packetizer.cpp:18-52 | Cutting a frame into fragments and joining the payloads gives the frame back |
| Packetizer.FragmentCount | modules/transport/Packetizer.cpp:50-52 | The fragments cover the frame and the last one is not empty |
| Packet.PacketHeaderRoundTrip | modules/transport/Packet.cpp:25-86 | Decoding an encoded packet header gives it back |
| Packet.PacketHeaderCanonical | modules/transport/Packet.cpp:55-86 | Whatever decodes as a packet header is the encoding of the header it decodes to |
| Packet.DataHeaderRoundTrip | modules/transport/Packet.cpp:88-150 | Decoding an encoded DATA header gives it back |
| Packet.DataHeaderCanonical | modules/transport/Packet.cpp:116-150 | Whatever decodes as a DATA header is the encoding of the header it decodes to |
| Packet.FecHeaderRoundTrip | modules/transport/Packet.cpp:309-369 | Decoding an encoded FEC header gives it back |
| Packet.DataImageRoundTrip | modules/transport/Packet.cpp:25-150 | A whole DATA packet decodes to its headers and payload |
| WireFormat.PacketHeaderLayout | modules/transport/Packet.cpp:55-86 | Byte by byte: which buffers are a packet header, with which error otherwise, and where version, type, stream, number and time stamp are, most significant byte first |
| WireFormat.DataHeaderLayout | modules/transport/Packet.cpp:116-150 | The same for the DATA header: frame, fragment index and count, flags; the index below the count |
| WireFormat.FecHeaderLayout | modules/transport/Packet.cpp:336-369 | The same for the FEC header: first number, size, XOR of the lengths, group index and count, reserved; the size at least two |
| Packet.EncodePacketHeader | modules/transport/Packet.cpp:25-53 | Writes the 12 header bytes and nothing else, or fails exactly on a short buffer, unknown type or wrong version and writes nothing |
| Packet.EncodeDataHeader | modules/transport/Packet.cpp:88-114 | Writes the 9 header bytes and nothing else, or fails exactly on a short buffer or an index not below the count |
| Packet.EncodeFecHeader | modules/transport/Packet.cpp:309-334 | Writes the 12 header bytes and nothing else, or fails exactly as the source does, a group below two included |
| NackCodec.NackRoundTrip | modules/transport/Packet.cpp:156-307 | decode(encode(m)) = m for every strictly oldest-first list of modular span below 2^32 that needs at most 201 entries |
| NackCodec.NackNamesRoundTrip | modules/transport/Packet.cpp:156-307 | For any list at all that fits, ordered or not, the decoded list names exactly its elements |
| NackCodec.ExpandGreedy | modules/transport/Packet.cpp:187-210 | Expanding the greedy entries of an oldest-first list gives the list back, in order |
| NackCodec.EntriesForSpan | modules/transport/Packet.cpp:187-210 | A list of modular span s needs at most s / 17 + 1 entries |
| NackCodec.CutIsLongest | app/receiver/ReceiverPipeline.cpp:690-704 | A prefix fits in c entries exactly when it is no longer than the prefix c greedy entries cover |
| NackCodec.EncodeNackPacket | modules/transport/Packet.cpp:156-235 | Every error in the order of the source, the buffer then untouched; otherwise exactly the packet of the greedy entries and its length |
| NackCodec.TakeEntries | modules/transport/Packet.cpp:187-210 | The nested packing loop computes the greedy entries, or finds that there are too many |
| NackCodec.DecodeNackPacket | modules/transport/Packet.cpp:237-307 | Accepts exactly the well-formed packets and returns the numbers they name; the output is empty on error |
| WireFormat.NackLayout | modules/transport/Packet.cpp:237-307 | Byte by byte: a buffer is a NACK packet exactly if it has type 3, a count of 1 to 201 and six bytes per entry, and it names exactly each entry's first number and those up to 16 after it whose bit is set |
| Cyclic.NewerMeansGreater | modules/transport/Packet.cpp:152-154 | Within half a turn `seqNewerThan` on wrapped numbers is `>` on the unbounded ones |
| Cyclic.NewerIsNotAnOrder | modules/transport/Packet.cpp:152-154 | On all of uint32 it is not an order: it has a cycle of three, and two numbers half a turn apart are not newer than each other either way |
| Cyclic.NewerByDistance | modules/transport/Packet.cpp:152-154 | It holds exactly when the distance modulo 2^32 is positive and below 2^31 |
| AssemblerRuns.WireRefinesIdeal | modules/transport/FrameAssembler.cpp:26-138 | While each arriving id is within half a turn of the entries and watermark it meets, the 32-bit table is at every moment the wrapped image of the table run on unbounded ids |
| AssemblerRuns.RunIsSound | modules/transport/FrameAssembler.cpp:69-138 | On the unbounded run: no id delivered twice, every delivered id behind the watermark or kept as a tombstone, pending within its bound and ahead of the watermark |
| AssemblerRuns.StepIsSound | modules/transport/FrameAssembler.cpp:69-138 | One arrival delivers at most its own frame, and only if that was still open; nothing closed is reopened and the watermark never moves back |
| AssemblerRuns.AtMostOnce | modules/transport/FrameAssembler.cpp:69-100 | Across id wraparound: the 32-bit run delivers what the unbounded one does, no frame twice, never more than `maxPendingFrames` entries, each newer than the watermark |
| AssemblerRuns.ScanIsDetermined | modules/transport/FrameAssembler.cpp:171-179 | Within the window the scan for the oldest entry has one possible answer, whatever the iteration order |
| AssemblerRuns.NoOldestOutsideWindow | modules/transport/FrameAssembler.cpp:171-179 | Outside it there need not be one: three ids none of which is the oldest |
| AssemblerRuns.OldestIsLeast | modules/transport/FrameAssembler.cpp:171-179 | Within the window the cyclic scan finds the entry with the least unbounded id |
| FrameAssembler.FrameAssembler.Offer | modules/transport/FrameAssembler.cpp:26-138 | Every branch of `offer`: the new table, ready list, watermark and counters, and the status, as a function of the old state and the datagram |
| AssemblerCounters.OfferCounts | modules/transport/FrameAssembler.cpp:26-138 | What the counters count, read off the table before and after: received, too late, contradictory, duplicate, completed and dropped frames, and the status |
| AssemblerCounters.AcceptCounts | modules/transport/FrameAssembler.cpp:69-138 | A fragment is too late exactly if it is behind the watermark or ends up without an entry; contradictory, duplicate and completing fragments are told from the table in the same way |
| AssemblerCounters.ReadableIs | modules/transport/FrameAssembler.cpp:30-64 | Exactly the buffers that are a DATA packet of legal size are read, with the fields they hold; other known packet types are not counted as malformed |
| AssemblerCounters.FirstFragmentDecides | modules/transport/FrameAssembler.cpp:107-138 | A frame has the time stamp and key mark of the first of its fragments that was stored |
| FrameAssembler.FrameAssembler.AcceptFragment | modules/transport/FrameAssembler.cpp:69-138 | The part after parsing: too late, duplicate, contradictory count, eviction, storing, delivery |
| FrameAssembler.FrameAssembler.IntoEntry | modules/transport/FrameAssembler.cpp:69-138 | A fragment of a frame that has an entry: duplicate of a delivered frame, contradictory count, or stored |
| FrameAssembler.FrameAssembler.IntoNewEntry | modules/transport/FrameAssembler.cpp:78-115 | A fragment of a new frame: opened where there is room, in place of the oldest entry if it is newer, too late otherwise |
| FrameAssembler.FrameAssembler.OldestPendingFrameId | modules/transport/FrameAssembler.cpp:171-179 | The loop finds the oldest entry whenever the cyclic comparison orders the table |
| FrameAssembler.FrameAssembler.EvictOldest | modules/transport/FrameAssembler.cpp:181-195 | The victim is retired and removed, and counted as dropped unless it was complete |
| FrameAssembler.FrameAssembler.Pop | modules/transport/FrameAssembler.cpp:140-148 | The oldest delivered frame, removed from the ready list; false exactly when there is none |
| FrameAssembler.FrameAssembler.Reset | modules/transport/FrameAssembler.cpp:150-156 | Back to the initial state, counters included |
| Reassembly.AnyOrder | modules/transport/FrameAssembler.cpp:69-138 | For a stream of any length, within the window: any interleaving, with repetitions, of copies of its fragments delivers exactly the frames each of whose fragments came when fewer than `maxPendingFrames` newer frames had been seen, each once, as its payloads joined in index order |
| Reassembly.RunKeepsRows | modules/transport/FrameAssembler.cpp:69-138 | Over any run the table holds exactly the `maxPendingFrames` newest frames seen, each with the fragments of it that came in time; the watermark is older than all of them; and what was delivered is the completed frames, in order of completion |
| Reassembly.CompletionsAreFull | modules/transport/FrameAssembler.cpp:117-138 | Each frame all of whose fragments came in time is completed exactly once, and no other frame is |
| LossCount.LostIsMissingLessSurplus | modules/transport/FrameAssembler.cpp:14-21 | For arrivals within half a turn, in any order: `packetsLost` is the number of missing packets less the repeated and early ones, never below zero |
| LossCount.LostIsExactWhen | modules/transport/FrameAssembler.cpp:14-21 | It is exact if and only if nothing is missing or nothing was repeated or early |
| LossCount.DistinctHaveNoSurplus | modules/transport/FrameAssembler.cpp:158-169 | Distinct numbers at or after the first have no such surplus, so their loss count is exact |
| LossCount.RepeatHidesLoss | modules/transport/FrameAssembler.cpp:14-21 | A repeated packet hides a lost one: 0, 2, 2 reports no loss |
| LossCount.NothingLostYet | modules/transport/FrameAssembler.cpp:14-21 | Nothing is expected or lost before the first packet, and only the first is expected after it |
| NackRuns.RunIsExact | modules/transport/NackTracker.cpp:16-97 | After any run of arrivals within half a turn of the highest number, collections and resets, window at most 2^31: the gap table is exactly the numbers strictly between baseline and highest, younger than the window, never received and not retired; retired numbers had all their requests; each number is asked for at most `maxRequestsPerSeq` times, one tolerance apart; fewer than `windowPackets` entries; registered = closed unrequested + recovered + given up + pending + discarded, and given up = lost for real |
| NackRuns.TableIsExact | modules/transport/NackTracker.cpp:16-161 | The 32-bit tracker follows the unbounded one through every run: entry for entry, with request counts and times |
| NackRuns.DueAgrees | modules/transport/NackTracker.cpp:120-151 | A gap is asked for, or given up, by the 32-bit tests exactly when the unbounded ones say so |
| NackRuns.AskedWhen | modules/transport/NackTracker.cpp:133-151 | When a number is asked for, in numbers: exactly when requests are left and it lies at least r numbers behind the highest, and so does the highest of its last request, where r is the fragment count of the last packet's frame kept between the smaller and the larger configured bound |
| NackRuns.LastArrival | modules/transport/NackTracker.cpp:31-36 | After any run the tolerance is that of the last packet since the last reset |
| NackRuns.CollectionCountsKeys | modules/transport/NackTracker.cpp:120-151 | A collection counts the gaps it gives up, and those of them marked as a key frame's |
| NackRuns.ForwardCountsKeys | modules/transport/NackTracker.cpp:71-82 | So does a packet that moves the highest number on, for the gaps that get too old |
| NackRuns.ArrivalTallies | modules/transport/NackTracker.cpp:31-69 | Every packet is counted, none counts as a request, and exactly the jumps of a window or more count as discontinuities |
| NackRuns.CollectTwice | modules/transport/NackTracker.cpp:133-143 | A second collection with no packet in between asks for a number again exactly when the tolerance is zero and requests are left |
| NackRuns.EmittedInOrder | modules/transport/NackTracker.cpp:113-120 | Every emitted list is strictly oldest first in the sense the codec needs, and free of duplicates |
| NackRuns.CollectFits | modules/transport/NackTracker.cpp:99-153 | What one collection emits after any run needs at most ceil((window - 1) / 17) entries |
| NackRuns.RegisterHolds | modules/transport/NackTracker.cpp:92-95 | Registering n numbers adds exactly those at distance 1 to n and keeps existing entries as they are |
| NackTracker.NackTracker.OnPacket | modules/transport/NackTracker.cpp:16-97 | The new gap table, highest number and counters, for every branch; the tolerance is the fragment count kept between the two bounds |
| NackTracker.NackTracker.EvictExpired | modules/transport/NackTracker.cpp:71-82 | Exactly the gaps at least a window old go, each counted as given up, lost, and key if likely |
| NackTracker.NackTracker.RegisterMissing | modules/transport/NackTracker.cpp:92-95 | The downward loop registers the skipped numbers, oldest first |
| NackTracker.NackTracker.CollectNackTargets | modules/transport/NackTracker.cpp:99-153 | The emitted list is strictly oldest first and holds exactly the gaps that are due; table and counters move together, one request counted per emitted number |
| NackTracker.NackTracker.SortedByAge | modules/transport/NackTracker.cpp:113-118 | The keys of the table, oldest first |
| NackTracker.NackTracker.Reset | modules/transport/NackTracker.cpp:155-161 | Forgets gaps and baseline, keeps the counters |
| ReceiverPipeline.Truncate | app/receiver/ReceiverPipeline.cpp:690-704 | Keeps exactly the longest prefix whose greedy encoding fits one NACK packet |
| ReceiverPipeline.SendNack | app/receiver/ReceiverPipeline.cpp:690-721 | After truncation encoding never fails, and the packet decodes to exactly the kept targets |
| ReceiverPipeline.ReceiveLoop.OnDatagram | app/receiver/ReceiverPipeline.cpp:250-296 | One datagram through tracker, FEC buffer and assembler as the dispatch does it: a new sender restarts tracker and FEC, a rebuilt packet goes to tracker and assembler, malformed packets only to the assembler |
| ReceiverPipeline.HandledKeepsValid | app/receiver/ReceiverPipeline.cpp:250-296 | Every datagram keeps the assembler consistent |
| ReceiverPipeline.WhatIsPassedOver | app/receiver/ReceiverPipeline.cpp:250-296 | What does not come through: unreadable headers and DATA packets only count as malformed; other types, and FEC packets that rebuild nothing, leave buffer, table and counters alone |
| QueueMonitor.SleepersAreRight | common/BoundedQueue.h:66-227 | No lost wakeup, in every interleaving, timeouts and spurious wakeups included: with nobody on the way, a sleeping consumer means open and empty, a sleeping producer open and full; and beside queued elements or free places a sleeper always has a thread on its way |
| QueueMonitor.RunKeeps | common/BoundedQueue.h:66-298 | Every reachable state keeps the FIFO ledger and the wakeup invariant: while open and a consumer sleeps, notifications under way plus woken consumers cover the queue, symmetrically for producers; once closed, sleepers are about to be told |
| QueueMonitor.StepKeeps | common/BoundedQueue.h:66-227 | Each single step keeps both |
| QueueMonitor.InternalRunsEnd | common/BoundedQueue.h:66-227 | Left alone the threads come to rest: a run without new calls, timeouts and spurious wakeups is no longer than a bound computed from its first state |
| QueueMonitor.UnlessQuietSomeStep | common/BoundedQueue.h:66-227 | A thread that is in a call and not asleep can take a step |
| QueueMonitor.ConsumerIsCovered | common/BoundedQueue.h:142-194 | A sleeping consumer beside elements has a notifier or a woken consumer, one of a closed queue a closer still notifying |
| QueueMonitor.ProducerIsCovered | common/BoundedQueue.h:66-79 | The same for a sleeping producer and free places |
| QueueMonitor.PopFailsOnlyAtTheEnd | common/BoundedQueue.h:142-194 | `pop` returns false only when closed and empty, `popFor` only when empty; a successful one returns the oldest element |
| QueueMonitor.QueueOnlyGrowsAtTheEnd | common/BoundedQueue.h:66-227 | Only the element being pushed enters, at the end, never after close; what left never comes back |
| QueueMonitor.CallsThatDoNotWait | common/BoundedQueue.h:66-227 | `tryPush`, `forcePush` and a timed-out `popFor` never sleep: when each takes effect, and what it answers |
| BoundedQueue.EachExactlyOnce | common/BoundedQueue.h:66-298 | Every accepted element is exactly once popped (after exactly the older popped ones), dropped, or queued at its place |
| BoundedQueue.ClearedIsEmpty | common/BoundedQueue.h:220-227 | Clearing leaves the queue empty, and every element that was queued a dropped one |
| BoundedQueue.BoundedQueue.PushAwake | common/BoundedQueue.h:66-79 | `push` once its wait is over: enqueues, or refuses exactly when closed |
| BoundedQueue.BoundedQueue.TryPush | common/BoundedQueue.h:94-103 | Enqueues exactly when open and not full |
| BoundedQueue.BoundedQueue.ForcePush | common/BoundedQueue.h:117-130 | Enqueues exactly when open, dropping the oldest element first when full, and counts it |
| BoundedQueue.BoundedQueue.PopAwake | common/BoundedQueue.h:142-194 | Takes the oldest element; false exactly when there is none |
| BoundedQueue.BoundedQueue.Clear | common/BoundedQueue.h:220-227 | Everything queued becomes dropped, and is counted |
| BoundedQueue.BoundedQueue.Close | common/BoundedQueue.h:204-212 | Closes and changes nothing else |
| BoundedQueue.ForcePushedKeeps | common/BoundedQueue.h:117-130 | The forced push keeps the ledger, size within peak within capacity |
| SenderPipeline.NoDeadlock | app/sender/SenderPipeline.cpp:228-372 | In every reachable state of the three loops over two bounded queues, whatever stage fails and however they interleave, some unfinished loop is neither asleep nor merely polling |
| SenderPipeline.GettingOnIsAStep | app/sender/SenderPipeline.cpp:228-372 | Such a loop has a step to take |
| SenderPipeline.EveryFrameIsEncoded | app/sender/SenderPipeline.cpp:228-309 | The encode loop pops the captured frames in order with nothing lost on the way, and all of them once it has finished without a failure |
| SenderPipeline.WhatTheSenderLeaves | app/sender/SenderPipeline.cpp:311-372 | A send loop that ends without failing has sent exactly the frames accepted before its last unsuccessful `popFor`; so all of them if and only if none was accepted between that look and `isClosed` |
| SenderPipeline.AFrameCanBeLeftBehind | app/sender/SenderPipeline.cpp:316-361 | It happens: a run without any failure that ends with an accepted frame in the send queue |
| SenderPipeline.NextKeeps | app/sender/SenderPipeline.cpp:228-372 | Every step keeps the invariant the above rest on: where each thread is in each queue, who has closed what, what the encode loop has drained |
| PipelineFlow.WhatFlows | app/sender/SenderPipeline.cpp:228-372 | At any moment of any run: the raw-frame queue has accepted the frames read, in order, but for at most the last one; the encoder has had the frames popped, but for at most the last one; the send queue has accepted what the encoder put out, in order, up to some point; the frames popped from it have been sent, but for at most the last one |
| PipelineFlow.WhatComesOut | app/sender/SenderPipeline.cpp:228-372 | Once all three loops are done, an abort was requested if and only if encoding or sending failed; otherwise every frame read was encoded, the encoder was flushed, everything it put out was queued in order, and the sender sent what it had seen of that |
| PipelineFlow.DoneHasClosed | app/sender/SenderPipeline.cpp:228-372 | A loop that is done has closed the queue it fills, a loop that failed has requested an abort and closed both; without an abort the send queue is closed only after the raw-frame queue was closed and drained |
| PipelineFlow.NothingReadAfterAbort | app/sender/SenderPipeline.cpp:231-232 | Once an abort is requested it stays so, and no further frame is read |
| PipelineFlow.NextHolds | app/sender/SenderPipeline.cpp:228-372 | Every step keeps what these rest on: what each loop has in hand, who may close which queue, and that a loop that stops without a failure of its own was stopped by an abort |
| RetransmitRuns.LookupsAreRight | modules/transport/RetransmitCache.cpp:13-80 | After any run of frames packetized and stored in order, `maxFrames` in 1..65536: looking up any number a cached frame was sent with gives that frame, index and count; any hit names a fragment sent with that number |
| RetransmitRuns.HeldFragmentIsFound | modules/transport/RetransmitCache.cpp:49-80 | No other cached frame covers that number: ranges are disjoint modulo 2^32 |
| RetransmitRuns.RunHolds | modules/transport/RetransmitCache.cpp:13-47 | The cache is always the last frames sent, contiguous in number, within the limit |
| RetransmitRuns.RecentIsHeld | modules/transport/RetransmitCache.cpp:13-47 | With times in order a sent frame is held if and only if it is among the last `maxFrames` sent (any, if that is 0) and the last operation on the cache came less than the retention after it was stored |
| RetransmitRuns.ResentIsOriginal | modules/transport/Packetizer.cpp:54-122 | The resent packet equals the original in every byte except bit 1 of the flags, which is set |
| Retransmission.RequestIsMet | app/sender/SenderPipeline.cpp:420-447 | The retransmission round trip, for any number of a request list that the sender still caches: the replies contain the marked copy of exactly the fragment sent with it; it reads back as that fragment; whenever it comes it closes its gap in the tracker and no other, and fills its slot in the assembler, delivering the frame if it was the last one missing |
| Retransmission.RecentRequestIsMet | app/sender/SenderPipeline.cpp:420-447 | So a request for a fragment of a frame sent recently, by count and by time, is always answered with its marked copy |
| Retransmission.RepliesWereSent | app/sender/SenderPipeline.cpp:420-447 | Every reply is the marked copy of a fragment that was sent with one of the wanted numbers |
| Retransmission.CachedIsAnswered | app/sender/SenderPipeline.cpp:420-441 | The answer for any number of a frame still cached is the marked copy of the fragment that was sent with it |
| Retransmission.CopyClosesGap | modules/transport/NackTracker.cpp:45-66 | A copy of a missing fragment, after any run, removes exactly its gap, and counts as recovered exactly if it had been asked for |
| Retransmission.RepairClosesGap | app/receiver/ReceiverPipeline.cpp:271-294 | An FEC packet that rebuilds a missing fragment closes its gap in the tracker and no other |
| Retransmission.DataClosesGap | app/receiver/ReceiverPipeline.cpp:669-690 | A DATA packet closes its own gap before anything is asked for |
| Retransmission.CopyIsNoticed | app/receiver/ReceiverPipeline.cpp:682-683 | The tracker learns the number, the fragment count and the key mark that the fragment was sent with |
| Retransmission.AskedIsRemembered | modules/transport/NackTracker.cpp:120-151 | A gap just asked for stays, marked as asked for, exactly if it is not given up by the same collection |
| Retransmission.CopyFillsSlot | modules/transport/FrameAssembler.cpp:102-138 | A copy of a fragment that a frame under collection lacks fills its slot and leaves every other entry alone; if it was the last one, the frame is delivered as sent |
| Retransmission.ReverseChannel.OnDatagram | app/sender/SenderPipeline.cpp:395-447 | One datagram on the reverse channel: malformed, key frame request, or a request list answered in order from the cache; replies and counters |
| Retransmission.ReverseChannel.Resend | app/sender/SenderPipeline.cpp:420-447 | The loop over the wanted numbers: look up, cut again marked as a retransmission, count misses and failures |
| Retransmission.EachIsAccounted | app/sender/SenderPipeline.cpp:420-447 | Each wanted number is answered, missed or impossible to cut |
| Retransmission.MissesAreUnheld | app/sender/SenderPipeline.cpp:420-447 | What the cache holds after any run can always be cut, so every wanted number is answered or a miss |
| RetransmitCache.FreshIsExact | modules/transport/RetransmitCache.cpp:82-103 | With entries in order of time exactly the expired ones go |
| RetransmitCache.RetransmitCache.Store | modules/transport/RetransmitCache.cpp:13-47 | The entry is appended, expired and surplus ones go; empty frames are ignored; frames, bytes and stored = evicted + held (+ discarded by reset) stay true |
| RetransmitCache.RetransmitCache.Find | modules/transport/RetransmitCache.cpp:49-80 | The first entry covering the number, with index and count; a miss leaves the out-parameters alone |
| RetransmitCache.RetransmitCache.EvictExpired | modules/transport/RetransmitCache.cpp:82-103 | Drops the expired prefix and keeps the ledgers |
| RetransmitCache.RetransmitCache.Reset | modules/transport/RetransmitCache.cpp:105-109 | Empties the cache, keeps the cumulative counters |
| DelayRuns.ShrinkIsBounded | modules/transport/DelayEstimator.cpp:69-135 | Adaptive mode, positive rate, time not running backwards: from any observation i to any later j, however the time is divided, 1000 * (level_i - level_j) <= rate * (t_j - t_i) + 999; with equality up to the carried remainders when every step was rate-limited and unclamped |
| DelayRuns.StepIsBounded | modules/transport/DelayEstimator.cpp:69-128 | One step lowers the level in thousandths, less the carried remainder, by no more than rate times elapsed time, and by exactly that when rate-limited and unclamped |
| DelayRuns.FirstSettles | modules/transport/DelayEstimator.cpp:111-128 | Every adaptive observation leaves the level between the effective floor and `maxDelayMs` |
| DelayRuns.WindowIsExact | modules/transport/DelayEstimator.cpp:52-59 | With time not running backwards the window is exactly the samples at most `windowMs` old |
| DelayRuns.WindowIsSuffix | modules/transport/DelayEstimator.cpp:29-58 | In any order of time the window is the end of what was observed, and samples seen = evicted + held |
| DelayRuns.PercentileIs | modules/transport/DelayEstimator.cpp:175-188 | A percentile is the element of rank floor(p * (n - 1) / 100): d exactly when at most that many samples are below d and more are at most d |
| DelayRuns.RawIsNatural | modules/transport/DelayEstimator.cpp:61-67 | The measured jitter is never negative when the floor percentile does not exceed the delay percentile |
| DelayRuns.FrameIntervalIs | modules/transport/DelayEstimator.cpp:148-173 | With fifteen differences the frame interval is d if and only if at most three are below d and at least four are at most d |
| DelayLaws.DueIs | modules/transport/DelayEstimator.cpp:47-49 | When a frame is due, in both modes: time stamp plus clock offset plus level, not before 0; so a frame that sets the offset is due exactly the level after it was observed |
| DelayLaws.FixedDue | modules/transport/DelayEstimator.cpp:35-50 | With `adaptive` off, over runs: a frame is due `targetDelayMs` after its time stamp plus the least offset seen so far |
| DelayLaws.AdaptiveOffset | modules/transport/DelayEstimator.cpp:61-62 | In adaptive mode the clock offset is the floor percentile of the window, by counts |
| DelayLaws.JitterIs | modules/transport/DelayEstimator.cpp:61-67 | The measured jitter is the distance between the two percentiles, kept in the range of int |
| DelayLaws.LevelIs | modules/transport/DelayEstimator.cpp:69-128 | The level after an observation: held with too few samples, raised to a larger jitter at once, lowered to a smaller one by the rate for the time passed with the remainder carried, then kept between floor and maximum |
| DelayLaws.FollowIsGoal | modules/transport/DelayEstimator.cpp:83-109 | The saturations at 64 and 32 bits never show in it |
| DelayLaws.FloorIs | modules/transport/DelayEstimator.cpp:111-118 | The floor is `minDelayMs`, or a round trip and a frame interval if both are known and more, never above `maxDelayMs` |
| DelayLaws.ReportsAre | modules/transport/DelayEstimator.cpp:111-135 | What an adaptive observation reports: delays, floor and its origin, peak, raises, limited falls, clamps |
| DelayLaws.FixedReportsAre | modules/transport/DelayEstimator.cpp:35-50 | With `adaptive` off: the level is `targetDelayMs`, reported as current, raw and at least the peak delay, and the sample window stays as it is |
| DelayLaws.DeltasAreTheLast | modules/transport/DelayEstimator.cpp:148-173 | The differences kept are the last fifteen between successive time stamps |
| DelayRuns.NothingOverflows | modules/transport/DelayEstimator.cpp:29-140 | For clock readings below 2^63 - 2^32 - 2^31 no signed 64-bit operation of an observation overflows: offset, percentile spread, time to play, whatever was observed before |
| DelayEstimator.DelayEstimator.Observe | modules/transport/DelayEstimator.cpp:29-140 | Every branch of `observe`, with saturation, clamps and counters; the time to play is time stamp plus offset plus level, not below 0 |
| DelayEstimator.DelayEstimator.FollowRaw | modules/transport/DelayEstimator.cpp:69-109 | Raises at once, falls at the configured rate with the remainder carried, holds with too few samples |
| DelayEstimator.DelayEstimator.ClampToBudget | modules/transport/DelayEstimator.cpp:111-135 | The floor from round trip and frame interval, the clamps, and their counters |
| DelayEstimator.DelayEstimator.UpdateFrameInterval | modules/transport/DelayEstimator.cpp:148-173 | Keeps the last fifteen differences and their lower quartile |
| DelayEstimator.DelayEstimator.Remember | modules/transport/DelayEstimator.cpp:52-59 | Appends the sample and drops the outdated prefix, counting it |
| DelayEstimator.DelayEstimator.SetRttMs | modules/transport/DelayEstimator.cpp:142-146 | Non-positive round trips are ignored |
| DelayEstimator.DelayEstimator.Reset | modules/transport/DelayEstimator.cpp:190-210 | Back to the start, the round trip excepted |
| OrderStatistics.KthIs | modules/transport/DelayEstimator.cpp:175-188 | The k-th element of the sorted samples is d exactly when at most k are below d and more than k at most d: the contract of `nth_element` |
| OrderStatistics.SameCountsSortAlike | common/Metrics.cpp:25 | Sequences with the same counts sort alike |
| JitterRuns.RunKeeps | modules/transport/JitterBuffer.cpp:28-163 | Over any mix of pushes, pops, resynchronisations and round-trip reports: framesIn = out + tooLate + duplicate + dropped + beforeKey + resync + buffered; sampled-but-dropped = tooLate + beforeKey; estimator samples = framesIn - duplicates; the buffer is in order, beyond what was delivered, within `hardLimitFrames`, and its oldest size - `maxFrames` entries are due at once |
| JitterRuns.DeliveryAscends | modules/transport/JitterBuffer.cpp:67-79 | Delivered extended numbers strictly increase, and framesOut counts them |
| JitterRuns.GateHolds | modules/transport/JitterBuffer.cpp:44-51 | With the gate enabled everything buffered is a key frame or was pushed after one since the gate last closed |
| JitterRuns.DeliveredCameThroughGate | modules/transport/JitterBuffer.cpp:44-79 | So is every frame a pop ever handed out, at the moment it was handed out |
| JitterRuns.PushedIs | modules/transport/JitterBuffer.cpp:28-65 | What becomes of a pushed frame, case by case: duplicate before sampling, gate before lateness, insertion and both limits |
| JitterTiming.PopIsOnTime | modules/transport/JitterBuffer.cpp:67-79 | When a pop succeeds and when it fails, over runs: the frame handed out is due by what the estimator said as it was pushed, or the buffer has held more than `maxFrames` since; a frame kept back is not due yet, and the buffer holds no more than `maxFrames` |
| JitterTiming.AllTimed | modules/transport/JitterBuffer.cpp:53-64 | After any run every buffered frame is due when the estimator said as it was pushed, or at once because the buffer has been too full since |
| JitterTiming.TimesAfterPush | modules/transport/JitterBuffer.cpp:53-64 | What a push does to the due times: the oldest frames beyond `maxFrames` are due at once, all others as before, the new one at its time to play |
| JitterTiming.ForcedEarlyIs | modules/transport/JitterBuffer.cpp:152-163 | The frames counted as forced early are those the soft limit made due before their time |
| JitterIntake.FirstAfterResync | modules/transport/JitterBuffer.cpp:44-120 | The exact condition over whole runs: what the first successful pop after a resynchronisation hands out is, of the frames that got past gate and watermark since (first push of each extended number, told from the pushed frames alone), the oldest among the `hardLimitFrames` newest |
| JitterIntake.NextIsKeyExactly | modules/transport/JitterBuffer.cpp:112-120 | So it is a key frame if and only if that frame was pushed as one |
| JitterIntake.FrontIsNext | modules/transport/JitterBuffer.cpp:53-64 | From an empty buffer on, until something is delivered: the buffer is empty exactly while no frame was taken in; otherwise exactly one frame is next, and it is at the front |
| JitterIntake.HoldsTheNewest | modules/transport/JitterBuffer.cpp:53-163 | Until the next delivery the buffer holds exactly the `hardLimitFrames` newest frames taken in, each as first pushed, whatever was dropped and pushed again meanwhile |
| JitterIntake.ABrokenPromiseCanMend | modules/transport/JitterBuffer.cpp:53-64 | A push that breaks the promise can be made good by a later one: key 6, non-key 5, key 4, and the key frame 4 comes first |
| JitterRuns.ResyncIsKeyFirst | modules/transport/JitterBuffer.cpp:112-120 | A resynchronisation, like the start, puts the buffer in the state the promise needs |
| JitterRuns.KeyFirstExactly | modules/transport/JitterBuffer.cpp:44-61 | Push by push: while a key frame is next, a push keeps it so if and only if it meets a condition on the buffer before it |
| JitterRuns.ReorderedFrameComesFirst | modules/transport/JitterBuffer.cpp:53-64 | The promise as documented fails: a reordered older frame sorts ahead of the key frame |
| JitterRuns.HardLimitDropsTheKeyFrame | modules/transport/JitterBuffer.cpp:143-149 | It fails: the hard limit drops the key frame |
| JitterRuns.LateKeyFrameOpensTheGate | modules/transport/JitterBuffer.cpp:44-58 | It fails: a key frame that is itself too late opens the gate |
| JitterRuns.ExtendedIs | modules/transport/JitterBuffer.cpp:122-137 | The extended number is the unbounded one modulo 2^64, so equal to it if and only if that is neither negative nor too large |
| JitterRuns.ExtendedOrder | modules/transport/JitterBuffer.cpp:122-137 | Where both are exact, extended numbers are ordered as the unbounded ones |
| JitterRuns.OneBeforeFrameZero | modules/transport/JitterBuffer.cpp:122-137 | Frame 0 first and then the one before it: the older frame gets the largest number of all |
| JitterRuns.AnchorFollows | modules/transport/JitterBuffer.cpp:31-33 | Every pushed frame moves the extension anchor, whatever becomes of it |
| JitterBuffer.JitterBuffer.Push | modules/transport/JitterBuffer.cpp:28-65 | Buffer, anchor, estimator, gate and counters after a push |
| JitterBuffer.JitterBuffer.Pop | modules/transport/JitterBuffer.cpp:67-79 | The oldest frame if it is due; the delivery watermark moves to it |
| JitterBuffer.JitterBuffer.MsUntilNextDue | modules/transport/JitterBuffer.cpp:81-92 | -1 exactly when empty, 0 exactly when `pop` succeeds now, otherwise the exact first time it can, or the largest int when that is further off |
| JitterBuffer.JitterBuffer.EnforceCapacity | modules/transport/JitterBuffer.cpp:143-163 | The newest `hardLimitFrames` stay; of them, those followed by at least `maxFrames` others are due at once, the rest as before; both counted |
| JitterBuffer.JitterBuffer.DropUntilKeyFrame | modules/transport/JitterBuffer.cpp:112-120 | Empties the buffer and closes the gate; anchor, watermark and estimator stay |
| JitterBuffer.JitterBuffer.Reset | modules/transport/JitterBuffer.cpp:94-108 | Back to the start, the round trip excepted |
| Metrics.RankIsCeiling | common/Metrics.cpp:30-33 | For p in 0..100 the split formula is ceil(p * n / 100), at most n, positive when p and n are |
| Metrics.PercentileIs | common/Metrics.cpp:21-35 | The answer is v exactly when fewer samples than the rank are below v and at least as many at or below it |
| Metrics.PercentileIsMonotone | common/Metrics.cpp:21-35 | A higher percentile is never smaller |
| Metrics.TopIsLargest | common/Metrics.cpp:12-39 | The 100th percentile is the incrementally kept maximum |
| Metrics.LatencyRecorder.PercentileMs | common/Metrics.cpp:21-35 | The answer is that of the samples as they came, however often they were sorted in place before |
| Metrics.LatencyRecorder.Add | common/Metrics.cpp:12-15 | One sample more, the maximum kept |
| Metrics.LatencyRecorder.Max | common/Metrics.cpp:37-39 | The largest sample so far |

## Left out

- Camera, encoder, decoder, renderer, display, file dumps: foreign calls. In the sender they are stages that may fail at any call.
- Sockets, clocks, signals, logging, command line: I/O. Time and arrivals are parameters.
- PLI rate limiting and the RTT table: single-branch checks. RTT is any input to the estimator. Of `drainReverseChannel` each datagram is modelled (`Retransmission`); how many are read at a time is not.
- A sender without a network target, which has no send queue: the model always has both queues.
- The receiver's decode and render loops and their queues: they use the same queue the model proves correct, in the same ways.
- `LossInjector`: any packet may be lost anyway, and its statistics are not a matter of proof.
- Status messages: only the kind of error is kept. Null arguments cannot be expressed.
- `DelayEstimator.DelayEstimator.Observe`: clock readings are below 2^63 - 2^32 - 2^31, because above that a signed 64-bit addition of the source can overflow, which leaves the source without a meaning.
- `EndToEnd.DeliversRepaired`: one stream between two changes of sender, fewer than 2^32 fragments in all, frame numbers within half a turn of what they meet (`LiveStreams` says when); beyond that the cyclic comparison need not have an oldest entry (`AssemblerRuns.NoOldestOutsideWindow`).
- `QueueMonitor.InternalRunsEnd`: says that the threads come to rest, not that the operating system schedules them fairly.
- `BoundedQueue.BoundedQueue.PushAwake`: starts when the wait is over; the waiting itself is in `QueueMonitor`.
- `BoundedQueue.BoundedQueue.PopAwake`: starts when the wait is over, likewise.
- The ordered map of the jitter buffer is an ordered sequence, the hash maps are maps; complexity, move semantics and memory reuse are not modelled.
- `std::sort` and `std::nth_element` are represented by what they promise (`OrderStatistics`).
