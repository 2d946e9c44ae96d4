# MW-NFD in Dafny

A model of the parts of MW-NFD, a multi-worker NDN forwarder, whose correctness is hard to see from the code, with
proofs of what those parts promise. It covers the link layer (reliability, fragmentation, reassembly, congestion
marking, stream framing), the queue between threads, the forwarding pipelines with their strategies, and the CIDR test
of the access lists. `dafny verify dfyconfig.toml` checks the whole project.

Components that work by updating fields are classes whose methods are proved against functions on values. The results
about whole runs are lemmas about those functions.

- `Sequence64`, `SendWindow`: 64-bit sequence numbers that wrap, and the window start of the reliable sender.
- `ReliabilityProtocol`, `ReliabilityInvariants`, `ReliabilityRuns`: reliable delivery as a state machine over sends,
  Acks and timeouts, with unbounded transmission numbers, and what every run of it keeps. `ReliabilityEffects`: what each
  event does, in terms of what was sent and acknowledged before.
- `LpReliabilityMaps`, `LpReliability`: the sender as it is coded, with a map ordered by wrapped numbers, an iterator
  into it and a vector of fragments per packet, refining the state machine step by step.
- `AckQueue`, `DuplicateFilter`: the receiving side of reliability.
- `LpPackets`, `LpFragmenter`, `LpReassembler`, `RoundTrip`, `LinkRoundTrip`: packet sizes, fragmentation and reassembly,
  and the round trip between them, and between two link services, over a network that loses, repeats and reorders.
  `ReassemblySafety`: reassembly of any fragments, well-formed or not.
- `CongestionMarking`, `GenericLinkService`: the marker and the sending side of the link service.
- `StreamTransport`, `StreamRoundTrip`: TLV elements from a byte stream, and back.
- `BlockingQueue`: the semaphore and queue protocol, over the atomic steps of all threads.
- `ProcessNack`, `NackExchange`: Nack aggregation, and two hosts that wait for each other.
- `Faces`, `PitRecords`, `BestRoute`, `Rotation`, `StaleNacks`: scope rules, records of PIT entries, the best-route
  strategy with exponential suppression, its runs, and what Nacks left in out-records do to them.
- `Forwarding`, `ForwardingSafety`, `DataDelivery`, `Forwarder`: the pipelines, the life cycle of PIT entries, scope.
  `ForwardingEffects`, `DataEffects`, `Fulfilment`: what each pipeline does to the records and sends, and what a
  downstream is promised over a run.
- `Network`: CIDR networks as ranges.

## What turned out to be conditional

- Piggybacked Acks can push a packet over the MTU: the reserve for the TLV-LENGTH is judged by the size of the whole
  packet, which is wrong for sizes 253 and 254. `PiggybackSize` gives the exact condition, `PiggybackCorner` what it comes
  to below 2^16, `PiggybackOverflows` an input.
- A packet filled with Acks may have no room left for a congestion mark. `MarkedSize` gives the condition,
  `MarkedIdleOverflows` an input.
- The idle loop ends because each IDLE packet takes an Ack, which holds exactly from an MTU of 16 (`IdleTakesOne`); the
  source admits no MTU below 64.
- Nack exchange between two hosts resolves exactly when one of them receives the last Nack of its other upstreams after
  the Interest of its peer (`NoLiveDeadlock`). When both receive it before, each waits for the other until the
  PIT entries expire; `BothCanWait` is such a run.
- A Nack in an out-record is documented to mean that the last transmission was Nacked, and to be cleared by the outgoing
  Interest pipeline, which does not do so. The model follows the code. After a transmission the record is as documented
  exactly when it held no Nack before (`DocumentedIff`); `StaleNack` is a run in which it is not. What that does to
  suppression is in `SuppressionAfterSend` and `NeverSuppressedAgain`; the runs of `Rotation` are those with an out-record
  pending.
- The first Sequence of a link is 2^64 - 2, since fetch_add returns the counter before the addition.

## Model

| member | source | states |
|---|---|---|
| SendWindow.OneTestIsEnough | daemon/face/lp-reliability.cpp:224-233 | comparing the new TxSequence with the first fragment of the window alone is the same as looking it up among all unacknowledged fragments, also when the 64-bit numbers have wrapped |
| SendWindow.AssignKeepsFirst | daemon/face/lp-reliability.cpp:224-233 | taking the next TxSequence keeps the window start at the oldest fragment in cyclic order |
| SendWindow.EraseKeepsFirst | daemon/face/lp-reliability.cpp:389-408 | when the first fragment is erased, stepping the iterator and wrapping to begin() finds the next oldest one |
| Sequence64.WrapDist | daemon/face/lp-reliability.hpp:207-212 | cyclic distance between wrapped numbers is the distance between the unbounded transmission numbers, while that is below 2^64 |
| ReliabilityInvariants.NewTxSequenceIsFresh | daemon/face/lp-reliability.cpp:224-233 | the range is exceeded exactly when a live fragment still carries the next TxSequence, so no two live fragments ever share one |
| ReliabilityInvariants.LoseKeepsInv | daemon/face/lp-reliability.cpp:277-363 | giving up on a packet, or moving a fragment to a new TxSequence, keeps the protocol invariant |
| ReliabilityInvariants.AckKeepsInv | daemon/face/lp-reliability.cpp:115-163 | an Ack, with the losses it reveals, keeps the protocol invariant |
| ReliabilityRuns.StepKeepsInv | daemon/face/lp-reliability.cpp:65-163 | every event (send, Ack, RTO expiry) keeps the protocol invariant unless it exceeds the TxSequence range |
| ReliabilityRuns.PacketClasses | daemon/face/lp-reliability.cpp:297-387 | in every run each packet is pending exactly while a fragment is live, acknowledged exactly when all fragments were acked and none was resent, retransmitted exactly when all were acked and some resent, and exhausted exactly when neither; an exhausted packet has a fragment that used up all retransmissions |
| ReliabilityRuns.Conservation | daemon/face/lp-reliability.cpp:297-387 | after every run each counter is the number of packets that were acked at once, acked after a resend, or never acked; with those in flight they are all packets handed to the link |
| ReliabilityRuns.BoundedEffort | daemon/face/lp-reliability.cpp:277-363 | no fragment is transmitted more than 1 + maxRetx times, and transmissions and losses of a run are bounded by what was handed to the link |
| ReliabilityRuns.LossDetection | daemon/face/lp-reliability.cpp:250-275 | every live fragment has counted exactly the Acks accepted for later transmissions, and none has reached the loss threshold |
| ReliabilityRuns.WindowOrder | daemon/face/lp-reliability.hpp:207-212 | live TxSequences are distinct and their cyclic order from the oldest is the order of transmission, also after a wrap |
| ReliabilityEffects.PacketSizes | daemon/face/lp-reliability.cpp:64-104 | a packet sent has as many fragments as were handed over for it, and no event changes that |
| ReliabilityEffects.AllFragmentsHanded | daemon/face/lp-reliability.cpp:64-104 | in every run fragment i of the p-th packet sent was transmitted if and only if that packet has more than i fragments |
| ReliabilityEffects.NumberOfFragments | daemon/face/lp-reliability.cpp:64-104 | the fragments transmitted are as many as the packets sent have together |
| ReliabilityEffects.TimeoutDoes | daemon/face/lp-reliability.cpp:277-363 | a timeout transmits the fragment once more, as the newest transmission, if it was transmitted at most maxRetx times, and otherwise gives up its packet with all fragments; nothing else changes, and a timer of a fragment that is gone does nothing |
| ReliabilityEffects.AckDoes | daemon/face/lp-reliability.cpp:115-163 | an Ack acknowledges its fragment and no other; of the other live fragments exactly those transmitted earlier that have now seen as many later Acks as the threshold are retransmitted, or gone with their packet when one of its fragments has no retransmission left |
| ReliabilityEffects.StaleAckDoesNothing | daemon/face/lp-reliability.cpp:115-163 | an Ack for a TxSequence that is not outstanding does nothing |
| LpReliabilityMaps.SwapAndPop | daemon/face/lp-reliability.cpp:370-374 | overwriting an element with the last one and popping removes exactly that element |
| LpReliabilityMaps.ThrowsIffFull | daemon/face/lp-reliability.cpp:224-233 | the test in the code throws exactly when the window of the protocol is full |
| LpReliabilityMaps.AroundIsNextTx | daemon/face/lp-reliability.cpp:250-275 | stepping the map iterator with wrap-around goes to the next outstanding transmission |
| LpReliabilityMaps.WalkOn | daemon/face/lp-reliability.cpp:250-275 | one iteration of the walk over the window counts and finds lost exactly the fragment it passes |
| LpReliabilityMaps.VectorTellsLive | daemon/face/lp-reliability.cpp:376-384 | a packet has another live fragment exactly when its vector keeps an element |
| LpReliabilityMaps.RetireMatches | daemon/face/lp-reliability.cpp:365-387 | erasing an acknowledged fragment keeps the maps and vectors in step with the protocol state |
| LpReliabilityMaps.ExhaustMatches | daemon/face/lp-reliability.cpp:297-322 | erasing all fragments of a packet keeps them in step |
| LpReliabilityMaps.ResendMatches | daemon/face/lp-reliability.cpp:323-360 | moving a fragment to its new TxSequence keeps them in step |
| LpReliabilityMaps.AckReady | daemon/face/lp-reliability.cpp:115-163 | after the acknowledged fragment is erased, the fragments found lost are still in the map under their TxSequences |
| LpReliabilityModel.LpReliability.constructor | daemon/face/lp-reliability.cpp:36-44 | the empty link matches the start of the protocol |
| LpReliabilityModel.LpReliability.AssignTxSequence | daemon/face/lp-reliability.cpp:224-233 | moves to the next number; fails exactly when it is still in use; keeps the window start |
| LpReliabilityModel.LpReliability.DeleteUnackedFrag | daemon/face/lp-reliability.cpp:389-408 | erases the fragment and its timer and leaves the window start at the oldest remaining fragment |
| LpReliabilityModel.LpReliability.FindLostLpPackets | daemon/face/lp-reliability.cpp:250-275 | counts the Ack for exactly the earlier transmissions and returns, in order of transmission, those at the loss threshold |
| LpReliabilityModel.LpReliability.OnLpPacketAcknowledged | daemon/face/lp-reliability.cpp:365-387 | is the protocol step that retires the fragment, with the counter the packet belongs to when it was the last |
| LpReliabilityModel.LpReliability.GiveUp | daemon/face/lp-reliability.cpp:297-322 | erases every fragment of the packet and counts it as exhausted, as in the protocol |
| LpReliabilityModel.LpReliability.Resend | daemon/face/lp-reliability.cpp:323-360 | moves the fragment to a new TxSequence, or fails when the range is exceeded, as in the protocol |
| LpReliabilityModel.LpReliability.OnLpPacketLost | daemon/face/lp-reliability.cpp:277-363 | is the protocol step for one loss |
| LpReliabilityModel.LpReliability.ResendOrFail | daemon/face/lp-reliability.cpp:152-162 | handles the lost fragments one after the other, skipping those already gone with their packet |
| LpReliabilityModel.LpReliability.ProcessAck | daemon/face/lp-reliability.cpp:115-163 | is the protocol step for one Ack, for any TxSequence, known or not |
| LpReliabilityModel.LpReliability.ProcessAcks | daemon/face/lp-reliability.cpp:115-163 | is the run of those steps over the Acks of a packet |
| LpReliabilityModel.LpReliability.OnRtoTimer | daemon/face/lp-reliability.cpp:277-363 | is the protocol step for an RTO expiry |
| LpReliabilityModel.LpReliability.HandleOutgoing | daemon/face/lp-reliability.cpp:64-104 | is the protocol step for a packet: it fails exactly when the TxSequence range is exceeded, and otherwise stores exactly the n fragments, under the n TxSequences that follow the last one, as one more packet |
| LpReliabilityModel.LpReliability.CountersConserve | daemon/face/lp-reliability.cpp:297-387 | packets handed over = nAcknowledged + nRetransmitted + nRetxExhausted + packets still stored |
| AckQueueModel.PiggybackSize | daemon/face/lp-reliability.cpp:192-222 | for every packet that fitted and every MTU: with its Acks it still fits if and only if it takes none or they leave room for the outer TLV-LENGTH |
| AckQueueModel.PiggybackCorner | daemon/face/lp-reliability.cpp:199-201 | below 2^16 that fails exactly for packets of 253 or 254 octets whose Acks leave less than two octets |
| AckQueueModel.PiggybackOverflows | daemon/face/lp-reliability.cpp:199-201 | an input that fails: a network packet of 227 octets is not fragmented at an MTU of 277, has 253 octets with its two numbers, and 279 with two Acks |
| AckQueueModel.PiggybackIsMaximal | daemon/face/lp-reliability.cpp:192-222 | when Acks are left behind, one more would leave less than the two octets kept in reserve |
| AckQueueModel.IdleTakesOne | daemon/face/lp-reliability.cpp:235-248 | an IDLE packet takes an Ack if and only if the MTU is at least 16, which is what makes the idle loop end |
| AckQueueModel.IdleFits | daemon/face/lp-reliability.cpp:192-222 | an IDLE packet with its Acks is within any MTU from 16 to 2^16 - 1 |
| AckQueueModel.MarkedSize | daemon/face/generic-link-service.cpp:103-123 | any packet that then gets a congestion mark fits if and only if its Acks leave room for the mark |
| AckQueueModel.MarkedIdleFits | daemon/face/generic-link-service.cpp:94-123 | for an IDLE packet that is when the queue ran out first or enough octets were left over |
| AckQueueModel.MarkedIdleOverflows | daemon/face/generic-link-service.cpp:94-123 | an input that fails: five Acks on a link with an MTU of 64 |
| AckQueueModel.AckQueue.constructor | daemon/face/lp-reliability.cpp:36-44 | no Ack waits and the idle timer is off |
| AckQueueModel.AckQueue.SetOptions | daemon/face/lp-reliability.cpp:46-56 | disabling reliability cancels the idle timer, so a pending timer implies reliability is enabled |
| AckQueueModel.AckQueue.QueueAck | daemon/face/lp-reliability.cpp:165-168 | the Ack goes to the end of the queue and the idle timer is pending |
| AckQueueModel.AckQueue.Piggyback | daemon/face/lp-reliability.cpp:192-222 | takes the longest prefix of the queue that fits by its own reckoning, in order; every Ack queued so far was attached once or still waits |
| AckQueueModel.AckQueue.OnIdleTimer | daemon/face/lp-reliability.cpp:235-248 | empties the queue into IDLE packets, each with at least one Ack, in order; what is sent are those within the MTU after marking, which are all of them when none is marked and the MTU is below 2^16 |
| DuplicateFilterModel.PurgeKeepsConsistent | daemon/face/lp-reliability.cpp:170-190 | every remembered Sequence is queued and the front of the queue is remembered, so looking it up with operator[] never leaves a new entry behind |
| DuplicateFilterModel.PurgeKeepsRecent | daemon/face/lp-reliability.cpp:170-190 | a Sequence is not forgotten within one RTO of its receipt |
| DuplicateFilterModel.RunConsistent | daemon/face/lp-reliability.cpp:170-190 | in every run every map key also occurs in the queue and was received |
| DuplicateFilterModel.NewIsNotFlagged | daemon/face/lp-reliability.cpp:170-190 | a Sequence that was not received before is never reported |
| DuplicateFilterModel.RepeatIsFlagged | daemon/face/lp-reliability.cpp:170-190 | a repeat is reported unless a packet in between was processed later than the first receipt plus the RTO at that time |
| DuplicateFilterModel.PurgeForgets | daemon/face/lp-reliability.cpp:170-190 | of a queue in order of receipt exactly those Sequences are forgotten that were received more than one RTO ago |
| DuplicateFilterModel.FirstRepeatIff | daemon/face/lp-reliability.cpp:170-190 | with a clock that does not run backwards, the first repeat after different Sequences is reported if and only if no packet since the first receipt was processed later than that receipt plus the RTO at that time |
| DuplicateFilterModel.DuplicateFilter.Process | daemon/face/lp-reliability.cpp:165-190 | reports exactly the remembered Sequences and updates map and queue as the specification says |
| LpPackets.VarSize | ndn-cxx/ndn-cxx/encoding/tlv.hpp:452-470 | 1, 3, 5 or 9 octets |
| LpFragmenter.SlowPathSplits | daemon/face/lp-fragmenter.cpp:85-115 | a packet that does not fit as it is keeps more octets than its first fragment carries, so it gets at least two fragments |
| LpFragmenter.PieceFits | daemon/face/lp-fragmenter.cpp:42-58 | the reserved overhead covers Sequence, FragIndex, FragCount and the TLV framing of every fragment |
| LpFragmenter.Populate | daemon/face/lp-fragmenter.cpp:123-142 | the loop fills exactly fragCount fragments, whose payloads concatenate to the packet and which carry its headers in the first one only |
| LpFragmenter.FragmentPacket | daemon/face/lp-fragmenter.cpp:78-143 | fails exactly when the first fragment has no room or there are too many; otherwise a fragmentation of the packet within the MTU |
| LpReassemblerModel.MinusInverse | daemon/face/lp-reassembler.cpp:79-85 | the key computed from Sequence and FragIndex is the Sequence of the first fragment, also across the wrap |
| LpReassemblerModel.LpReassembler.constructor | daemon/face/lp-reassembler.cpp:38-42 | no partial packet |
| LpReassemblerModel.LpReassembler.DoReassembly | daemon/face/lp-reassembler.cpp:123-145 | the buffer is the concatenation of the payloads |
| LpReassemblerModel.LpReassembler.ReceiveFragment | daemon/face/lp-reassembler.cpp:44-121 | partial packets and delivery are those of the specification `Receive`, for well-formed and malformed fragments |
| LpReassemblerModel.LpReassembler.TimeoutPartialPacket | daemon/face/lp-reassembler.cpp:147-157 | drops the partial packet, if it is still there |
| ReassemblySafety.ReceiveIsSound | daemon/face/lp-reassembler.cpp:44-145 | for any fragment whatever: what is kept are incomplete messages with at least one fragment, all from one endpoint, with one FragCount and Sequences in step with their FragIndex; what is delivered is the packet itself or the payloads of all fragments of such a message, the last of which just came |
| ReassemblySafety.DroppedIff | daemon/face/lp-reassembler.cpp:44-121 | a fragment is dropped without effect if and only if FragIndex is not below FragCount, FragCount is over the limit, Sequence is missing, or FragCount or the slot is at odds with what came before |
| ReassemblySafety.RunIsSound | daemon/face/lp-reassembler.cpp:44-157 | in every run of any fragments from any endpoints and any timeouts only complete messages are delivered |
| RoundTrip.BlocksDisjoint | daemon/face/generic-link-service.cpp:268-282 | the blocks of Sequences claimed by messages of one sender do not overlap while at most 2^64 are claimed |
| RoundTrip.KeysDistinct | daemon/face/lp-reassembler.cpp:79-85 | two fragmented messages never share a reassembly key |
| RoundTrip.ReceiveOne | daemon/face/lp-reassembler.cpp:44-121 | a repeated fragment changes nothing, the last missing one delivers the message, any other is kept |
| RoundTrip.WiresAreOriginal | daemon/face/lp-fragmenter.cpp:78-143 | the payloads of all fragments are the bytes of the packet |
| RoundTrip.DeliversExactly | daemon/face/lp-reassembler.cpp:44-145 | for any interleaving of messages and endpoints, with any loss, reordering, repeats and timeouts, the reassembler delivers exactly what an ideal receiver that knows the messages delivers |
| RoundTrip.DeliveredWhenComplete | daemon/face/lp-reassembler.cpp:44-145 | a fragmented message is delivered with its original bytes when its last missing fragment arrives, and not before |
| LinkRoundTrip.ReceiveStripped | daemon/face/lp-reassembler.cpp:44-145 | reassembly does not depend on congestion marks, TxSequences and Acks |
| LinkRoundTrip.LinkDeliversExactly | daemon/face/lp-reassembler.cpp:44-145 | the same round trip when every transmission of a fragment carries its own mark, TxSequence and Acks |
| LinkRoundTrip.OnWireIsCarried | daemon/face/generic-link-service.cpp:189-245 | every packet on the wire of a sender is a transmission of a fragment of one of its messages |
| LinkRoundTrip.SendMessages | daemon/face/generic-link-service.cpp:189-245 | what the link service puts on the wire for a sequence of packets are the fragments, marked or not, of well-formed messages with consecutive blocks of Sequences; every other packet is counted as failed or over the MTU |
| GenericLinkServiceModel.MarkedFragmentFits | daemon/face/generic-link-service.cpp:189-245 | the room set aside covers a congestion mark on a numbered fragment |
| GenericLinkServiceModel.GenericLinkService.constructor | daemon/face/generic-link-service.cpp:51-64 | the Sequence counter starts at 2^64 - 2 |
| GenericLinkServiceModel.GenericLinkService.AssignSequences | daemon/face/generic-link-service.cpp:268-282 | one fetch_add claims the block; fragment i gets the old counter plus i, modulo 2^64 |
| GenericLinkServiceModel.GenericLinkService.CheckCongestionLevel | daemon/face/generic-link-service.cpp:284-327 | the packet is marked if and only if the readings so far say so: the queue is above the threshold, was so at an earlier reading with none at or below it since, and the time of that first reading plus base plus the intervals of the marks so far has come; negative readings do not count |
| GenericLinkServiceModel.GenericLinkService.SendLpPacket | daemon/face/generic-link-service.cpp:103-123 | sends the packet, marked or not, unless it is over the MTU, which is counted |
| GenericLinkServiceModel.GenericLinkService.SendNetPacket | daemon/face/generic-link-service.cpp:189-245 | with reliability off, on a face that fragments every fragment is sent within the MTU and none is dropped, each marked exactly when the readings so far say so; the error path is taken exactly when fragmentation fails; without fragmentation at most the packet itself is dropped |
| CongestionMarking.MarksAreSpaced | daemon/face/generic-link-service.cpp:284-327 | in every run the marks of an incident keep the schedule of shrinking intervals |
| CongestionMarking.MarksExactly | daemon/face/generic-link-service.cpp:284-327 | in every run a packet is marked if and only if it should be, from the readings alone |
| CongestionMarking.BeginningIs | daemon/face/generic-link-service.cpp:284-327 | an incident begins at the first reading above the threshold after which none is at or below it |
| CongestionMarking.IntervalShrinks | daemon/face/generic-link-service.cpp:312-318 | floor(base / sqrt(n)) shrinks as n grows |
| CongestionMarking.SpacingSquared | daemon/face/generic-link-service.cpp:312-318 | the sum of the first k - 1 intervals is at least of the order of base times sqrt(k) |
| CongestionMarking.MarkingRateBound | daemon/face/generic-link-service.cpp:284-327 | the control law of section 3.3 of RFC 8289: for the k-th mark, (elapsed - base + k - 1)^2 * k >= (k - 1)^2 * base^2 |
| StreamTransportModel.ElementStable | ndn-cxx/ndn-cxx/encoding/block.cpp:219-245 | bytes behind a complete element do not change it |
| StreamTransportModel.GreedyResumes | daemon/face/stream-transport.hpp:254-298 | a parse may stop anywhere and be taken up from its rest |
| StreamTransportModel.StuckForever | daemon/face/stream-transport.hpp:280-285 | a full buffer without an element at its front never yields another element |
| StreamTransportModel.RunIsGreedy | daemon/face/stream-transport.hpp:254-298 | however the stream is cut, elements delivered and bytes buffered are those of one greedy parse of all bytes, and the transport fails exactly when a full buffer has no element |
| StreamTransportModel.ChunkIndependence | daemon/face/stream-transport.hpp:254-298 | two ways of cutting the same bytes lead to the same state |
| StreamTransportModel.FailureIsFinal | daemon/face/stream-transport.hpp:280-285 | after a failure nothing that could have been delivered was missed |
| StreamTransportModel.StreamTransport.ParseElements | daemon/face/stream-transport.hpp:261-278 | delivers the greedy parse of the buffer and returns where its rest starts |
| StreamTransportModel.StreamTransport.MoveToFront | daemon/face/stream-transport.hpp:287-295 | moves the rest to the front of the same array |
| StreamTransportModel.StreamTransport.HandleReceive | daemon/face/stream-transport.hpp:254-298 | buffer, deliveries and state are those of the specification |
| StreamRoundTrip.VarNumberReadBack | ndn-cxx/ndn-cxx/encoding/tlv.hpp:390-409 | a number written in its 1, 3, 5 or 9 octets, most significant first, is read back with its size, whatever follows |
| StreamRoundTrip.ElementReadBack | ndn-cxx/ndn-cxx/encoding/block.cpp:219-245 | an element with a legal TLV-TYPE is recognized with exactly its size |
| StreamRoundTrip.GreedyKeepsBytes | daemon/face/stream-transport.hpp:254-298 | the elements of a parse and its rest are the bytes of the stream, in order |
| StreamRoundTrip.StreamReadBack | daemon/face/stream-transport.hpp:254-298 | a stream of legal elements is cut into exactly these elements |
| StreamRoundTrip.DeliversWhatWasSent | daemon/face/stream-transport.hpp:254-298 | however such a stream is cut into chunks, at any time exactly the elements that arrived whole have been delivered, the buffer holds the beginning of the next one, and the transport has not failed |
| BlockingQueue.StepKeepsInv | daemon/mw-nfd/lightweightsemaphore.h:252-411 | each atomic step keeps: items in the inner queue = available tokens + unsignalled items + tokens held, and the counter agrees with waiting threads and kernel tokens |
| BlockingQueue.RunKeepsInv | daemon/common/blockingconcurrentqueue.h:123-455 | the same invariant holds after every interleaving of any number of producers and consumers, single or bulk, with or without timeout |
| BlockingQueue.SpinnerFinds | daemon/common/blockingconcurrentqueue.h:358-367 | a consumer that spins after its wait always has as many items to find as it holds tokens |
| BlockingQueue.BulkReturnsTokens | daemon/common/blockingconcurrentqueue.h:446-455 | a call that acquired tokens, at least one and at most what it asked for, can dequeue another item exactly until it has one for each token, and returns just then |
| BlockingQueue.NoLostWakeup | daemon/mw-nfd/lightweightsemaphore.h:395-404 | while a thread waits and a token is available, a kernel token is there or about to be posted |
| BlockingQueue.BlockedMeansEmpty | daemon/common/blockingconcurrentqueue.h:293-335 | when all threads are outside or blocked, and one is blocked, the queue is empty and everything enqueued was dequeued |
| BlockingQueue.TimeoutEnds | daemon/mw-nfd/lightweightsemaphore.h:278-292 | a consumer whose wait timed out can correct the counter, or a token for it is there or about to be posted |
| BlockingQueue.AcquiresGreedily | daemon/mw-nfd/lightweightsemaphore.h:295-376 | acquiring many takes what was asked for, or all there are |
| BlockingQueue.Quiescent | daemon/common/blockingconcurrentqueue.h:293-335 | with no operation in progress the counter is the number of items, and items enqueued = items in the queue + items dequeued, as multisets |
| ProcessNack.Process | daemon/fw/process-nack-traits.cpp:34-83 | the one pass over the out-records decides as the documented rule says, with the least severe reason, for every order of the records |
| ProcessNack.DecisionUnique | daemon/fw/process-nack-traits.cpp:34-83 | the documented rule leaves no choice |
| ProcessNack.HasDecision | daemon/fw/process-nack-traits.hpp:36-43 | the documented rule always decides |
| NackExchange.StepKeepsInv | daemon/fw/forwarder.cpp:812-914 | every step of the two hosts keeps the joint invariant |
| NackExchange.NoncesMatch | daemon/fw/forwarder.cpp:844-851 | a Nack from the other host always carries the Nonce of the out-record, so it is never dropped |
| NackExchange.ReasonsAreUpstreams | daemon/fw/process-nack-traits.cpp:34-83 | in every run a Nack to the other host carries a reason that an upstream gave, and no other upstream gave a less severe one |
| NackExchange.StepsRunOut | daemon/fw/process-nack-traits.cpp:34-83 | every step leaves less to do, so every run ends |
| NackExchange.NoLiveDeadlock | daemon/fw/process-nack-traits.hpp:36-43 | when nothing more can happen, both hosts have Nacks from all upstreams and no waiting point-to-point downstream if and only if one of them received the last Nack of its other upstreams while the other host was its downstream; every point-to-point downstream was then answered and the others keep their in-records; otherwise both wait for each other |
| NackExchange.BothCanWait | daemon/fw/process-nack-traits.cpp:34-83 | a run in which each host gets the Nack of its one other upstream before the Interest of its peer, and both then wait for each other |
| PitRecords.HasPendingOutRecords | daemon/fw/algorithm.cpp:107-116 | some out-record is unexpired and without Nack |
| BestRoute.Strategy.GetLastOutgoing | daemon/fw/algorithm.cpp:118-129 | the latest renewal of all out-records |
| BestRoute.Strategy.DecidePerPitEntry | daemon/fw/retx-suppression-exponential.cpp:69-92 | new, suppressed or forwarded, and the interval after it |
| BestRoute.Strategy.FindFirst | daemon/fw/best-route-strategy2.cpp:78-84 | the first eligible nexthop, or there is none |
| BestRoute.Strategy.FindUnused | daemon/fw/best-route-strategy2.cpp:101-107 | the first eligible nexthop without an unexpired out-record, or there is none |
| BestRoute.Strategy.FindEarliest | daemon/fw/algorithm.cpp:131-151 | the first eligible nexthop whose out-record was renewed earliest, or none is eligible |
| BestRoute.Strategy.SendInterest | daemon/table/pit-entry.cpp:106-120 | renews the out-record of the face or puts a new one in front |
| BestRoute.Strategy.RecordNack | daemon/fw/forwarder.cpp:853-857 | sets the Nack in the out-record of the face, if there is one |
| BestRoute.Strategy.AfterReceiveInterest | daemon/fw/best-route-strategy2.cpp:64-124 | is a transition of the specification; the earliest-record search only runs when every eligible nexthop has an out-record |
| Rotation.TurnIsNext | daemon/fw/best-route-strategy2.cpp:78-123 | an Interest that is not suppressed goes to the eligible nexthop whose turn it is |
| Rotation.StepKeepsInv | daemon/fw/best-route-strategy2.cpp:64-124 | every Interest and Nack keeps the rotation invariant |
| Rotation.UpstreamsRotate | daemon/fw/best-route-strategy2.cpp:64-124 | the i-th transmission of a run goes to eligible nexthop i modulo their number, in list order |
| Rotation.RetransmissionsAreSpaced | daemon/fw/retx-suppression-exponential.cpp:69-92 | the k-th retransmission comes no sooner than the sum of min(max, initial * 2^j), j < k, after the first transmission |
| Rotation.SentIffLateEnough | daemon/fw/retx-suppression-exponential.cpp:69-92 | in every run an Interest is transmitted if and only if it is the first or comes at least min(max, initial * 2^k) after the last transmission, the k-th retransmission or the first one |
| Rotation.NothingSentWithoutNextHop | daemon/fw/best-route-strategy2.cpp:78-93 | without an eligible nexthop nothing is ever transmitted |
| Rotation.NackedWithoutNextHop | daemon/fw/best-route-strategy2.cpp:84-93 | instead every Interest of such a run is answered by a Nack to its downstream with reason NoRoute |
| StaleNacks.NacksStay | daemon/table/pit-out-record.hpp:41-72 | in every run an out-record holds a Nack exactly when one came since the first transmission to its face |
| StaleNacks.DocumentedIff | daemon/table/pit-out-record.hpp:41-45 | after a transmission the record tells what it is documented to tell if and only if it held no Nack before |
| StaleNacks.StaleNack | daemon/table/pit-out-record.hpp:63-72 | a run that fails: transmission, Nack, transmission, and the record still holds the Nack |
| StaleNacks.PendingAfterRenew | daemon/fw/algorithm.cpp:107-116 | after a transmission an out-record is pending if and only if one of another face is, or the new one is unexpired and its record held no Nack |
| StaleNacks.SuppressionAfterSend | daemon/fw/retx-suppression-exponential.cpp:69-92 | the next Interest is subject to suppression exactly then, and otherwise counts as new |
| StaleNacks.NeverSuppressedAgain | daemon/fw/best-route-strategy2.cpp:64-124 | once all out-records hold Nacks and the first eligible nexthop has one of them, every later Interest is transmitted to it, however soon |
| ForwarderModel.Forwarder.constructor | daemon/fw/forwarder.cpp:80-133 | the invariant holds with empty tables and counters at zero |
| ForwarderModel.Forwarder.Dispatch | daemon/fw/strategy.hpp:286-340 | what the strategy chose to do, in order |
| ForwarderModel.Forwarder.FindDuplicateNonce | daemon/fw/algorithm.cpp:77-105 | true exactly when a record has the Nonce, except a repeat by the same downstream of a point-to-point face |
| ForwarderModel.Forwarder.OnIncomingInterest | daemon/fw/forwarder.cpp:248-356 | keeps the invariant (one timer per entry, counters, scope) whatever an eligible strategy does; an Interest under /localhop from a non-local face is not sent on a non-local face; says by outcome (dropped, looped, answered from the Content Store, or recorded) which packets are sent, that a miss records the downstream with its Nonce and expiry unless it is Nacked at once, which out-records are new, and that no other entry changes |
| ForwarderModel.Forwarder.FindAllDataMatches | daemon/table/pit.cpp:98-113 | exactly the matching entries, each once |
| ForwarderModel.Forwarder.SendDataToAll | daemon/fw/strategy.cpp:276-297 | the Data to each pending downstream other than the one it came from |
| ForwarderModel.Forwarder.SatisfyMatches | daemon/fw/forwarder.cpp:592-625 | all matching entries satisfied and cleared; the downstreams returned are those they had before |
| ForwarderModel.Forwarder.OnIncomingData | daemon/fw/forwarder.cpp:513-637 | keeps the invariant for none, one or several matches; each matching entry becomes satisfied, gets a new timer, loses the out-record of the ingress and the in-records of the faces served (all of them with several matches), and no other entry changes; what is sent is that of the pipeline, to which the delivery result applies |
| ForwarderModel.Forwarder.OnIncomingNack | daemon/fw/forwarder.cpp:812-867 | keeps the invariant; the Nack is accepted if and only if it comes from a point-to-point face with an out-record with its Nonce, and otherwise nothing changes; accepted, just that record holds the reason, and the timer is replaced when no out-record is then pending |
| ForwarderModel.Forwarder.OnStrategyEvent | daemon/fw/forwarder.cpp:923-960 | a strategy that acts by itself on a pending entry keeps the invariant |
| ForwarderModel.Forwarder.OnTimer | daemon/fw/forwarder.cpp:962-972 | the entry of an expiry timer is still in the PIT; just it and just this timer go, it is finalized once and counted once, as satisfied or not |
| ForwardingSafety.SetTimerKeeps | daemon/fw/forwarder.cpp:962-972 | replacing the timer keeps one timer per entry, also for a new entry that had none |
| ForwardingSafety.FinalizeKeeps | daemon/fw/forwarder.cpp:487-511 | finalizing keeps the timers, serial numbers and counters consistent |
| ForwardingSafety.InterestKeeps | daemon/fw/forwarder.cpp:248-356 | the incoming Interest pipeline keeps the invariant; a new entry always gets its timer |
| ForwardingSafety.DataKeeps | daemon/fw/forwarder.cpp:513-637 | the incoming Data pipeline keeps the invariant, for every list of matching entries |
| ForwardingSafety.NackInKeeps | daemon/fw/forwarder.cpp:812-867 | the incoming Nack pipeline keeps the invariant, whatever the strategy does then |
| ForwardingSafety.StepKeepsInv | daemon/fw/forwarder.cpp:136-972 | every event keeps the invariant: one timer per entry, serial numbers and counters, local records under /localhost, packets within their scope |
| ForwardingSafety.OneTimerEach | daemon/fw/forwarder.cpp:962-972 | in every run each PIT entry has exactly one pending expiry timer and no timer refers to an entry that is gone |
| ForwardingSafety.EntriesAreConserved | daemon/fw/forwarder.cpp:487-511 | in every run entries created = nSatisfiedInterests + nUnsatisfiedInterests + live entries, and no entry is finalized twice or while live |
| ForwardingSafety.LocalhostIsRespected | daemon/fw/forwarder.cpp:271-279 | in every run entries under /localhost hold only local records, and no Interest, Data or Nack under /localhost is sent on a non-local face |
| ForwardingSafety.ArrivalsAre | daemon/fw/forwarder.cpp:248-356 | in every run the recorded origins are exactly the faces and names of the Interests that arrived |
| ForwardingSafety.InterestsAreAskedFor | daemon/fw/algorithm.cpp:31-51 | in every run an Interest is sent only on behalf of a face from which an Interest for that entry arrived, not back to it unless that face is ad hoc, and under /localhop leaves on a non-local face only on behalf of a local one |
| ForwardingSafety.DataIsAskedFor | daemon/fw/forwarder.cpp:513-637 | in every run Data is sent only on a face from which an Interest arrived that the Data matches |
| ForwardingSafety.NacksAreAskedFor | daemon/fw/forwarder.cpp:870-914 | in every run a Nack is sent only on a point-to-point face, for an Interest that arrived from it |
| ForwardingSafety.LocalhopStays | daemon/fw/algorithm.cpp:31-51 | processing an Interest under /localhop from a non-local face sends no Interest to a non-local face, even when local faces asked for the same name |
| DataDelivery.DataReachesDownstreamsOnce | daemon/fw/forwarder.cpp:556-637 | Data reaches every downstream waiting in some matching entry exactly once and no other face, whether one entry matches or several, unless the face is invalid or non-local for /localhost Data |
| PitRecords.UpsertRecords | daemon/table/pit-entry.cpp:67-120 | renewing or adding the record of a face changes no other; a Nack in it stays |
| PitRecords.DeleteRecords | daemon/table/pit-entry.cpp:83-91 | deleting the record of a face leaves every other |
| ForwardingEffects.ActionsRecords | daemon/fw/forwarder.cpp:458-914 | the records after a sequence of actions of the strategy: an in-record is gone exactly when a Nack went to its face, and an out-record is renewed by the last Interest transmitted on its face |
| ForwardingEffects.ActionsSend | daemon/fw/forwarder.cpp:458-914 | the packets sent are those the actions ask for: each Interest unless its HopLimit is used up on a non-local face, and a Nack to each downstream that waits |
| ForwardingEffects.InterestDoes | daemon/fw/forwarder.cpp:248-356 | what an incoming Interest does, by outcome, for every state and whatever the strategy does |
| ForwardingEffects.NackDoes | daemon/fw/forwarder.cpp:812-867 | which Nacks are accepted and what they do |
| ForwardingEffects.NackIsKept | daemon/fw/forwarder.cpp:853-857 | after an accepted Nack, and whatever the strategy does then, its out-record holds it and no other record gains or loses a Nack |
| ForwardingEffects.TransmissionCanBeNacked | daemon/fw/forwarder.cpp:844-851 | after an Interest was transmitted to a point-to-point face, a Nack with its Nonce from there is accepted |
| DataEffects.DataDoes | daemon/fw/forwarder.cpp:556-637 | what incoming Data does to the entries, for any number of matches |
| Fulfilment.RecordLasts | daemon/fw/forwarder.cpp:248-972 | an in-record stays as it is through every event, unless matching Data comes, a Nack goes to its face, its Interest comes again, or its entry expires |
| Fulfilment.DataIsReturned | daemon/fw/forwarder.cpp:248-637 | the promise to a downstream, over any stretch of a run: Data that answers its Interest and comes before that expires is sent to it, unless its record went meanwhile |
| Fulfilment.MarkedIsServed | daemon/fw/forwarder.cpp:487-511 | in every run an entry is marked satisfied if and only if it met matching Data or a Content Store hit |
| Fulfilment.SatisfiedMeansServed | daemon/fw/forwarder.cpp:487-511 | in every run nSatisfiedInterests is the number of finalized entries that did so while live |
| NetworkModel.MakeMask | core/network.cpp:132-137 | the loop sets exactly the first n bits |
| NetworkModel.Range | core/network.cpp:126-147 | smallest and largest address under the mask, byte by byte |
| NetworkModel.MakeNetwork | core/network.cpp:126-175 | fails exactly for a prefix longer than the address; otherwise the range of the network |
| NetworkModel.SamePrefixIsMasked | core/network.cpp:132-147 | equal under the mask means equal in the first n bits |
| NetworkModel.RangeIsMasked | core/network.hpp:41-45 | lexicographic comparison with both ends means equal under the mask |
| NetworkModel.CidrIsExact | core/network.hpp:41-45 | section 3.1 of RFC 4632: an address is in the network if and only if it is of the same family and its first n bits are those of the network |
| NetworkModel.NestedOrDisjoint | core/network.hpp:41-45 | of two networks of one family the longer prefix lies within the shorter when it extends it, and otherwise they are disjoint |
| NetworkModel.SingleAddress | core/network.cpp:93-102 | a network without a prefix length holds its one address only |

## Left out

- LpReliability: fragments and packets share objects by reference in the source; here a packet has an id in a map,
  and the RTT estimator and the durations of timers are left open (any timer may expire at any time).
- GenericLinkServiceModel.GenericLinkService.SendLpPacket: reliability is off, so no Acks are attached before the mark;
  `AckQueue` has that step, and `PiggybackSize` and `MarkedSize` say when its result fits.
- GenericLinkServiceModel.GenericLinkService.SendNetPacket: reliability is off; `LpReliability` has what it adds. Options
  do not change while the link is in use.
- RoundTrip.DeliversExactly: assumes that one sender claims at most 2^64 Sequences while its messages are in flight, and
  leaves out messages that fail to decode.
- CongestionMarking: the square root is exact; rounding of floating point in the source is not modelled.
- StreamTransport: sockets, error codes and the delivery of elements to the link service.
- BlockingQueue: the lock-free inner queue is a multiset whose operations are atomic; memory ordering and the spinning
  before a wait are left out, and a wait may time out at any time.
- NackExchange: the Interest of the other host arrives within the suppression interval, so it is recorded and not
  forwarded again; no Data returns and no PIT entry expires during the exchange. The upstreams are point-to-point, since
  Nacks from other faces are dropped; the downstreams may be of any kind.
- BestRoute: the HopLimit never runs out (sends succeed); the runs of `Rotation` have one downstream, a fixed nexthop
  list, a pending out-record and none expired.
- ForwarderModel.Forwarder.OnIncomingInterest: leaves out NextHopFaceId tags (their sends skip scope control by design),
  forwarding hints, decrementing the HopLimit, PIT tokens and the dual Content Store variants. The Dead Nonce List and the
  Content Store are parameters, the latter with Data that matches, and a strategy may do anything that its interface allows, but sends Interests only on
  behalf of a face they came from and to faces that pass the eligibility test.
- ForwarderModel.Forwarder.OnIncomingData: leaves out insertion into the Content Store, also of unsolicited Data, and
  implicit digests in names; strategies return Data as the base class does.
- ForwarderModel.Forwarder.OnTimer: durations of timers are left open, so any timer may expire at any time.
- Removal of faces from records.
- ForwarderModel.Forwarder.SendDataToAll: downstreams are served in the order of their records, not by address of the
  face object.
- Network: text of addresses, and IPv6 scope ids.
- Other strategies, the Content Store, the FIB and RIB, management, configuration, channels and face creation, and the
  distribution of packets over workers: not modelled.
