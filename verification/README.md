# Packet bookkeeping in pallet-ibc and the hyperspace relayer

A Dafny model of the parts of composable-ibc that keep track of an unreliable, partly pruned history, with proofs about
all runs, all inputs and all schedules. `dafny verify dfyconfig.toml` checks everything.

**Packets and their cleanup.** `CleanupCycle` is one half of `packet_cleanup` as a state machine over the sequences of a
channel: a pending set, a watermark that can drop inside a cycle, a window of a thousand sequences, and cycles that abort
with only part of their writes persisted. `PacketStore` and `PacketCleanup` are the pallet's storage and the loops that
run over it. `PacketSteps` and `TwoChains` are two chains joined by any number of ordered and unordered channels, each
with an identifier of its own on either chain, and any number of channels to further chains; a run is any interleaving of
sends, receives with synchronous acknowledgements, acknowledgements, timeouts, new blocks, pruned acknowledgements,
complete or aborted cleanup cycles, and packets to and from the further chains, on either side. A step whose handler
refuses the message changes nothing. Proofs presented to a handler may be as old as one likes. `Handlers` says which
messages are accepted, `Deliveries` are the results about every state such a run reaches, and `ChannelNames` the exact
condition on the identifiers that three of them need. `UndeliveredQueries` are the relayer's queries on that state,
`PacketCounter` the pallet's counter.

**Proving packets.** `ProofHeight` is the search for a usable client height, `ClientUpdates` the choice of client updates
that makes it succeed, and `CosmosEvents` the provider that joins concurrently fetched blocks and headers.

**Caches, schedulers, codecs.** `HeaderHashCache`, `ConsensusHeights`, `SessionSync`, `MessageQueue`, and, over a model of
the Protocol Buffers wire format in `Protobuf`, `WasmClientState` and `TxWeight`.

Where the code does not do what its documentation says, the model follows the code, and a lemma states exactly when the
documented property holds:

- `query_undelivered_sequences` is documented to work for ordered channels; it leaves out the sequence the sink waits
  for (`OrderedQueryCompleteIff`, `OrderedQueryMissesFirst`).
- The proof height search is documented to return the first match; it can miss a match at the latest height
  (`FirstMatchIff`, `StopsShortIff`, `LatestCanBeMissed`), and with gaps it can miss others (`MissNeedsGap`,
  `MatchAtStartIff`, `GapsHideGoodHeights`).
- `is_synced` is commented to mean that no session change was missed; it also accepts one missed change
  (`SyncedMeansNoneMissedIff`, `MissedEndAccepted`).
- The hash set is meant to mirror the vector; a hash inserted twice can drop out of it (`MemberIff`, `RepetitionIsLost`).
- The receive callback files the acknowledgement under the packet's source channel on the receiving chain. Where that is
  the name of another channel there, that channel has an acknowledgement for a packet it never received
  (`AckedWasReceivedIff`, `AcksOnHandIff`, `PartitionIff`, `CrossedPairFails`, `ThirdChainFails`).
- Cleanup can stall (`ProgressIff`, `RunStallsIff`, `StalledRun`) and assumes synchronous acknowledgements
  (`LateAckKeepsPacketIff`). The number of removed packets it returns can be too high after an aborted cycle
  (`SweepCountIff`, `CountAfterSendAbortIff`, `CountAfterRecvAbortIff`).
- Nothing outside the tests deletes acknowledgements, so the receive half of cleanup removes nothing as things stand
  (`NothingReceivedIsRemoved`), and on unordered channels it would not even then (`WatermarksExact`).
- Batches can exceed the block maximum when messages weigh differently (`EveryOrderFitsIff`, `UnevenBatchTooHeavy`), and,
  on Cosmos chains, where a batch has a fixed part, even when they do not (`EvenFitsIff`, `EvenBodiesTooLong`).

## Model

| member | source | states |
|---|---|---|
| CleanupCycle.Coverage | contracts/pallet-ibc/src/impls.rs:531-580 | in every run, aborted cycles included, a frontier between the watermark and the next sequence exists such that every stored packet up to it is pending and nothing pending lies beyond it; live packets are never dropped |
| CleanupCycle.WatermarkIsGreatestRemoved | contracts/pallet-ibc/src/impls.rs:531-580 | in every run the persisted watermark is the greatest sequence removed and no longer pending, that is, removed by a completed cycle, although the working watermark may drop |
| CleanupCycle.ErrorFreeWatermark | contracts/pallet-ibc/src/impls.rs:534-580 | in runs without aborted cycles the watermark is the greatest sequence ever removed and nothing removed is pending |
| CleanupCycle.Drain | contracts/pallet-ibc/src/impls.rs:550-580 | with nothing live and no new packets, one cycle plus n more empty the store if and only if n thousands cover what the first left, and then the watermark is at the last sequence |
| CleanupCycle.ProgressIff | contracts/pallet-ibc/src/impls.rs:534-574 | in every run, aborted cycles included, a cycle removes something if and only if some packet that is no longer live lies within a thousand sequences above where its scan starts |
| CleanupCycle.ErrorFreeProgressIff | contracts/pallet-ibc/src/impls.rs:557-574 | in runs without aborted cycles, the same above the watermark |
| CleanupCycle.RunStallsIff | contracts/pallet-ibc/src/impls.rs:534-580 | in every run, aborted cycles included, no number of further cycles removes anything if and only if no packet that is no longer live lies within a thousand sequences above the greater of the watermark and the start of the next scan |
| CleanupCycle.ErrorFreeStallsIff | contracts/pallet-ibc/src/impls.rs:534-580 | in runs without aborted cycles, cleanup has stalled if and only if no packet that is no longer live lies within a thousand sequences above the watermark |
| CleanupCycle.StalledRun | contracts/pallet-ibc/src/impls.rs:557-574 | a run that stalls: of 1001 or more sent packets only the 1001st is settled |
| CleanupCycle.LateAckKeepsPacketIff | contracts/pallet-ibc/src/impls.rs:609-624 | a packet received in order whose acknowledgement is written after a cycle survives that cycle if and only if it lies more than a thousand sequences above the scan start |
| PacketStore.CleanupIsHalfCycle | contracts/pallet-ibc/src/impls.rs:531-635 | on the send half and on the receive half of a channel the storage changes exactly as in the abstract cycle, complete or aborted, and nothing else changes |
| PacketStore.CountIff | contracts/pallet-ibc/src/impls.rs:536-624 | on a channel a cycle counts at least the packets it drops, and exactly those if and only if everything it retries and finds settled is still stored |
| PacketStore.CountAfterSendAbortIff | contracts/pallet-ibc/src/impls.rs:536-624 | after a cycle aborted in the send half, the next one, wherever it stops, counts exactly if and only if the aborted one had nothing to release and, if it gets there, what it retries on the receive half is still stored |
| PacketStore.CountAfterRecvAbortIff | contracts/pallet-ibc/src/impls.rs:536-624 | after a cycle aborted in the receive half, the next one counts exactly if and only if it does not get there or the aborted one had nothing to release there |
| PacketCleanup.Retry | contracts/pallet-ibc/src/impls.rs:536-549 | the first loop, in ascending order, removes exactly the pending sequences that are not live, keeps the others pending, and ends with the greatest removed one as working watermark |
| PacketCleanup.Scan | contracts/pallet-ibc/src/impls.rs:557-575 | the second loop removes exactly the stored, not live sequences of the window, adds the live ones to the pending set, and returns the greatest removed one |
| PacketCleanup.CleanHalf | contracts/pallet-ibc/src/impls.rs:531-580 | both loops together are one abstract cycle with its count; a missing next sequence aborts after the first loop, before the pending set and the watermark are written |
| PacketCleanup.CleanChannel | contracts/pallet-ibc/src/impls.rs:525-636 | one channel: undecodable identifiers, a missing send or receive sequence, or success, each with the storage and the count it leaves |
| PacketCleanup.SweepAt | contracts/pallet-ibc/src/impls.rs:525-637 | channels before the failing one are cleaned completely, that one is left where the failure struck it, later ones are untouched |
| PacketCleanup.SweepCountIff | contracts/pallet-ibc/src/impls.rs:524-637 | the number returned is at least the number of packets dropped over all channels, and equal to it if and only if no channel the cycle got to retries a packet already dropped |
| PacketCleanup.Pallet.PacketCleanup | contracts/pallet-ibc/src/impls.rs:521-638 | the storage after a cycle, channel by channel in place and in any iteration order: it stops at the first channel that fails, succeeds exactly when none does, and returns the count that `SweepCountIff` relates to the packets dropped |
| PacketCleanup.Pallet.StoreSendResult | contracts/pallet-ibc/src/channel.rs:268-301 | the storage and the checked packet counter after a sent packet |
| PacketCleanup.Pallet.StoreRecvResult | ibc/modules/src/core/ics04_channel/handler.rs:235-261 | a received packet, ordered or unordered: refused without a trace if the callback files an empty acknowledgement or there is one already; otherwise that one is filed under the packet's source channel, and the one the callback returns, which may differ, under the receiving channel unless it is the same, with the packet and the receipt; an empty returned one fails the message after the filing |
| PacketCleanup.Pallet.DeletePacketCommitment | contracts/pallet-ibc/src/channel.rs:322-334 | the storage and the checked packet counter after a settled packet |
| UndeliveredQueries.SortDedup | hyperspace/primitives/src/lib.rs:680-681 | the sorted, duplicate-free list with the same members |
| UndeliveredQueries.QueryUndeliveredAcks | hyperspace/primitives/src/lib.rs:636-684 | exactly the acknowledged sequences the other side still has a commitment for, in increasing order |
| UndeliveredQueries.AllSendInfo | contracts/pallet-ibc/src/impls.rs:640-655 | if every sequence asked for is stored, the answer has its packet at its place |
| UndeliveredQueries.AllRecvInfo | contracts/pallet-ibc/src/impls.rs:657-680 | if every sequence asked for is stored with an acknowledgement, the answer has both at its place |
| UndeliveredQueries.FilterEach | hyperspace/primitives/src/lib.rs:613-629 | the filters of the queries go sequence by sequence and keep the order |
| UndeliveredQueries.SendInfoEach | contracts/pallet-ibc/src/impls.rs:640-655 | the answer goes sequence by sequence in the order asked and leaves out what is not stored |
| UndeliveredQueries.RecvInfoEach | contracts/pallet-ibc/src/impls.rs:657-680 | so does the one for received packets, where a missing acknowledgement is left empty |
| PacketSteps.TimeoutKeepsDelivery | ibc/modules/src/core/ics04_channel/handler/timeout.rs:67-146 | a packet timed out with a proof from any height has not been received and cannot be received any more |
| PacketSteps.RecvIsFill | ibc/modules/src/core/ics04_channel/context.rs:161-172 | on the channel a packet is received on, a receive fills the receive half of cleanup in order and advances its bound on ordered channels, and fills it anywhere without advancing it on unordered ones |
| PacketSteps.MisfileKeeps | ibc/modules/src/core/ics04_channel/handler/write_acknowledgement.rs:71-76 | an acknowledgement filed under another channel's key changes nothing that is guaranteed there except what is said about acknowledgements |
| PacketSteps.CleanupDropsGarbage | contracts/pallet-ibc/src/impls.rs:531-635 | a cycle, complete or aborted, keeps every packet that is committed to and every packet and raw acknowledgement that is acknowledged, changes none of those it keeps, and drops raw acknowledgements with their packets |
| TwoChains.LocalKeeps | ibc/modules/src/core/ics04_channel/context.rs:146-202 | every operation on one chain, receipts and sends on channels to further chains included, keeps the invariant of the pair of chains, whatever the channels are called on either side |
| Deliveries.UndeliveredPacketsOnHand | hyperspace/primitives/src/lib.rs:586-632 | in every reachable state each undelivered sequence still has its stored packet, which is the committed one, with the height it was sent at: cleanup is invisible |
| Deliveries.UndeliveredAcksOnHand | hyperspace/primitives/src/lib.rs:636-684 | in every reachable state each undelivered acknowledgement still has its received packet, which is the one the sender committed to, with the height it was received at and the acknowledgement written then, under the naming condition: no other channel of the acknowledging chain, to whichever chain it leads, is called over there what this one is called here |
| Deliveries.CleanupCoverage | contracts/pallet-ibc/src/impls.rs:521-638 | in every reachable state of two chains both halves of every channel have a coverage frontier |
| Deliveries.WatermarksExact | contracts/pallet-ibc/src/impls.rs:531-635 | in every reachable state the watermark of the send half is the greatest sequence sent, no longer stored and not pending; under the naming condition that of the receive half is so too on an ordered channel, for received packets, and is zero with nothing pending or removed on an unordered one |
| Deliveries.NothingReceivedIsRemoved | contracts/pallet-ibc/src/impls.rs:582-635 | under the naming condition cleanup removes no received packet in any run without pruned acknowledgements |
| Deliveries.SettledChannelDrains | contracts/pallet-ibc/src/impls.rs:531-580 | in every reachable state with no packet of a channel in flight, one cycle plus n more empty its sent packets if and only if n thousands cover the rest |
| Deliveries.OneOutcome | ibc/modules/src/core/ics04_channel/context.rs:184-199 | in every reachable state a sent packet is in flight, acknowledged or timed out, exactly one of them; timed out ones were not received, and acknowledged ones were, with the acknowledgement the receiver wrote, under the naming condition |
| Deliveries.OrderedQueryCompleteIff | hyperspace/primitives/src/lib.rs:622-629 | on an ordered channel the query reports exactly the committed, unreceived sequences if and only if the next sequence to receive is not in flight |
| Deliveries.OrderedQueryMissesFirst | hyperspace/primitives/src/lib.rs:622-629 | after one send on an ordered channel the query reports nothing |
| Deliveries.UnorderedQueryComplete | hyperspace/primitives/src/lib.rs:613-621 | on an unordered channel the query reports exactly the committed, unreceived sequences |
| Deliveries.InFlightPartition | hyperspace/primitives/src/lib.rs:603-683 | on an unordered channel without pruned acknowledgements, under the naming condition, each committed sequence is in exactly one of the undelivered packets and the undelivered acknowledgements |
| Handlers.SendAccepted | ibc/modules/src/core/ics04_channel/handler/send_packet.rs:44-122 | in every reachable state an open channel takes a packet under the sequence after all sent so far, commits to it and stores it with the height of the block, and changes nothing else |
| Handlers.RecvAcceptedIff | ibc/modules/src/core/ics04_channel/handler/recv_packet.rs:55-164 | in every reachable state a receive is accepted if and only if the channel is open, the packet was sent, has not been received or expired, comes in order on an ordered channel, and can be acknowledged; then exactly the packet with its height, its acknowledgement and its receipt are stored |
| Handlers.CleanKeyReceives | ibc/modules/src/core/ics04_channel/handler/write_acknowledgement.rs:56-66 | under the naming condition no acknowledgement is ever in the way of a packet not yet received |
| Handlers.AckAcceptedIff | ibc/modules/src/core/ics04_channel/handler/acknowledgement.rs:43-133 | in every reachable state an acknowledgement is accepted if and only if it was filed for a packet in flight and, on an ordered channel, all earlier packets were acknowledged; then the commitment goes and the next one is due |
| Handlers.NextAckExact | ibc/modules/src/core/ics04_channel/handler/acknowledgement.rs:102-124 | on an ordered channel the packets acknowledged are the first ones and the next acknowledgement sequence is one more than their number |
| Handlers.TimeoutAcceptedIff | ibc/modules/src/core/ics04_channel/handler/timeout.rs:43-150 | in every reachable state a timeout is accepted if and only if the packet is in flight, had expired at the height of the proof and had not been received by then; then the commitment goes and an ordered channel closes |
| Handlers.PruneRemoves | contracts/pallet-ibc/src/channel.rs:379-391 | a deleted acknowledgement is gone and nothing else is |
| ChannelNames.AckedWasReceivedIff | ibc/modules/src/core/ics04_channel/handler/write_acknowledgement.rs:56-76 | for every set of channels between the two chains and to further ones, acknowledged packets were received in all runs if and only if no other channel of the receiving chain, to whichever chain it leads, is called over there what this one is called on the receiving chain |
| ChannelNames.AcksOnHandIff | ibc/modules/src/core/ics04_channel/handler/write_acknowledgement.rs:56-76 | undelivered acknowledgements have their packets in all runs under exactly the same condition |
| ChannelNames.PartitionIff | ibc/modules/src/core/ics04_channel/handler/write_acknowledgement.rs:56-76 | on an unordered channel the two queries partition the sequences in flight in all runs without pruning under exactly the same condition |
| ChannelNames.FalseAckFails | ibc/modules/src/core/ics04_channel/handler/write_acknowledgement.rs:52-68 | after a misfiled acknowledgement the query reports a packet nobody can produce, both queries report it, it can be acknowledged without having been received, and it cannot be received any more |
| ChannelNames.CrossedPairFails | ibc/modules/src/core/ics04_channel/handler/chan_open_init.rs:60 | channel 0 of one chain being channel 1 of the other and the other way round gives such a run |
| ChannelNames.ThirdChainFails | ibc/modules/src/core/ics04_channel/handler/write_acknowledgement.rs:71-76 | so does a chain with a channel 0 to one chain and another channel to a third, which calls it channel 0 |
| ChannelNames.SameNamesCleanIff | ibc/modules/src/core/ics04_channel/handler/write_acknowledgement.rs:71-76 | where all channels between the two chains have the same name on both, a channel meets the condition if and only if no channel to a further chain has its name there |
| TwoChains.PalletCycleIsStep | contracts/pallet-ibc/src/impls.rs:521-638 | whatever the pallet's cycle leaves behind is what one cleanup step of the two-chain machine leaves behind |
| PacketCounter.SendCountsIff | contracts/pallet-ibc/src/channel.rs:268-280 | a send keeps the counter equal to the number of commitments if and only if the counter is below the 32-bit maximum, where it stays |
| PacketCounter.CounterExact | contracts/pallet-ibc/src/channel.rs:268-334 | in every run that never holds more commitments than the 32-bit maximum, both counters equal the number of commitments over all channels, those to further chains included |
| ProofHeight.FirstUsable | hyperspace/primitives/src/lib.rs:721-745 | the least usable height of the range, or nothing when there is none |
| ProofHeight.LinearSearch | hyperspace/primitives/src/lib.rs:721-745 | the linear search returns it |
| ProofHeight.BinarySearch | hyperspace/primitives/src/lib.rs:746-811 | the binary search with its last known match, on any history, ends and equals the recursive search |
| ProofHeight.FindSuitableProofHeight | hyperspace/primitives/src/lib.rs:705-814 | linear without a timestamp, binary with one |
| ProofHeight.FoundHeightQualifies | hyperspace/primitives/src/lib.rs:747-811 | with arbitrary gaps a height found is in range, late enough, and has update metadata at its proof height |
| ProofHeight.NarrowFindsFirst | hyperspace/primitives/src/lib.rs:747-811 | with arbitrary gaps and timestamps before the first match and beyond halfway from it to the latest height, the first match is found if all heights up to halfway qualify |
| ProofHeight.MissNeedsGap | hyperspace/primitives/src/lib.rs:768-786 | where usable heights after the first match qualify, it is missed only if there is a gap after it and no later than halfway to the latest height |
| ProofHeight.MatchAtStartIff | hyperspace/primitives/src/lib.rs:759-790 | where the start of the range matches, it is found if and only if no gap is at the start plus the width of the range divided by 2, 4, 8 and so on |
| ProofHeight.ClimbsOverGaps | hyperspace/primitives/src/lib.rs:759-790 | a match from the middle of the range upwards, behind nothing but gaps, is found or preceded by another |
| ProofHeight.OnlyMatch | hyperspace/primitives/src/lib.rs:759-811 | where a single height before the latest is usable, it is found if and only if it is not below the middle of the range |
| ProofHeight.GapsHideGoodHeights | hyperspace/primitives/src/lib.rs:768-769 | a history whose gaps hide both matches, so that nothing is found |
| ProofHeight.FirstMatchIff | hyperspace/primitives/src/lib.rs:747-811 | without gaps and with non-decreasing timestamps the result is the first match of the whole range if and only if it is not the case that only the latest height matches and halving a range of this width stops short of its end |
| ProofHeight.FoundIsFirst | hyperspace/primitives/src/lib.rs:747-811 | there, a height found is always the first match, and nothing found means nothing before the latest height matches |
| ProofHeight.StopsShortIff | hyperspace/primitives/src/lib.rs:759-790 | the widths that stop short are those whose number of heights starts with the binary digits 10 |
| ProofHeight.LatestCanBeMissed | hyperspace/primitives/src/lib.rs:759-811 | with two heights of which only the second matches nothing is found |
| ClientUpdates.FindMandatoryHeights | hyperspace/core/src/lib.rs:375-404 | exactly the heights of the last update that has a partner one proof distance earlier, and of that partner; none if no update has |
| ClientUpdates.ProcessUpdates | hyperspace/core/src/lib.rs:259-334 | fails if and only if some events do not translate; otherwise the messages of all updates, each after its client update, in order, except for optional updates without packet events and messages that are to be skipped and that nothing undelivered needs |
| ClientUpdates.SentInPlace | hyperspace/core/src/lib.rs:306-331 | a sent update goes out immediately before the messages of its events |
| ClientUpdates.MessagesAreOutgoing | hyperspace/core/src/lib.rs:306-331 | no message is lost because its update was skipped |
| ClientUpdates.UpdateSentIff | hyperspace/core/src/lib.rs:306-331 | a client update to a height goes out if and only if one is offered that is not to be skipped |
| ClientUpdates.ForcedPairSent | hyperspace/core/src/lib.rs:268-331 | with undelivered packets both updates of the last pair go out, optional or not |
| ClientUpdates.ForcedPairProvesPackets | hyperspace/core/src/lib.rs:268-404 | once they are applied, the linear search from any packet height up to the earlier of the two returns a height no later than it |
| CosmosEvents.JoinChunk | hyperspace/cosmos/src/provider.rs:150-170 | joining a chunk of tasks in any completion order adds exactly their results, or fails if and only if some task fails |
| CosmosEvents.SortByKey | hyperspace/cosmos/src/provider.rs:179 | the results in increasing order of height |
| CosmosEvents.SortedResultsInOrder | hyperspace/cosmos/src/client.rs:457 | complete results have only one sorted order, so scheduling does not matter |
| CosmosEvents.FetchSorted | hyperspace/cosmos/src/client.rs:406-458 | for every schedule the results are those of the whole range in increasing order, or failure if and only if some task fails |
| CosmosEvents.MsgUpdateClientHeader | hyperspace/cosmos/src/client.rs:398-459 | the headers after one height up to another, in order |
| CosmosEvents.QueryLatestIbcEvents | hyperspace/cosmos/src/provider.rs:135-207 | for every schedule the events of block h are paired with the header of block h + 1, in increasing order, over a window of at most five hundred; the five-hundredth update is mandatory |
| CosmosEvents.FullWindowAdvances | hyperspace/cosmos/src/provider.rs:182-205 | with five hundred blocks of backlog an accepted round moves the client by exactly five hundred |
| CosmosEvents.BacklogShrinks | hyperspace/cosmos/src/provider.rs:135-205 | whatever the events and settings, one accepted round per five hundred blocks brings the backlog below five hundred |
| HeaderHashCache.CacheMeaning | contracts/pallet-ibc/src/light_clients.rs:157-184 | for every history, repetitions included, the vector is its last five hundred hashes and the set holds a hash if and only if some insertion of it is not followed by an eviction of it |
| HeaderHashCache.MemberIff | contracts/pallet-ibc/src/light_clients.rs:157-188 | the set holds a hash if and only if its last insertion is in the vector and no earlier copy was evicted since |
| HeaderHashCache.MembersInVector | contracts/pallet-ibc/src/light_clients.rs:164-182 | the set is contained in the vector |
| HeaderHashCache.NoRepetitionsAgree | contracts/pallet-ibc/src/light_clients.rs:157-188 | without repetitions the set and the vector agree |
| HeaderHashCache.RepetitionIsLost | contracts/pallet-ibc/src/light_clients.rs:168-170 | a hash inserted again while cached leaves the set with its first copy although the vector holds the second |
| HeaderHashCache.RoomForNext | contracts/pallet-ibc/src/light_clients.rs:175-180 | after the eviction the set has room, so inserting into it never fails |
| HeaderHashCache.HeaderHashes.InsertRelayHeaderHashes | contracts/pallet-ibc/src/light_clients.rs:157-184 | the stored cache is that of the history extended by the new hashes |
| HeaderHashCache.HeaderHashes.ContainsRelayHeaderHash | contracts/pallet-ibc/src/light_clients.rs:186-188 | whether the hash survives in the history |
| Common.InsertSorted | contracts/pallet-ibc/src/client.rs:368-375 | an ordered set with one more member |
| ConsensusHeights.StoreKeepsIndex | contracts/pallet-ibc/src/client.rs:352-381 | for any insertion order the index has at most 256 heights, all with a stored state, the new one among them, and is complete until it is full |
| ConsensusHeights.StoreChanges | contracts/pallet-ibc/src/client.rs:361-380 | the state given is the state stored, for every kind of client, and a height leaves the index only as the least one of a full index |
| ConsensusHeights.StaysTopIff | contracts/pallet-ibc/src/client.rs:367-376 | the index stays the top of the stored heights if and only if no new height is inserted below the least one of a full index |
| ConsensusHeights.LookupsAgree | contracts/pallet-ibc/src/client.rs:105-131 | from the least cached height on, next and previous height agree with a lookup over every stored height |
| ConsensusHeights.CachedHasState | contracts/pallet-ibc/src/client.rs:105-131 | a height the lookup finds always has a state, which is returned |
| ConsensusHeights.LookupsFindLast | contracts/pallet-ibc/src/client.rs:105-131 | for any history the states looked up are those stored last at the heights found |
| ConsensusHeights.InOrderStaysTop | contracts/pallet-ibc/src/client.rs:352-381 | for heights stored in non-decreasing order the index holds the greatest stored heights |
| ConsensusHeights.InOrderLookupsAgree | contracts/pallet-ibc/src/client.rs:105-131 | and the lookups agree with the full map |
| ConsensusHeights.ClientStore.StoreState | contracts/pallet-ibc/src/client.rs:352-381 | the states and the index after storing, for indexed clients and for Grandpa and Beefy ones |
| SessionSync.QueryMissedGrandpaUpdates | hyperspace/parachain/src/light_client_sync.rs:194-237 | the catch-up messages from the client's height on |
| SessionSync.OneMessagePerEnd | hyperspace/parachain/src/light_client_sync.rs:194-237 | as many messages as session ends after the client up to the latest block, within the limit |
| SessionSync.MessagesEndAtSessions | hyperspace/parachain/src/light_client_sync.rs:210-235 | each message reaches from one block to the first session end after it |
| SessionSync.MessagesTile | hyperspace/parachain/src/light_client_sync.rs:228-283 | relay ranges and parachain ranges of the messages are each consecutive |
| SessionSync.ChainedTiles | hyperspace/parachain/src/light_client_sync.rs:263-283 | every block of consecutive ranges is in exactly one of them |
| SessionSync.SyncedIff | hyperspace/parachain/src/light_client_sync.rs:88-98 | the check accepts a client if and only if the latest block is less than a session after the client's session end |
| SessionSync.SyncedMeansNoneMissedIff | hyperspace/parachain/src/light_client_sync.rs:94-98 | the check means that no session end was missed if and only if the client has not missed exactly its first one |
| SessionSync.MissedEndAccepted | hyperspace/parachain/src/light_client_sync.rs:94-98 | a client that missed a session end is accepted |
| SessionSync.UnsyncedGetsMessage | hyperspace/parachain/src/light_client_sync.rs:84-237 | a client that is not accepted gets at least one message |
| SessionSync.ShortRoundSyncs | hyperspace/parachain/src/light_client_sync.rs:194-237 | after a round below the limit the client is accepted |
| SessionSync.CatchupReachesSync | hyperspace/parachain/src/light_client_sync.rs:84-237 | for a fixed finalized block repeated rounds reach acceptance, in no more rounds than session ends left |
| MessageQueue.FlushMessageBatch | hyperspace/core/src/queue.rs:20-61 | the accepted batches are a prefix of the plan, all of it on success; on failure the next batch is the one that was refused |
| MessageQueue.BatchesAreMessages | hyperspace/core/src/queue.rs:52-57 | the planned batches concatenate to the messages, the accepted ones to a prefix |
| MessageQueue.FewBatches | hyperspace/core/src/queue.rs:40-53 | splitting makes at most twice the intended number of chunks less one |
| MessageQueue.SplitsEvenly | hyperspace/core/src/queue.rs:33-53 | messages that exceed the block once make two batches and those that exceed it r times make r + 2, equally long where that divides their number |
| MessageQueue.EveryOrderFitsIff | hyperspace/core/src/queue.rs:25-57 | where a batch weighs a fixed amount and what its messages weigh, all batches are within the block maximum for every order of the messages if and only if they make one batch or the heaviest of them, as many as go into one batch, make one within it |
| MessageQueue.HeaviestBound | hyperspace/core/src/queue.rs:33-57 | it is enough that the fixed amount and the number of messages in a batch times the heaviest weight are within it |
| MessageQueue.EvenFitsIff | hyperspace/core/src/queue.rs:33-57 | for equally heavy messages that is exact |
| MessageQueue.BatchesFit | hyperspace/core/src/queue.rs:33-57 | without a fixed amount, as on a parachain, equally heavy messages that fit a block one by one always make batches within it |
| MessageQueue.UnevenBatchTooHeavy | hyperspace/core/src/queue.rs:33-57 | four messages, each within the block maximum, of which two make a batch beyond it |
| Protobuf.AnyRoundTrip | contracts/pallet-ibc/src/light_clients.rs:252-255 | decoding an encoded Any gives it back |
| Protobuf.PayloadsShrink | contracts/pallet-ibc/src/light_clients.rs:254-255 | no payload decoded from arbitrary bytes is as long as the bytes |
| Protobuf.VarintBytes | contracts/pallet-ibc/src/light_clients.rs:254-255 | each byte of a varint holds seven bits, least significant first, and says whether more follow |
| Protobuf.UnknownIgnored | contracts/pallet-ibc/src/light_clients.rs:254-255 | records with a tag an Any does not have are ignored, whatever their kind |
| Protobuf.LastRecordCounts | contracts/pallet-ibc/src/light_clients.rs:254-255 | of several records with the same tag the last one counts |
| WasmClientState.DecodeRecursive | contracts/pallet-ibc/src/light_clients.rs:245-263 | on arbitrary bytes decoding layer by layer ends and gives what decoding everything and unwrapping gives |
| WasmClientState.InsideShrinks | contracts/pallet-ibc/src/light_clients.rs:249-262 | each layer carries strictly fewer bytes than the one around it |
| WasmClientState.WasmRoundTrip | light-clients/ics08-wasm/src/client_state.rs:155-193 | decoding an encoded Wasm client state gives its data, checksum and height back |
| WasmClientState.NestRoundTrip | contracts/pallet-ibc/src/light_clients.rs:265-284 | a state wrapped any number of times decodes to itself and unwraps to the state inside |
| WasmClientState.NestLayers | contracts/pallet-ibc/src/light_clients.rs:272-284 | a wrapped state keeps its latest height at every depth, and each layer has its checksum and the encoding of the layer inside |
| WasmClientState.DecodesOnlyKnown | contracts/pallet-ibc/src/light_clients.rs:249-255 | what is decoded has a known type and, layer by layer, a payload of that type |
| WasmClientState.UnwrapsAnyDepth | contracts/pallet-ibc/src/light_clients.rs:245-284 | for every nesting depth unwrapping the encoding returns the state if the predicate accepts it and nothing otherwise |
| TxWeight.EncodedLen | hyperspace/cosmos/src/chain.rs:83 | the length of an encoded message, without encoding it |
| TxWeight.EstimateWeight | hyperspace/cosmos/src/chain.rs:63-91 | the incremental estimate is exactly the length of the encoded transaction body, for every list of messages |
| TxWeight.BodyLength | hyperspace/cosmos/src/chain.rs:69-90 | a transaction body is five bytes longer than what its messages add to it |
| TxWeight.EveryOrderOfBodiesFitsIff | hyperspace/cosmos/src/chain.rs:59-91 | so on a Cosmos chain all transaction bodies are within the maximum size for every order of the messages if and only if they make one batch or the longest of them, as many as go into one batch, make a body within it |
| TxWeight.EvenBodiesTooLong | hyperspace/cosmos/src/chain.rs:59-91 | ten equally long messages, each within the maximum size, of which five make a body beyond it |
| TxWeight.TxBodyRoundTrip | hyperspace/cosmos/src/encode.rs:62-74 | the encoded body decodes to the messages in order and the memo |

## Left out

- RPC, gRPC and websocket clients, key handling, signing, configuration, logging and metrics: input and output only; their answers are parameters of the model.
- Light client verification, provers, connection and channel handshakes, `timeout_on_close` and the fee and transfer modules: a successful proof is a guard of a step.
- Channel handshakes inside a run: all channels are there from the start. One that opens later is one that was idle until then.
- Acknowledgements filed under a source channel that the receiving chain does not have: no query and no cleanup reads them.
- What packets on channels to further chains do to those channels: only what they share with the others is there, the keys that acknowledgements are misfiled under and the packet counter.
- Callbacks that file an acknowledgement and then fail: those in the repository do not, so in the two-chain machine a refused receive leaves nothing behind.
- MissNeedsGap: goes one way only where the search starts before the first match; which gaps hide it then depends on every probe made before it, and the exact positions are given for a match at the start of the range (`MatchAtStartIff`).
- Pallet.StoreSendResult: the conditions of the send handler on the client (frozen, timeout already passed) are not modelled, so more packets can be sent than in the code.
- SendAccepted: for the same reason, it speaks of the channel only.
- Asynchronous acknowledgements in the two-chain machine: the receive step writes the acknowledgement; `LateAckKeepsPacketIff` says what a cycle does to a later one.
- Revision numbers of heights outside `ConsensusHeights` and `WasmClientState`: one revision per chain.
- 64-bit and 32-bit wrap-around of sequences, heights and block numbers: numbers are unbounded, except for the packet counter.
- Storage write-back inside one channel of a cleanup cycle: the two loops over a channel work on local copies, which are written back when that channel is done or has failed; nothing reads the storage in between.
- Key encodings, hashes of commitments: keys are numbers and commitments do not collide.
- Timers, sleeps, retries and the choice of concurrency limits: they do not change results, only completion order, which is arbitrary in the model.
- `query_ready_and_timed_out_packets`, event conversion and the chain macros: wide, without an invariant of their own.
- `RecentStream`: its cell has two transitions, and what it delivers can be read off them.
- Protobuf: group records, the ten-byte limit of varints and the check that strings are UTF-8 are not modelled.
- The bounded ordered set accepts a member it already has even when it is full, as in current versions of the Substrate library, which is not part of the repository.
