/** What the relayer can rely on in every state two chains reach: undelivered packets and acknowledgements are on hand,
    packets have one outcome, and cleanup keeps its books. */
module Deliveries {
  import opened Common
  import opened CleanupCycle
  import opened PacketStore
  import opened UndeliveredQueries
  import PacketSteps
  import opened TwoChains

  /** `listing` is an answer to "list the keys of this storage map": every key, in some order. */
  ghost predicate Enumerates<V>(listing: seq<nat>, stored: map<nat, V>) {
    forall s :: s in listing <==> s in stored
  }

  lemma CommittedOnHand(x: Endpoint, y: Endpoint, listing: seq<nat>)
    requires PacketSteps.SenderOk(x) && PacketSteps.ReceiverOk(y) && Enumerates(listing, x.store.commitments)
    ensures var undelivered := UndeliveredSequences(x.store, y.store, listing);
            && undelivered.Ok?
            && var infos := GetSendPacketInfo(x.store, undelivered.value);
               && |infos| == |undelivered.value|
               && forall i :: 0 <= i < |infos| ==>
                    var s := undelivered.value[i];
                    && s in x.store.commitments && infos[i].packet == x.store.commitments[s]
                    && infos[i].packet.sequence == s && s in x.log.sentAt && infos[i].height == x.log.sentAt[s]
  {
    AllSendInfo(x.store, UndeliveredSequences(x.store, y.store, listing).value);
  }

  /** Cleanup is invisible to the relayer, sending side: whatever happened before, each undelivered sequence still
      has its packet, which is the one the commitment stands for. */
  lemma UndeliveredPacketsOnHand(sc: Scenario, x: Endpoint, y: Endpoint, listing: seq<nat>)
    requires Reached(sc, x, y) && Enumerates(listing, x.store.commitments)
    ensures var undelivered := UndeliveredSequences(x.store, y.store, listing);
            && undelivered.Ok?
            && var infos := GetSendPacketInfo(x.store, undelivered.value);
               && |infos| == |undelivered.value|
               && forall i :: 0 <= i < |infos| ==>
                    var s := undelivered.value[i];
                    && s in x.store.commitments && infos[i].packet == x.store.commitments[s]
                    && infos[i].packet.sequence == s && s in x.log.sentAt && infos[i].height == x.log.sentAt[s]
  {
    hide FarClean, NearClean, PacketSteps.TidyEnd;
    var xb, yb := ReachedOk(sc, x, y);
    CommittedOnHand(x, y, listing);
  }

  /** For each of these sequences the answer has the packet that `x` committed to and the acknowledgement that `y` wrote
      when it received it. */
  ghost predicate AcksAnswered(x: Endpoint, y: Endpoint, undelivered: seq<nat>) {
    var infos := GetRecvPacketInfo(y.store, undelivered);
    && |infos| == |undelivered|
    && forall i :: 0 <= i < |infos| ==>
         var s := undelivered[i];
         && s in x.store.commitments && infos[i].packet == x.store.commitments[s] && infos[i].packet.sequence == s
         && s in y.store.acks && s in y.log.written && infos[i].ack == Some(y.store.acks[s]) == Some(y.log.written[s])
         && s in y.log.receivedAt && infos[i].height == y.log.receivedAt[s]
  }

  /** What `QueryUndeliveredAcks` reports for acknowledgements from `y` back to `x`. */
  ghost predicate UndeliveredAcks(x: Endpoint, y: Endpoint, undelivered: seq<nat>) {
    forall s :: s in undelivered <==> s in y.store.acks && s in x.store.commitments
  }

  lemma AcksOnHand(x: Endpoint, y: Endpoint, undelivered: seq<nat>)
    requires PacketSteps.SenderOk(x) && PacketSteps.StoredOk(x, y) && PacketSteps.AcksOk(y)
    requires UndeliveredAcks(x, y, undelivered)
    ensures AcksAnswered(x, y, undelivered)
  {
    AllRecvInfo(y.store, undelivered);
  }

  /** The acknowledging side: if no other channel there goes by this channel's name, each undelivered acknowledgement
      still has its received packet, which is the one the commitment stands for, and its bytes. */
  lemma UndeliveredAcksOnHand(sc: Scenario, x: Endpoint, y: Endpoint, undelivered: seq<nat>)
    requires Reached(sc, x, y) && sc.id in sc.topology.Far(sc.side) && FarClean(sc.topology, sc.side, sc.id)
    requires UndeliveredAcks(x, y, undelivered)
    ensures AcksAnswered(x, y, undelivered)
  {
    hide AcksAnswered, FarClean, NearClean, PacketSteps.AcksOk, PacketSteps.SenderOk, PacketSteps.StoredOk;
    hide PacketSteps.TidyEnd, UndeliveredAcks, Reached;
    var xb, yb := ReachedOk(sc, x, y);
    AcksOnHand(x, y, undelivered);
  }

  /** In every reachable state both pending lists cover what cleanup has looked at. */
  lemma CleanupCoverage(sc: Scenario, x: Endpoint, y: Endpoint)
    requires Reached(sc, x, y)
    ensures exists u :: Covered(SendHalf(x.store), u)
    ensures exists u :: Covered(RecvHalf(x.store), u)
  {
    hide PacketSteps.LinkOk, FarClean, NearClean, Inv;
    var xb, yb := ReachedOk(sc, x, y);
  }

  /** In every reachable state the watermark of the send half is the greatest sequence that was sent, is not stored any
      more and is not pending.  Where the key is clean, so is that of the receive half, for received packets, on an
      ordered channel; on an unordered one cleanup never removes a received packet, and its books stay empty. */
  lemma WatermarksExact(sc: Scenario, x: Endpoint, y: Endpoint)
    requires Reached(sc, x, y)
    ensures x.store.lastRemovedSend == MaxOr(x.log.sent.Keys - x.store.sendPackets.Keys - x.store.pendingSend, 0)
    ensures x.log.removedSend == x.log.sent.Keys - x.store.sendPackets.Keys
    ensures NearClean(sc.topology, sc.side, sc.id) && x.store.order.Ordered? ==>
              && x.store.lastRemovedAck == MaxOr(x.log.receivedAt.Keys - x.store.recvPackets.Keys - x.store.pendingRecv, 0)
              && x.log.removedRecv == x.log.receivedAt.Keys - x.store.recvPackets.Keys
    ensures NearClean(sc.topology, sc.side, sc.id) && x.store.order.Unordered? ==>
              x.store.lastRemovedAck == 0 && x.store.pendingRecv == {} && x.log.removedRecv == {}
  {
    hide FarClean, NearClean, PacketSteps.Delivery, PacketSteps.AcksOk, PacketSteps.SenderOk, PacketSteps.ReceiverOk;
    hide PacketSteps.TidyEnd;
    var xb, yb := ReachedOk(sc, x, y);
    SendWatermark(x, NearClean(sc.topology, sc.side, sc.id));
    if NearClean(sc.topology, sc.side, sc.id) { RecvWatermark(x); }
  }

  lemma SendWatermark(x: Endpoint, clean: bool)
    requires PacketSteps.SenderOk(x) && PacketSteps.TidyEnd(x, clean)
    ensures x.store.lastRemovedSend == MaxOr(x.log.sent.Keys - x.store.sendPackets.Keys - x.store.pendingSend, 0)
    ensures x.log.removedSend == x.log.sent.Keys - x.store.sendPackets.Keys
  {
    assert Between(0, x.store.nextSend.value) == x.log.sent.Keys;
  }

  lemma RecvWatermark(x: Endpoint)
    requires PacketSteps.ReceiverOk(x) && PacketSteps.TidyEnd(x, true)
    ensures x.store.order.Ordered? ==>
              && x.store.lastRemovedAck == MaxOr(x.log.receivedAt.Keys - x.store.recvPackets.Keys - x.store.pendingRecv, 0)
              && x.log.removedRecv == x.log.receivedAt.Keys - x.store.recvPackets.Keys
    ensures x.store.order.Unordered? ==>
              x.store.lastRemovedAck == 0 && x.store.pendingRecv == {} && x.log.removedRecv == {}
    ensures x.store.acks.Keys <= x.store.recvPackets.Keys
  {
    var u: nat :| Covered(RecvHalf(x.store), u) && Inv(PacketSteps.RecvTrack(x), u);
    assert x.store.order.Ordered? ==> Between(0, x.store.nextRecv.value) == x.log.receivedAt.Keys;
    if x.store.order.Unordered? {
      forall s | s in x.log.removedRecv + x.store.pendingRecv ensures s == 0 { }
      assert 0 !in x.log.removedRecv && 0 !in x.store.pendingRecv;
    }
  }

  /** `n` complete cleanup cycles in a row on one channel. */
  ghost function CleanTimes(c: Channel, n: nat): Channel
    decreases n
  {
    if n == 0 then c else CleanTimes(CleanupChannel(c, Completed), n - 1)
  }

  lemma {:induction false} CleanTimesIsCycles(c: Channel, n: nat)
    ensures SendHalf(CleanTimes(c, n)) == Cycles(SendHalf(c), n)
    decreases n
  {
    hide FullCycle, CleanupChannel;
    if n > 0 {
      CleanupIsHalfCycle(c, Completed);
      CleanTimesIsCycles(CleanupChannel(c, Completed), n - 1);
    }
  }

  /** Once every packet of a channel is settled, one cycle followed by `n` more empties its store of sent packets
      exactly when `n` thousands cover what the first one left, and then the watermark is at the last sequence sent. */
  lemma SettledChannelDrains(sc: Scenario, x: Endpoint, y: Endpoint, n: nat)
    requires Reached(sc, x, y) && x.store.commitments == map[]
    ensures var left := CleanupChannel(x.store, Completed).sendPackets.Keys;
            var last := CleanTimes(x.store, n + 1);
            && (last.sendPackets == map[] <==> |left| <= 1000 * n)
            && (last.sendPackets == map[] ==> last.nextSend.Some? && last.lastRemovedSend == last.nextSend.value - 1)
  {
    hide CleanupChannel, PacketSteps.Tidy, PacketSteps.ReceiverOk, PacketSteps.AcksOk, PacketSteps.Delivery, FarClean, NearClean;
    var xb, yb := ReachedOk(sc, x, y);
    TidyChannelDrains(x.store, x.log.removedSend, n);
  }

  lemma TidyChannelDrains(c: Channel, removed: set<nat>, n: nat)
    requires PacketSteps.Tidy(SendHalf(c), removed, true, true) && c.commitments == map[] && c.nextSend.Some?
    ensures var left := CleanupChannel(c, Completed).sendPackets.Keys;
            var last := CleanTimes(c, n + 1);
            && (last.sendPackets == map[] <==> |left| <= 1000 * n)
            && (last.sendPackets == map[] ==> last.nextSend.Some? && last.lastRemovedSend == last.nextSend.value - 1)
  {
    hide FullCycle, CleanupChannel, Cycles, Inv, CleanTimes;
    var u: nat :| Inv(Tracked(SendHalf(c), removed, true), u);
    DrainFrom(Tracked(SendHalf(c), removed, true), u, n);
    CleanTimesIsCycles(c, n + 1);
    CleanupIsHalfCycle(c, Completed);
    NextSendKept(c, n + 1);
    var last := CleanTimes(c, n + 1);
    assert last.sendPackets == map[] <==> last.sendPackets.Keys == {};
  }

  lemma {:induction false} NextSendKept(c: Channel, n: nat)
    ensures CleanTimes(c, n).nextSend == c.nextSend
    decreases n
  {
    hide CleanupChannel;
    if n > 0 {
      CleanupIsHalfCycle(c, Completed);
      NextSendKept(CleanupChannel(c, Completed), n - 1);
    }
  }

  /** A sent packet has exactly one outcome so far: in flight, acknowledged, or timed out.  Timed out means it was not
      received, in this and every later state; acknowledged means it was received, and with the acknowledgement written
      then, if no other channel of the receiving chain goes by the name of this one. */
  lemma OneOutcome(sc: Scenario, x: Endpoint, y: Endpoint, s: nat)
    requires Reached(sc, x, y) && s in x.log.sent
    ensures var inFlight, acked, timedOut := s in x.store.commitments, s in x.log.acked, s in x.log.timedOut;
            && (inFlight || acked || timedOut)
            && !(inFlight && acked) && !(inFlight && timedOut) && !(acked && timedOut)
            && (timedOut ==> s !in y.log.receivedAt)
            && sc.id in sc.topology.Far(sc.side)
            && (FarClean(sc.topology, sc.side, sc.id) && acked ==>
                  s in y.log.receivedAt && s in y.log.written && x.log.acked[s] == y.log.written[s])
  {
    hide FarClean, NearClean, PacketSteps.TidyEnd, PacketSteps.ReceiverOk, PacketSteps.AcksOk;
    var xb, yb := ReachedOk(sc, x, y);
  }

  /** The reported sequences are exactly the committed ones that have not been received. */
  ghost predicate Complete(reported: seq<nat>, x: Endpoint, y: Endpoint) {
    forall s :: s in reported <==> s in x.store.commitments && s !in y.log.receivedAt
  }

  lemma OrderedFilter(x: Endpoint, y: Endpoint, listing: seq<nat>)
    requires PacketSteps.SenderOk(x) && PacketSteps.ReceiverOk(y) && x.store.order == y.store.order == Ordered
    requires Enumerates(listing, x.store.commitments)
    ensures y.store.nextRecv.Some? && UndeliveredSequences(x.store, y.store, listing).Ok?
    ensures Complete(UndeliveredSequences(x.store, y.store, listing).value, x, y)
            <==> y.store.nextRecv.value !in x.store.commitments
  {
    var next := y.store.nextRecv.value;
    var reported := UndeliveredSequences(x.store, y.store, listing).value;
    assert next !in reported && next !in y.log.receivedAt;
  }

  /** On an ordered channel the undelivered query filters with a strict comparison, so it leaves out the very packet
      the sink waits for: it is complete if and only if that packet is not in flight. */
  lemma OrderedQueryCompleteIff(sc: Scenario, x: Endpoint, y: Endpoint, listing: seq<nat>)
    requires Reached(sc, x, y) && x.store.order.Ordered? && Enumerates(listing, x.store.commitments)
    ensures y.store.nextRecv.Some? && UndeliveredSequences(x.store, y.store, listing).Ok?
    ensures Complete(UndeliveredSequences(x.store, y.store, listing).value, x, y)
            <==> y.store.nextRecv.value !in x.store.commitments
  {
    hide FarClean, NearClean, PacketSteps.TidyEnd, PacketSteps.SenderOk, PacketSteps.ReceiverOk, Complete;
    var xb, yb := ReachedOk(sc, x, y);
    OrderedFilter(x, y, listing);
  }

  /** On an unordered channel it always is. */
  lemma UnorderedQueryComplete(sc: Scenario, x: Endpoint, y: Endpoint, listing: seq<nat>)
    requires Reached(sc, x, y) && x.store.order.Unordered? && Enumerates(listing, x.store.commitments)
    ensures UndeliveredSequences(x.store, y.store, listing).Ok?
    ensures Complete(UndeliveredSequences(x.store, y.store, listing).value, x, y)
  {
    var xb, yb := ReachedOk(sc, x, y);
  }

  /** One channel between A and B, with these identifiers. */
  function Single(a: ChannelId, b: ChannelId, order: Order): Topology {
    Wiring(map[a := b], map[b := a], map[a := order], {}, {})
  }

  /** So the query does miss packets: after one send on an ordered channel it reports nothing. */
  lemma OrderedQueryMissesFirst(a: ChannelId, b: ChannelId)
    ensures var w := Next(Start(Single(a, b, Ordered), 0, 0), Step(A, Send(a, [], 0, 0)));
            && a in w.a.ends && b in w.b.ends
            && var x, y := w.a.ends[a], w.b.ends[b];
               && Enumerates([1], x.store.commitments) && 1 !in y.log.receivedAt
               && UndeliveredSequences(x.store, y.store, [1]) == Ok([])
  {
    var start := Start(Single(a, b, Ordered), 0, 0);
    assert start.a.ends[a] == start.b.ends[b] == PacketSteps.Opened(Ordered);
    var w := Next(start, Step(A, Send(a, [], 0, 0)));
    assert w.a == LocalSend(start.a, a, [], 0, 0);
    var x, y := w.a.ends[a], w.b.ends[b];
    assert x.store.commitments.Keys == {1};
    var reported := UndeliveredSequences(x.store, y.store, [1]).value;
    assert forall s :: s in reported <==> s in [1] && s > 1;
    EmptyOrInhabited(reported);
  }

  // ----- Acknowledgements, when none is pruned -----

  ghost predicate NoPruning(steps: seq<Step>) { forall step :: step in steps ==> !step.op.PruneAck? }

  /** Every acknowledgement ever filed is still there. */
  ghost predicate Acknowledged(c: Chain) {
    forall id :: id in c.ends ==> c.ends[id].store.acks.Keys == c.ends[id].log.filed.Keys
  }

  lemma PutAcknowledged(c: Chain, id: ChannelId, e: Endpoint, counter: nat)
    requires Acknowledged(c) && e.store.acks.Keys == e.log.filed.Keys
    ensures Acknowledged(Put(c, id, e, counter))
  {
  }

  lemma MisfiledAcknowledged(x: Chain, id: ChannelId, sequence: nat, filed: Bytes)
    requires Acknowledged(x)
    ensures Acknowledged(Misfiled(x, id, sequence, filed))
  {
    if id in x.ends {
      assert x.ends[id].store.acks.Keys == x.ends[id].log.filed.Keys;
      var m := PacketSteps.Misfile(x.ends[id], sequence, filed);
      assert m.store.acks.Keys == m.log.filed.Keys;
      PutAcknowledged(x, id, m, x.counter);
    }
  }

  lemma RecvAcknowledged(x: Chain, y: Chain, id: ChannelId, p: Packet, filed: Bytes, ack: Bytes)
    requires Acknowledged(x) && Joined(x, y, id)
    ensures Acknowledged(LocalRecv(x, y, id, p, filed, ack))
  {
    var e := Received(x, y, id, p, filed, ack);
    assert x.ends[id].store.acks.Keys == x.ends[id].log.filed.Keys;
    assert e.store.acks.Keys == e.log.filed.Keys;
    hide Acknowledged, Received, Misfiled, CanRecv;
    MisfiledAcknowledged(x, x.far[id], p.sequence, filed);
    PutAcknowledged(Misfiled(x, x.far[id], p.sequence, filed), id, e, x.counter);
  }

  lemma CleanupAcknowledged(x: Chain, cuts: map<ChannelId, Cut>)
    requires Acknowledged(x)
    ensures Acknowledged(LocalCleanup(x, cuts))
  {
    hide CleanupChannel;
    forall id | id in x.ends
      ensures PacketSteps.Cleanup(x.ends[id], CutFor(cuts, id)).store.acks == x.ends[id].store.acks
    {
      CleanupIsHalfCycle(x.ends[id].store, CutFor(cuts, id));
    }
  }

  lemma SendAcknowledged(x: Chain, id: ChannelId, data: Bytes, th: nat, tt: nat)
    requires Acknowledged(x) && id in x.ends
    ensures Acknowledged(LocalSend(x, id, data, th, tt))
  {
    var e := PacketSteps.Send(x.ends[id], data, th, tt, |x.blocks| - 1);
    assert e.store.acks.Keys == e.log.filed.Keys;
    hide Acknowledged;
    PutAcknowledged(x, id, e, PacketSteps.CheckedAdd(x.counter));
  }

  lemma SettleAcknowledged(x: Chain, y: Chain, op: Op)
    requires Acknowledged(x) && (op.Ack? || op.Timeout?) && Joined(x, y, op.id)
    ensures Acknowledged(Local(x, y, op))
  {
    var e, f := x.ends[op.id], FarEnd(x, y, op.id);
    assert e.store.acks.Keys == e.log.filed.Keys;
    hide Acknowledged;
    if op.Ack? {
      PutAcknowledged(x, op.id, PacketSteps.Ack(e, f, op.packet, op.ack), PacketSteps.CheckedSub(x.counter));
    } else {
      PutAcknowledged(x, op.id, PacketSteps.Timeout(e, f, op.packet, op.proofHeight, y.blocks), PacketSteps.CheckedSub(x.counter));
    }
  }

  lemma LocalAcknowledged(x: Chain, y: Chain, op: Op)
    requires Acknowledged(x) && !op.PruneAck?
    ensures Acknowledged(Local(x, y, op))
  {
    hide LocalRecv, LocalCleanup, Misfiled, LocalSend, LocalAck, LocalTimeout;
    match op
    case Send(id, data, th, tt) => if id in x.ends { SendAcknowledged(x, id, data, th, tt); }
    case Ack(id, p, ack) => if Joined(x, y, id) { SettleAcknowledged(x, y, op); }
    case Timeout(id, p, h) => if Joined(x, y, id) { SettleAcknowledged(x, y, op); }
    case Recv(id, p, filed, ack) => if Joined(x, y, id) { RecvAcknowledged(x, y, id, p, filed, ack); }
    case ForeignRecv(name, sequence, filed) => MisfiledAcknowledged(x, name, sequence, filed);
    case Cleanup(cuts) => CleanupAcknowledged(x, cuts);
    case _ =>
  }

  lemma {:induction false} RunAcknowledged(w: World, steps: seq<Step>)
    requires Acknowledged(w.a) && Acknowledged(w.b)
    requires NoPruning(steps)
    ensures Acknowledged(TwoChains.Run(w, steps).a) && Acknowledged(TwoChains.Run(w, steps).b)
    decreases |steps|
  {
    hide Acknowledged, Local;
    if steps != [] {
      RunAcknowledged(w, steps[..|steps| - 1]);
      var before := TwoChains.Run(w, steps[..|steps| - 1]);
      var s := steps[|steps| - 1];
      if s.side.A? { LocalAcknowledged(before.a, before.b, s.op); } else { LocalAcknowledged(before.b, before.a, s.op); }
    }
  }

  /** In a run without pruning, every acknowledgement ever filed at either end of a channel is still there. */
  lemma ReachedAcknowledged(sc: Scenario, x: Endpoint, y: Endpoint)
    requires Reached(sc, x, y)
    requires NoPruning(sc.steps)
    ensures x.store.acks.Keys == x.log.filed.Keys && y.store.acks.Keys == y.log.filed.Keys
  {
    hide TwoChains.Run;
    RunAcknowledged(Start(sc.topology, sc.timeA, sc.timeB), sc.steps);
  }

  /** So as long as nothing prunes acknowledgements, cleanup removes no received packet under a clean key, ordered or
      not. */
  lemma NothingReceivedIsRemoved(sc: Scenario, x: Endpoint, y: Endpoint)
    requires Reached(sc, x, y) && NoPruning(sc.steps) && NearClean(sc.topology, sc.side, sc.id)
    ensures x.log.removedRecv == {} && x.store.lastRemovedAck == 0
  {
    hide Reached, FarClean, NearClean, PacketSteps.Delivery, PacketSteps.SenderOk, PacketSteps.ReceiverOk;
    hide PacketSteps.TidyEnd;
    var xb, yb := ReachedOk(sc, x, y);
    ReachedAcknowledged(sc, x, y);
    RecvWatermark(x);
    assert x.log.receivedAt.Keys - x.store.recvPackets.Keys == {};
    assert {} - x.store.pendingRecv == {};
  }

  /** Each sequence in flight is reported by exactly one of the two queries: undelivered packets from `x` to `y`, or
      undelivered acknowledgements back. */
  ghost predicate Partitioned(x: Endpoint, y: Endpoint, listing: seq<nat>, acks: seq<nat>) {
    && UndeliveredSequences(x.store, y.store, listing).Ok?
    && var undelivered := UndeliveredSequences(x.store, y.store, listing).value;
       forall s :: (s in x.store.commitments <==> s in undelivered || s in acks) && !(s in undelivered && s in acks)
  }

  /** They do, on an unordered channel whose acknowledgements are not pruned, if no other channel of the receiving chain
      goes by the name of this one. */
  lemma InFlightPartition(sc: Scenario, x: Endpoint, y: Endpoint, listing: seq<nat>, acks: seq<nat>)
    requires Reached(sc, x, y) && x.store.order.Unordered?
    requires sc.id in sc.topology.Far(sc.side) && FarClean(sc.topology, sc.side, sc.id)
    requires NoPruning(sc.steps)
    requires Enumerates(listing, x.store.commitments) && UndeliveredAcks(x, y, acks)
    ensures Partitioned(x, y, listing, acks)
  {
    hide Reached, FarClean, NearClean, PacketSteps.TidyEnd, PacketSteps.SenderOk, PacketSteps.ReceiverOk, PacketSteps.Delivery;
    UnorderedQueryComplete(sc, x, y, listing);
    ReachedAcknowledged(sc, x, y);
    var xb, yb := ReachedOk(sc, x, y);
  }
}
