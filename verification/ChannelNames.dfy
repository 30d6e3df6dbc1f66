/** Channels whose names cross: the receive callback files the acknowledgement under the name the channel has where the
    packet comes from.  Exactly when another channel of the receiving chain has that name, the results about
    acknowledgements fail; it does not matter which chain that packet comes from. */
module ChannelNames {
  import opened PacketStore
  import opened UndeliveredQueries
  import PacketSteps
  import opened TwoChains
  import opened Deliveries

  /** The packet every channel sends first in the runs below. */
  const FIRST: Packet := Packet(1, [], 0, 0)

  /** The near chain sends on this channel and on `twin`; the far chain receives only what was sent on `twin`, under the
      identifier `twinFar`. */
  function CrossedSteps(side: Side, id: ChannelId, twin: ChannelId, twinFar: ChannelId): seq<Step> {
    [Step(side, Send(id, [], 0, 0)), Step(side, Send(twin, [], 0, 0)), Step(Other(side), Recv(twinFar, FIRST, [1], [1]))]
  }

  /** The near chain sends on this channel; the far chain, where it is called `name`, receives a packet from a further
      chain on a channel that goes by the same name there. */
  function ForeignSteps(side: Side, id: ChannelId, name: ChannelId): seq<Step> {
    [Step(side, Send(id, [], 0, 0)), Step(Other(side), ForeignRecv(name, 1, [1]))]
  }

  lemma RunTwo(w: World, s1: Step, s2: Step)
    ensures Run(w, [s1, s2]) == Next(Next(w, s1), s2)
  {
    hide Next;
    assert [s1, s2][..1] == [s1] && [s1][..0] == [];
    assert Run(w, [s1]) == Next(w, s1);
  }

  lemma RunThree(w: World, s1: Step, s2: Step, s3: Step)
    ensures Run(w, [s1, s2, s3]) == Next(Next(Next(w, s1), s2), s3)
  {
    hide Next;
    assert [s1, s2, s3][..2] == [s1, s2];
    RunTwo(w, s1, s2);
  }

  /** A first send on a fresh channel. */
  lemma FirstSend(c: Chain, peer: Chain, id: ChannelId, order: Order)
    requires id in c.ends && c.ends[id] == PacketSteps.Opened(order)
    ensures var c' := Local(c, peer, Send(id, [], 0, 0));
            && c' == Put(c, id, c'.ends[id], c'.counter)
            && c'.ends[id] == PacketSteps.Send(PacketSteps.Opened(order), [], 0, 0, |c.blocks| - 1)
  {
  }

  lemma FirstRecv(c: Chain, peer: Chain, id: ChannelId, order: Order, height: nat)
    requires Joined(c, peer, id) && c.ends[id] == PacketSteps.Opened(order)
    requires exists o :: FarEnd(c, peer, id) == PacketSteps.Send(PacketSteps.Opened(o), [], 0, 0, height)
    requires c.far[id] in c.ends && c.far[id] != id
    ensures var c' := Local(c, peer, Recv(id, FIRST, [1], [1]));
            && c'.far == c.far && c.far[id] in c'.ends
            && c'.ends[c.far[id]] == PacketSteps.Misfile(c.ends[c.far[id]], 1, [1])
  {
    var o :| FarEnd(c, peer, id) == PacketSteps.Send(PacketSteps.Opened(o), [], 0, 0, height);
    assert CanRecv(c, peer, id, FIRST, [1], [1]);
  }

  /** What the two ends of the channel look like after these steps: the near end has sent its first packet, the far end
      has an acknowledgement for it but has received nothing. */
  ghost predicate FalselyAcked(x: Endpoint, y: Endpoint, order: Order) {
    && (exists height :: x == PacketSteps.Send(PacketSteps.Opened(order), [], 0, 0, height))
    && (exists o :: y == PacketSteps.Misfile(PacketSteps.Opened(o), 1, [1]))
  }

  function OrderOf(t: Topology, side: Side, id: ChannelId): Order
    requires id in t.Far(side)
  {
    if side.A? then t.orders[id] else t.orders[t.toA[id]]
  }

  lemma CrossedEnds(t: Topology, timeA: nat, timeB: nat, side: Side, id: ChannelId, twinFar: ChannelId)
    requires id in t.Far(side) && twinFar in t.Far(Other(side)) && twinFar != t.Far(side)[id]
    requires t.Far(Other(side))[twinFar] == t.Far(side)[id]
    ensures var steps := CrossedSteps(side, id, t.Far(side)[id], twinFar);
            exists x, y ::
              Reached(Scenario(t, timeA, timeB, steps, side, id), x, y) && FalselyAcked(x, y, OrderOf(t, side, id))
  {
    hide Local, PacketSteps.Send, PacketSteps.Misfile, PacketSteps.Opened;
    var far, twin := t.Far(side)[id], t.Far(side)[id];
    var w := Start(t, timeA, timeB);
    var s1, s2 := Step(side, Send(id, [], 0, 0)), Step(side, Send(twin, [], 0, 0));
    var s3 := Step(Other(side), Recv(twinFar, FIRST, [1], [1]));
    var c, peer := Here(w, side), There(w, side);
    assert twin in c.ends && c.far[twin] == twinFar && twin != id;
    var o1 := OrderOf(t, side, id);
    assert c.ends[id] == PacketSteps.Opened(o1);
    var o2 :| c.ends[twin] == PacketSteps.Opened(o2);
    var o3 :| peer.ends[twinFar] == PacketSteps.Opened(o3);
    var o4 :| peer.ends[far] == PacketSteps.Opened(o4);
    FirstSend(c, peer, id, o1);
    var c1 := Local(c, peer, s1.op);
    FirstSend(c1, peer, twin, o2);
    var c2 := Local(c1, peer, s2.op);
    FirstRecv(peer, c2, twinFar, o3, |c1.blocks| - 1);
    RunThree(w, s1, s2, s3);
    var x, y := c2.ends[id], Local(peer, c2, s3.op).ends[far];
    assert Reached(Scenario(t, timeA, timeB, [s1, s2, s3], side, id), x, y);
    assert FalselyAcked(x, y, o1);
  }

  lemma ForeignEnds(t: Topology, timeA: nat, timeB: nat, side: Side, id: ChannelId)
    requires id in t.Far(side) && t.Far(side)[id] in t.Foreign(Other(side))
    ensures var steps := ForeignSteps(side, id, t.Far(side)[id]);
            exists x, y ::
              Reached(Scenario(t, timeA, timeB, steps, side, id), x, y) && FalselyAcked(x, y, OrderOf(t, side, id))
  {
    hide PacketSteps.Send, PacketSteps.Misfile, PacketSteps.Opened;
    var name, w := t.Far(side)[id], Start(t, timeA, timeB);
    var s1, s2 := Step(side, Send(id, [], 0, 0)), Step(Other(side), ForeignRecv(name, 1, [1]));
    var c, peer := Here(w, side), There(w, side);
    var o1 := OrderOf(t, side, id);
    assert c.ends[id] == PacketSteps.Opened(o1);
    var o2 :| peer.ends[name] == PacketSteps.Opened(o2);
    FirstSend(c, peer, id, o1);
    var c1 := Local(c, peer, s1.op);
    assert Local(peer, c1, s2.op) == Misfiled(peer, name, 1, [1]);
    hide Local;
    RunTwo(w, s1, s2);
    var x, y := c1.ends[id], Misfiled(peer, name, 1, [1]).ends[name];
    assert Reached(Scenario(t, timeA, timeB, [s1, s2], side, id), x, y);
    assert FalselyAcked(x, y, o1);
  }

  /** In such a state the acknowledgement query reports the packet, but there is no packet to go with it; both queries
      report it; the near chain can have it acknowledged; and the far chain refuses to receive it. */
  lemma FalseAckFails(x: Endpoint, y: Endpoint, order: Order)
    requires FalselyAcked(x, y, order)
    ensures x.store.order == order && Enumerates([1], x.store.commitments) && UndeliveredAcks(x, y, [1])
    ensures !AcksAnswered(x, y, [1])
    ensures order.Unordered? ==> !Partitioned(x, y, [1], [1])
    ensures PacketSteps.CanAck(x, y, FIRST, [1]) && 1 !in y.log.receivedAt
    ensures forall peer, p: Packet, ack, height, timestamp ::
              p.sequence == 1 ==> !PacketSteps.CanRecv(y, peer, p, ack, height, timestamp)
  {
    assert x.store.commitments.Keys == {1};
    assert y.store.acks.Keys == {1} && y.store.recvPackets == map[] && y.store.receipts == {};
    assert GetRecvPacketInfo(y.store, [1][1..]) == [];
    assert GetRecvPacketInfo(y.store, [1]) == [];
    if order.Unordered? {
      assert 1 in UnreceivedPackets(y.store, [1]);
    }
  }

  lemma AckLocally(c: Chain, peer: Chain, id: ChannelId)
    requires Joined(c, peer, id) && PacketSteps.CanAck(c.ends[id], FarEnd(c, peer, id), FIRST, [1])
    ensures var c' := Local(c, peer, Ack(id, FIRST, [1]));
            && Joined(c', peer, id) && FarEnd(c', peer, id) == FarEnd(c, peer, id)
            && c'.ends[id] == PacketSteps.Ack(c.ends[id], FarEnd(c, peer, id), FIRST, [1])
  {
    hide PacketSteps.CanAck, PacketSteps.Ack;
  }

  /** From such a state the near chain can take the acknowledgement. */
  lemma ReachedAck(t: Topology, timeA: nat, timeB: nat, steps: seq<Step>, side: Side, id: ChannelId,
                   x: Endpoint, y: Endpoint, more: seq<Step>)
    requires Reached(Scenario(t, timeA, timeB, steps, side, id), x, y) && PacketSteps.CanAck(x, y, FIRST, [1])
    requires more == steps + [Step(side, Ack(id, FIRST, [1]))]
    ensures Reached(Scenario(t, timeA, timeB, more, side, id), PacketSteps.Ack(x, y, FIRST, [1]), y)
  {
    hide PacketSteps.CanAck, PacketSteps.Ack, Local, Start;
    assert more[..|more| - 1] == steps;
    var w := Reach(t, timeA, timeB, steps);
    AckLocally(Here(w, side), There(w, side), id);
    assert Reach(t, timeA, timeB, more) == Next(w, Step(side, Ack(id, FIRST, [1])));
  }

  /** The run that breaks the three results below, for every channel whose key is not clean. */
  lemma CrossedRun(t: Topology, timeA: nat, timeB: nat, side: Side, id: ChannelId)
    returns (steps: seq<Step>, x: Endpoint, y: Endpoint)
    requires id in t.Far(side) && !FarClean(t, side, id)
    ensures Reached(Scenario(t, timeA, timeB, steps, side, id), x, y) && FalselyAcked(x, y, OrderOf(t, side, id))
    ensures NoPruning(steps)
  {
    var name, back := t.Far(side)[id], t.Far(Other(side));
    if name in t.Foreign(Other(side)) {
      ForeignEnds(t, timeA, timeB, side, id);
      steps := ForeignSteps(side, id, name);
      x, y :| Reached(Scenario(t, timeA, timeB, steps, side, id), x, y) && FalselyAcked(x, y, OrderOf(t, side, id));
      return;
    }
    var twinFar :| twinFar in back && twinFar != name && back[twinFar] == name;
    CrossedEnds(t, timeA, timeB, side, id, twinFar);
    steps := CrossedSteps(side, id, name, twinFar);
    x, y :| Reached(Scenario(t, timeA, timeB, steps, side, id), x, y) && FalselyAcked(x, y, OrderOf(t, side, id));
  }

  /** Every acknowledged packet was received, in every run, if and only if no other channel of the receiving chain goes
      by the name of this one where it leads to. */
  lemma AckedWasReceivedIff(t: Topology, timeA: nat, timeB: nat, side: Side, id: ChannelId)
    requires id in t.Far(side)
    ensures (forall steps, x, y :: Reached(Scenario(t, timeA, timeB, steps, side, id), x, y)
                                   ==> x.log.acked.Keys <= y.log.receivedAt.Keys)
            <==> FarClean(t, side, id)
  {
    hide Reached, FarClean, FalselyAcked;
    if FarClean(t, side, id) {
      forall steps, x, y | Reached(Scenario(t, timeA, timeB, steps, side, id), x, y)
        ensures x.log.acked.Keys <= y.log.receivedAt.Keys
      {
        hide NearClean, PacketSteps.TidyEnd, PacketSteps.ReceiverOk, PacketSteps.SenderOk, PacketSteps.AcksOk;
        hide PacketSteps.Delivery;
        var xb, yb := ReachedOk(Scenario(t, timeA, timeB, steps, side, id), x, y);
      }
    } else {
      var steps, x, y := CrossedRun(t, timeA, timeB, side, id);
      FalseAckFails(x, y, OrderOf(t, side, id));
      ReachedAck(t, timeA, timeB, steps, side, id, x, y, steps + [Step(side, Ack(id, FIRST, [1]))]);
      assert 1 in PacketSteps.Ack(x, y, FIRST, [1]).log.acked;
    }
  }

  /** The packet of every undelivered acknowledgement is on hand, in every run, under the same condition. */
  lemma AcksOnHandIff(t: Topology, timeA: nat, timeB: nat, side: Side, id: ChannelId)
    requires id in t.Far(side)
    ensures (forall steps, x, y, undelivered ::
               Reached(Scenario(t, timeA, timeB, steps, side, id), x, y) && UndeliveredAcks(x, y, undelivered)
               ==> AcksAnswered(x, y, undelivered))
            <==> FarClean(t, side, id)
  {
    hide Reached, FarClean, FalselyAcked, AcksAnswered, UndeliveredAcks;
    if FarClean(t, side, id) {
      forall steps, x, y, undelivered |
        Reached(Scenario(t, timeA, timeB, steps, side, id), x, y) && UndeliveredAcks(x, y, undelivered)
        ensures AcksAnswered(x, y, undelivered)
      {
        UndeliveredAcksOnHand(Scenario(t, timeA, timeB, steps, side, id), x, y, undelivered);
      }
    } else {
      var steps, x, y := CrossedRun(t, timeA, timeB, side, id);
      FalseAckFails(x, y, OrderOf(t, side, id));
    }
  }

  /** And so is every sequence in flight on an unordered channel reported exactly once, in every run without pruning. */
  lemma PartitionIff(t: Topology, timeA: nat, timeB: nat, side: Side, id: ChannelId)
    requires id in t.Far(side) && OrderOf(t, side, id).Unordered?
    ensures (forall steps, x, y, listing, acks ::
               && Reached(Scenario(t, timeA, timeB, steps, side, id), x, y) && x.store.order.Unordered?
               && NoPruning(steps)
               && Enumerates(listing, x.store.commitments) && UndeliveredAcks(x, y, acks)
               ==> Partitioned(x, y, listing, acks))
            <==> FarClean(t, side, id)
  {
    hide Reached, FarClean, FalselyAcked, Partitioned, UndeliveredAcks, Enumerates;
    if FarClean(t, side, id) {
      forall steps, x, y, listing, acks |
        && Reached(Scenario(t, timeA, timeB, steps, side, id), x, y) && x.store.order.Unordered?
        && NoPruning(steps)
        && Enumerates(listing, x.store.commitments) && UndeliveredAcks(x, y, acks)
        ensures Partitioned(x, y, listing, acks)
      {
        InFlightPartition(Scenario(t, timeA, timeB, steps, side, id), x, y, listing, acks);
      }
    } else {
      var steps, x, y := CrossedRun(t, timeA, timeB, side, id);
      FalseAckFails(x, y, OrderOf(t, side, id));
    }
  }

  /** Two handshakes that overtake each other give such names: what is channel 0 on A is channel 1 on B, and the other
      way round. */
  function CrossedPair(order: Order): Topology {
    Wiring(map[0 := 1, 1 := 0], map[0 := 1, 1 := 0], map[0 := order, 1 := order], {}, {})
  }

  /** There, A sends a packet on each channel and B receives the one that comes in on its channel 0; all results fail for
      A's channel 0. */
  lemma CrossedPairFails(order: Order)
    ensures var sc := Scenario(CrossedPair(order), 0, 0, CrossedSteps(A, 0, 1, 0), A, 0);
            exists x, y :: && Reached(sc, x, y) && UndeliveredAcks(x, y, [1]) && !AcksAnswered(x, y, [1])
                           && (order.Unordered? ==> !Partitioned(x, y, [1], [1]))
                           && PacketSteps.CanAck(x, y, FIRST, [1]) && 1 !in y.log.receivedAt
  {
    hide Reached, FalselyAcked, AcksAnswered, UndeliveredAcks, Partitioned, PacketSteps.CanAck;
    CrossedEnds(CrossedPair(order), 0, 0, A, 0, 0);
    var x, y :| Reached(Scenario(CrossedPair(order), 0, 0, CrossedSteps(A, 0, 1, 0), A, 0), x, y)
                && FalselyAcked(x, y, OrderOf(CrossedPair(order), A, 0));
    FalseAckFails(x, y, order);
  }

  /** Chain C, here A, has one channel to B, called 7 on C and 0 on B.  B also has a channel to a further chain, where it
      is called 0: the first channel opened on each side of two connections. */
  function ThirdChain(order: Order): Topology { Wiring(map[7 := 0], map[0 := 7], map[7 := order], {}, {0}) }

  /** C sends a packet, and B receives one from the further chain; all results fail for C's channel. */
  lemma ThirdChainFails(order: Order)
    ensures var sc := Scenario(ThirdChain(order), 0, 0, ForeignSteps(A, 7, 0), A, 7);
            exists x, y :: && Reached(sc, x, y) && UndeliveredAcks(x, y, [1]) && !AcksAnswered(x, y, [1])
                           && (order.Unordered? ==> !Partitioned(x, y, [1], [1]))
                           && PacketSteps.CanAck(x, y, FIRST, [1]) && 1 !in y.log.receivedAt
  {
    hide Reached, FalselyAcked, AcksAnswered, UndeliveredAcks, Partitioned, PacketSteps.CanAck;
    ForeignEnds(ThirdChain(order), 0, 0, A, 7);
    var x, y :| Reached(Scenario(ThirdChain(order), 0, 0, ForeignSteps(A, 7, 0), A, 7), x, y)
                && FalselyAcked(x, y, OrderOf(ThirdChain(order), A, 7));
    FalseAckFails(x, y, order);
  }

  /** Where all channels between the two chains have the same name on both, only channels to further chains matter. */
  lemma SameNamesCleanIff(t: Topology, side: Side, id: ChannelId)
    requires id in t.Far(side) && forall k :: k in t.toB ==> t.toB[k] == k
    ensures FarClean(t, side, id) <==> id !in t.Foreign(Other(side))
  {
    assert forall k :: k in t.toA ==> t.toB[t.toA[k]] == k;
  }
}
