/** Which messages the packet handlers accept in the states two chains reach, in terms of what happened before, and what
    each accepted message changes. */
module Handlers {
  import opened Common
  import opened PacketStore
  import PacketSteps
  import opened TwoChains

  /** The same run with one more operation on the near chain. */
  function Then(sc: Scenario, op: Op): Scenario { sc.(steps := sc.steps + [Step(sc.side, op)]) }

  ghost function WorldOf(sc: Scenario): World { Reach(sc.topology, sc.timeA, sc.timeB, sc.steps) }

  ghost function NearBlocks(sc: Scenario): Blocks { Here(WorldOf(sc), sc.side).blocks }

  ghost function FarBlocks(sc: Scenario): Blocks { There(WorldOf(sc), sc.side).blocks }

  lemma OneMore(sc: Scenario, op: Op)
    ensures WorldOf(Then(sc, op)) == Next(WorldOf(sc), Step(sc.side, op))
  {
    var more := sc.steps + [Step(sc.side, op)];
    assert more[..|more| - 1] == sc.steps;
  }

  /** An operation of the near chain leaves the far one alone. */
  lemma AfterOp(sc: Scenario, op: Op, x: Endpoint, y: Endpoint, x': Endpoint, y': Endpoint)
    requires Reached(sc, x, y) && Reached(Then(sc, op), x', y')
    ensures var c, peer := Here(WorldOf(sc), sc.side), There(WorldOf(sc), sc.side);
            && Joined(c, peer, sc.id) && c.far == sc.topology.Far(sc.side)
            && sc.id in Local(c, peer, op).ends && x' == Local(c, peer, op).ends[sc.id] && y' == y
  {
    hide Local, Reach, PairOk, PacketSteps.Opened;
    OneMore(sc, op);
    ReachOk(sc.topology, sc.timeA, sc.timeB, sc.steps);
    NamesStay(Here(WorldOf(sc), sc.side), There(WorldOf(sc), sc.side), op);
    NearEnd(sc, x, y);
    NearEnd(Then(sc, op), x', y');
  }

  lemma NearEnd(sc: Scenario, x: Endpoint, y: Endpoint)
    requires Reached(sc, x, y)
    ensures var c, peer := Here(WorldOf(sc), sc.side), There(WorldOf(sc), sc.side);
            Joined(c, peer, sc.id) && x == c.ends[sc.id] && y == FarEnd(c, peer, sc.id)
  {
    hide Reach;
  }

  /** Where the members are exactly the numbers from 1 up to before `n`, the next one is `n`. */
  lemma NextIs(members: set<nat>, n: nat, s: nat)
    requires n >= 1 && (forall k :: k in members <==> 1 <= k < n) && s >= 1 && s !in members
    ensures s == n <==> forall t :: 1 <= t < s ==> t in members
  {
    assert n !in members;
  }

  // ----- Send -----

  lemma SendEffect(e: Endpoint, data: Bytes, th: nat, tt: nat, height: nat)
    requires PacketSteps.SenderOk(e)
    ensures var n := |e.log.sent| + 1;
            var p := Packet(n, data, th, tt);
            var e' := PacketSteps.Send(e, data, th, tt, height);
            if e.store.open then
              && n !in e.log.sent
              && e'.store == e.store.(nextSend := Some(n + 1), commitments := e.store.commitments[n := p],
                                      sendPackets := e.store.sendPackets[n := PacketInfo(p, height, None)])
              && e'.log.sent == e.log.sent[n := p]
            else e' == e
  {
    assert Between(0, e.store.nextSend.value) == e.log.sent.Keys;
    BetweenSize(0, e.store.nextSend.value);
  }

  lemma SendNext(e: Endpoint)
    requires PacketSteps.SenderOk(e)
    ensures e.store.nextSend.Some?
  {
  }

  /** An open channel accepts every packet: it gets the next sequence, a commitment, and a place in the store, with the
      height of the block. */
  lemma SendAccepted(sc: Scenario, x: Endpoint, y: Endpoint, data: Bytes, th: nat, tt: nat, x': Endpoint, y': Endpoint)
    requires Reached(sc, x, y) && Reached(Then(sc, Send(sc.id, data, th, tt)), x', y')
    ensures y' == y
    ensures var n := |x.log.sent| + 1;
            var p := Packet(n, data, th, tt);
            if x.store.open then
              && n !in x.log.sent
              && x'.store == x.store.(nextSend := Some(n + 1), commitments := x.store.commitments[n := p],
                                      sendPackets := x.store.sendPackets[n := PacketInfo(p, |NearBlocks(sc)| - 1, None)])
              && x'.log.sent == x.log.sent[n := p]
            else x' == x
  {
    hide PacketSteps.Send, PacketSteps.TidyEnd, PacketSteps.SenderOk, PacketSteps.ReceiverOk, PacketSteps.AcksOk;
    hide PacketSteps.Delivery, PacketSteps.StoredOk, PacketSteps.AckedOk, Reached, NearClean, FarClean, Reach;
    AfterOp(sc, Send(sc.id, data, th, tt), x, y, x', y');
    var xb, yb := ReachedOk(sc, x, y);
    NearEnd(sc, x, y);
    SendNext(x);
    SendEffect(x, data, th, tt, |NearBlocks(sc)| - 1);
  }

  // ----- Receive -----

  /** The packet was sent and has not been received; on an ordered channel every earlier one has; its timeout has not
      passed; and there is no acknowledgement under the key yet. */
  lemma RecvEffect(e: Endpoint, peer: Endpoint, p: Packet, ack: Bytes, height: nat, timestamp: nat)
    requires PacketSteps.ReceiverOk(e) && PacketSteps.SenderOk(peer)
    ensures var s := p.sequence;
            var ordered := e.store.order.Ordered?;
            var e' := PacketSteps.Recv(e, peer, p, ack, height, timestamp);
            if && e.store.open && ack != []
               && s in peer.log.sent && peer.log.sent[s] == p && s !in e.log.receivedAt && s !in e.store.acks
               && (ordered ==> forall t :: 1 <= t < s ==> t in e.log.receivedAt)
               && (p.timeoutHeight == 0 || height < p.timeoutHeight)
               && (p.timeoutTimestamp == 0 || timestamp < p.timeoutTimestamp)
            then
              && e'.store == e.store.(acks := e.store.acks[s := ack], rawAcks := e.store.rawAcks[s := ack],
                                      receipts := if ordered then e.store.receipts else e.store.receipts + {s},
                                      nextRecv := if ordered then Some(s + 1) else e.store.nextRecv,
                                      recvPackets := e.store.recvPackets[s := PacketInfo(p, height, None)])
              && e'.log.receivedAt == e.log.receivedAt[s := height] && e'.log.written == e.log.written[s := ack]
            else e' == e
  {
    hide PacketSteps.SenderOk;
    var s := p.sequence;
    if s in peer.log.sent && s !in e.log.receivedAt {
      PacketSteps.SentFromOne(peer, s);
      if e.store.order.Ordered? { NextIs(e.log.receivedAt.Keys, e.store.nextRecv.value, s); }
    }
  }

  /** A receive is accepted exactly when the callback files and returns an acknowledgement, the packet was sent and not
      received yet, in order if the channel is ordered, in time, and no acknowledgement is under the key; the packet is
      stored with the height of the block and with its acknowledgement. */
  lemma RecvAcceptedIff(sc: Scenario, x: Endpoint, y: Endpoint, p: Packet, filed: Bytes, ack: Bytes, x': Endpoint, y': Endpoint)
    requires Reached(sc, x, y) && Reached(Then(sc, Recv(sc.id, p, filed, ack)), x', y')
    ensures y' == y && sc.id in sc.topology.Far(sc.side)
    ensures var s, top, ordered := p.sequence, |NearBlocks(sc)| - 1, x.store.order.Ordered?;
            var kept := if sc.topology.Far(sc.side)[sc.id] == sc.id then filed else ack;
            if && x.store.open && filed != [] && ack != []
               && s in y.log.sent && y.log.sent[s] == p && s !in x.log.receivedAt && s !in x.store.acks
               && (ordered ==> forall t :: 1 <= t < s ==> t in x.log.receivedAt)
               && (p.timeoutHeight == 0 || top < p.timeoutHeight)
               && (p.timeoutTimestamp == 0 || NearBlocks(sc)[top] < p.timeoutTimestamp)
            then
              && x'.store == x.store.(acks := x.store.acks[s := kept], rawAcks := x.store.rawAcks[s := kept],
                                      receipts := if ordered then x.store.receipts else x.store.receipts + {s},
                                      nextRecv := if ordered then Some(s + 1) else x.store.nextRecv,
                                      recvPackets := x.store.recvPackets[s := PacketInfo(p, top, None)])
              && x'.log.receivedAt == x.log.receivedAt[s := top] && x'.log.written == x.log.written[s := kept]
            else x' == x
  {
    hide PacketSteps.Recv, PacketSteps.TidyEnd, PacketSteps.SenderOk, PacketSteps.ReceiverOk, PacketSteps.AcksOk;
    hide PacketSteps.Delivery, PacketSteps.StoredOk, PacketSteps.AckedOk, Reached, NearClean, FarClean, Reach;
    AfterOp(sc, Recv(sc.id, p, filed, ack), x, y, x', y');
    var xb, yb := ReachedOk(sc, x, y);
    NearEnd(sc, x, y);
    var c, peer := Here(WorldOf(sc), sc.side), There(WorldOf(sc), sc.side);
    RecvLocally(c, peer, sc.id, p, filed, ack);
    RecvEffect(x, y, p, Kept(c, sc.id, filed, ack), |c.blocks| - 1, c.blocks[|c.blocks| - 1]);
  }

  /** On the channel itself nothing is left of the misfiling. */
  lemma RecvLocally(c: Chain, peer: Chain, id: ChannelId, p: Packet, filed: Bytes, ack: Bytes)
    requires Joined(c, peer, id)
    ensures var c' := Local(c, peer, Recv(id, p, filed, ack));
            id in c'.ends && c'.ends[id] == if filed != [] && ack != [] then Received(c, peer, id, p, filed, ack) else c.ends[id]
  {
  }

  /** Under a clean key an acknowledgement is never in the way of a packet that has not been received. */
  lemma CleanKeyReceives(sc: Scenario, x: Endpoint, y: Endpoint, s: nat)
    requires Reached(sc, x, y) && NearClean(sc.topology, sc.side, sc.id) && s !in x.log.receivedAt
    ensures s !in x.store.acks
  {
    hide PacketSteps.TidyEnd, PacketSteps.SenderOk, PacketSteps.ReceiverOk, Reached, NearClean, FarClean;
    hide PacketSteps.Delivery, PacketSteps.StoredOk, PacketSteps.AckedOk;
    var xb, yb := ReachedOk(sc, x, y);
  }

  // ----- Acknowledge -----

  lemma InFlight(e: Endpoint, s: nat)
    requires PacketSteps.SenderOk(e)
    ensures PacketSteps.AckOrder(e) && (s in e.store.commitments ==> s >= 1 && s !in e.log.acked)
  {
  }

  lemma AckEffect(e: Endpoint, peer: Endpoint, p: Packet, ack: Bytes)
    requires PacketSteps.SenderOk(e)
    ensures var s := p.sequence;
            var ordered := e.store.order.Ordered?;
            var e' := PacketSteps.Ack(e, peer, p, ack);
            if && e.store.open && s in e.store.commitments && e.store.commitments[s] == p
               && s in peer.log.filed && ack in peer.log.filed[s]
               && (ordered ==> forall t :: 1 <= t < s ==> t in e.log.acked)
            then
              && e'.store == e.store.(commitments := e.store.commitments - {s},
                                      nextAck := if ordered then s + 1 else e.store.nextAck)
              && e'.log.acked == e.log.acked[s := ack]
            else e' == e
  {
    hide PacketSteps.SenderOk;
    InFlight(e, p.sequence);
    if p.sequence in e.store.commitments && e.store.order.Ordered? {
      NextIs(e.log.acked.Keys, e.store.nextAck, p.sequence);
    }
  }

  /** An acknowledgement is accepted exactly when it was filed for a packet in flight and, on an ordered channel, all
      earlier packets have been acknowledged.  The commitment goes and the next one is due. */
  lemma AckAcceptedIff(sc: Scenario, x: Endpoint, y: Endpoint, p: Packet, ack: Bytes, x': Endpoint, y': Endpoint)
    requires Reached(sc, x, y) && Reached(Then(sc, Ack(sc.id, p, ack)), x', y')
    ensures y' == y
    ensures var s, ordered := p.sequence, x.store.order.Ordered?;
            if && x.store.open && s in x.store.commitments && x.store.commitments[s] == p
               && s in y.log.filed && ack in y.log.filed[s]
               && (ordered ==> forall t :: 1 <= t < s ==> t in x.log.acked)
            then
              && x'.store == x.store.(commitments := x.store.commitments - {s},
                                      nextAck := if ordered then s + 1 else x.store.nextAck)
              && x'.log.acked == x.log.acked[s := ack]
            else x' == x
  {
    hide PacketSteps.Ack, PacketSteps.CanAck, PacketSteps.TidyEnd, PacketSteps.SenderOk, PacketSteps.ReceiverOk;
    hide PacketSteps.AcksOk, PacketSteps.Delivery, PacketSteps.StoredOk, PacketSteps.AckedOk, Reached, NearClean, FarClean, Reach;
    AfterOp(sc, Ack(sc.id, p, ack), x, y, x', y');
    var xb, yb := ReachedOk(sc, x, y);
    NearEnd(sc, x, y);
    AckLocal(Here(WorldOf(sc), sc.side), There(WorldOf(sc), sc.side), sc.id, p, ack);
    AckEffect(x, y, p, ack);
  }

  lemma AckLocal(c: Chain, peer: Chain, id: ChannelId, p: Packet, ack: Bytes)
    requires Joined(c, peer, id)
    ensures var c' := Local(c, peer, Ack(id, p, ack));
            id in c'.ends && c'.ends[id] == PacketSteps.Ack(c.ends[id], FarEnd(c, peer, id), p, ack)
  {
  }

  /** On an ordered channel the packets acknowledged are the first ones, and the next acknowledgement sequence is one more
      than their number. */
  lemma NextAckExact(sc: Scenario, x: Endpoint, y: Endpoint)
    requires Reached(sc, x, y) && x.store.order.Ordered?
    ensures x.store.nextAck == |x.log.acked| + 1
    ensures forall s :: s in x.log.acked <==> 1 <= s < x.store.nextAck
  {
    hide PacketSteps.TidyEnd, PacketSteps.ReceiverOk, PacketSteps.AcksOk, PacketSteps.Delivery, Reached, NearClean, FarClean;
    var xb, yb := ReachedOk(sc, x, y);
    assert Between(0, x.store.nextAck) == x.log.acked.Keys;
    BetweenSize(0, x.store.nextAck);
  }

  // ----- Time out -----

  lemma TimeoutEffect(e: Endpoint, peer: Endpoint, p: Packet, h: nat, peerBlocks: seq<nat>)
    ensures var s := p.sequence;
            var e' := PacketSteps.Timeout(e, peer, p, h, peerBlocks);
            if && e.store.open && s in e.store.commitments && e.store.commitments[s] == p && h < |peerBlocks|
               && (|| (p.timeoutHeight != 0 && p.timeoutHeight <= h)
                   || (p.timeoutTimestamp != 0 && p.timeoutTimestamp <= peerBlocks[h]))
               && !(s in peer.log.receivedAt && peer.log.receivedAt[s] <= h)
            then
              && e'.store == e.store.(commitments := e.store.commitments - {s}, open := e.store.order.Unordered?)
              && e'.log.timedOut == e.log.timedOut + {s}
            else e' == e
  {
  }

  /** A timeout is accepted exactly when the packet is in flight, had expired on the far chain at the height of the proof,
      and had not been received there by then.  The commitment goes, and an ordered channel is closed. */
  lemma TimeoutAcceptedIff(sc: Scenario, x: Endpoint, y: Endpoint, p: Packet, h: nat, x': Endpoint, y': Endpoint)
    requires Reached(sc, x, y) && Reached(Then(sc, Timeout(sc.id, p, h)), x', y')
    ensures y' == y
    ensures var s, blocks := p.sequence, FarBlocks(sc);
            if && x.store.open && s in x.store.commitments && x.store.commitments[s] == p && h < |blocks|
               && (|| (p.timeoutHeight != 0 && p.timeoutHeight <= h)
                   || (p.timeoutTimestamp != 0 && p.timeoutTimestamp <= blocks[h]))
               && !(s in y.log.receivedAt && y.log.receivedAt[s] <= h)
            then
              && x'.store == x.store.(commitments := x.store.commitments - {s}, open := x.store.order.Unordered?)
              && x'.log.timedOut == x.log.timedOut + {s}
            else x' == x
  {
    hide PacketSteps.Timeout, PacketSteps.CanTimeout, Reached, Reach;
    AfterOp(sc, Timeout(sc.id, p, h), x, y, x', y');
    NearEnd(sc, x, y);
    TimeoutLocal(Here(WorldOf(sc), sc.side), There(WorldOf(sc), sc.side), sc.id, p, h);
    TimeoutEffect(x, y, p, h, FarBlocks(sc));
  }

  lemma TimeoutLocal(c: Chain, peer: Chain, id: ChannelId, p: Packet, h: nat)
    requires Joined(c, peer, id)
    ensures var c' := Local(c, peer, Timeout(id, p, h));
            id in c'.ends && c'.ends[id] == PacketSteps.Timeout(c.ends[id], FarEnd(c, peer, id), p, h, peer.blocks)
  {
  }

  // ----- Prune, new block -----

  lemma PruneRemoves(sc: Scenario, x: Endpoint, y: Endpoint, s: nat, x': Endpoint, y': Endpoint)
    requires Reached(sc, x, y) && Reached(Then(sc, PruneAck(sc.id, s)), x', y')
    ensures y' == y && x' == x.(store := x.store.(acks := x.store.acks - {s}))
  {
    hide Reached, Reach;
    AfterOp(sc, PruneAck(sc.id, s), x, y, x', y');
    NearEnd(sc, x, y);
  }

  /** A block is appended exactly when its timestamp is not before that of the last one. */
  lemma BlockAcceptedIff(sc: Scenario, x: Endpoint, y: Endpoint, t: nat, x': Endpoint, y': Endpoint)
    requires Reached(sc, x, y) && Reached(Then(sc, NewBlock(t)), x', y')
    ensures y' == y && x' == x
    ensures var blocks := NearBlocks(sc);
            NearBlocks(Then(sc, NewBlock(t))) == if blocks[|blocks| - 1] <= t then blocks + [t] else blocks
  {
    hide Reached, Reach;
    AfterOp(sc, NewBlock(t), x, y, x', y');
    NearEnd(sc, x, y);
    OneMore(sc, NewBlock(t));
  }
}
