/** `packet_cleanup` as the pallet runs it: nested loops over live storage, with early error returns. */
module PacketCleanup {
  import opened Common
  import opened CleanupCycle
  import opened PacketStore
  import PacketSteps

  datatype CleanupError = DecodingError | Other

  /** The callback could not file an acknowledgement, or returned an empty one. */
  datatype RecvError = NotFiled | NotReturned

  /** Where the cycle stops on this channel. */
  function CutOf(c: Channel): Cut {
    if !c.idsDecode then NotReached
    else if c.nextSend.None? then SendAborted
    else if c.nextRecv.None? then RecvAborted
    else Completed
  }

  /** How many channels, in iteration order, are cleaned completely before the cycle stops. */
  ghost function CompletedCount(cs: seq<Channel>): (k: nat)
    ensures k <= |cs|
    ensures forall i :: 0 <= i < k ==> CutOf(cs[i]).Completed?
    ensures k < |cs| ==> !CutOf(cs[k]).Completed?
  {
    if cs == [] || !CutOf(cs[0]).Completed? then 0 else 1 + CompletedCount(cs[1..])
  }

  /** What happens to the `i`-th channel of the iteration order. */
  ghost function CutAt(cs: seq<Channel>, i: nat): Cut
    requires i < |cs|
  {
    var k := CompletedCount(cs);
    if i < k then Completed else if i == k then CutOf(cs[k]) else NotReached
  }

  /** A cycle over a list of channels: it goes on to the next channel only after completing this one. */
  ghost function Sweep(cs: seq<Channel>): (cs': seq<Channel>)
    ensures |cs'| == |cs|
  {
    if cs == [] then []
    else [CleanupChannel(cs[0], CutOf(cs[0]))] + if CutOf(cs[0]).Completed? then Sweep(cs[1..]) else cs[1..]
  }

  /** Packets removed by such a cycle. */
  ghost function SweepCount(cs: seq<Channel>): nat {
    if cs == [] then 0
    else RemovedCount(cs[0], CutOf(cs[0])) + if CutOf(cs[0]).Completed? then SweepCount(cs[1..]) else 0
  }

  lemma Untouched(c: Channel)
    ensures CleanupChannel(c, NotReached) == c
  {
  }

  /** Channels before the first failing one are cleaned completely, that one is left where the failure struck it,
      and the rest are untouched. */
  lemma {:induction false} SweepAt(cs: seq<Channel>, i: nat)
    requires i < |cs|
    ensures Sweep(cs)[i] == CleanupChannel(cs[i], CutAt(cs, i))
    decreases i
  {
    hide CleanupChannel, CutOf;
    Untouched(cs[i]);
    if i > 0 && CutOf(cs[0]).Completed? {
      SweepAt(cs[1..], i - 1);
    }
  }

  /** The number of packets the cycle really drops, over all channels. */
  ghost function SweepDropped(cs: seq<Channel>): nat {
    if cs == [] then 0
    else DroppedCount(cs[0], CutOf(cs[0])) + if CutOf(cs[0]).Completed? then SweepDropped(cs[1..]) else 0
  }

  /** The number returned is the number of packets dropped exactly when no channel the cycle got to had an already
      dropped packet on its pending lists; otherwise it is greater. */
  lemma {:induction false} SweepCountIff(cs: seq<Channel>)
    ensures SweepCount(cs) >= SweepDropped(cs)
    ensures SweepCount(cs) == SweepDropped(cs)
            <==> forall i: nat :: i < |cs| && i <= CompletedCount(cs) ==> RetriesStored(cs[i], CutOf(cs[i]))
  {
    hide RemovedCount, DroppedCount, RetriesStored, CutOf;
    if cs != [] {
      CountIff(cs[0], CutOf(cs[0]));
      if CutOf(cs[0]).Completed? {
        var rest := cs[1..];
        SweepCountIff(rest);
        assert CompletedCount(cs) == 1 + CompletedCount(rest);
        if forall i: nat :: i < |cs| && i <= CompletedCount(cs) ==> RetriesStored(cs[i], CutOf(cs[i])) {
          forall i: nat | i < |rest| && i <= CompletedCount(rest) ensures RetriesStored(rest[i], CutOf(rest[i])) {
            assert rest[i] == cs[i + 1];
          }
        }
        if forall i: nat :: i < |rest| && i <= CompletedCount(rest) ==> RetriesStored(rest[i], CutOf(rest[i])) {
          forall i: nat | 0 < i < |cs| && i <= CompletedCount(cs) ensures RetriesStored(cs[i], CutOf(cs[i])) {
            assert cs[i] == rest[i - 1];
          }
        }
      }
    }
  }

  /** The bookkeeping of the first loop, after the members of `pending` outside `todo` have been visited. */
  ghost predicate Retried(pending: set<nat>, live: set<nat>, todo: set<nat>, done: set<nat>) {
    && todo <= pending
    && done == pending - todo - live
    && forall s, t :: s in done && t in todo ==> s < t
  }

  lemma RetryStep(pending: set<nat>, live: set<nat>, todo: set<nat>, done: set<nat>, least: nat, start: nat)
    requires Retried(pending, live, todo, done)
    requires least in todo && IsLeast(least, todo)
    ensures least in live ==> Retried(pending, live, todo - {least}, done)
    ensures least !in live ==>
              && least !in done
              && Retried(pending, live, todo - {least}, done + {least})
              && MaxOr(done + {least}, start) == least
              && Size(done + {least}) == Size(done) + 1
  {
    assert pending - (todo - {least}) == pending - todo + {least};
    if least !in live {
      MaxOrIs(done + {least}, start, least);
      SizeOnTop(done, least);
    }
  }

  /** What the second loop has dropped when it is about to visit `sequence`. */
  ghost function Dropped(stored: set<nat>, live: set<nat>, start: nat, sequence: nat): set<nat> {
    if sequence <= start + 1 then {}
    else if sequence - 1 in live || sequence - 1 !in stored then Dropped(stored, live, start, sequence - 1)
    else Dropped(stored, live, start, sequence - 1) + {sequence - 1}
  }

  /** What the second loop has skipped when it is about to visit `sequence`. */
  ghost function Skipped(live: set<nat>, start: nat, sequence: nat): set<nat> {
    if sequence <= start + 1 then {}
    else if sequence - 1 in live then Skipped(live, start, sequence - 1) + {sequence - 1}
    else Skipped(live, start, sequence - 1)
  }

  lemma {:induction false} DroppedAll(stored: set<nat>, live: set<nat>, start: nat, end: nat)
    ensures Dropped(stored, live, start, end) == (Between(start, end) - live) * stored
    ensures Skipped(live, start, end) == Between(start, end) * live
    decreases end
  {
    if start + 1 < end {
      DroppedAll(stored, live, start, end - 1);
      assert Between(start, end) == Between(start, end - 1) + {end - 1};
    } else {
      assert Between(start, end) == {};
    }
  }

  lemma {:induction false} DroppedBelow(stored: set<nat>, live: set<nat>, start: nat, end: nat)
    ensures forall s :: s in Dropped(stored, live, start, end) ==> s < end
    decreases end
  {
    if start + 1 < end { DroppedBelow(stored, live, start, end - 1); }
  }

  /** First loop of a half: retry the sequences an earlier cycle skipped, in ascending order.  `packets` is the
      offchain packet store and `extra` what is stored next to it (raw acknowledgements, on the receive half). */
  method Retry<V, W>(live: set<nat>, skipped: set<nat>, watermark: nat, packets: map<nat, V>, extra: map<nat, W>)
    returns (packets': map<nat, V>, extra': map<nat, W>, pending: set<nat>, last: nat, count: nat)
    ensures packets' == packets - (skipped - live) && extra' == extra - (skipped - live)
    ensures pending == skipped * live
    ensures last == MaxOr(skipped - live, watermark)
    ensures count == Size(skipped - live)
  {
    packets', extra', pending, last, count := packets, extra, skipped, watermark, 0;
    var todo := pending;
    ghost var done: set<nat> := {};
    MinusNothing(packets);
    MinusNothing(extra);
    while todo != {}
      invariant Retried(skipped, live, todo, done)
      invariant packets' == packets - done && extra' == extra - done
      invariant pending == skipped - done
      invariant last == MaxOr(done, watermark)
      invariant count == Size(done)
      decreases todo
    {
      LeastExists(todo);
      var least :| least in todo && IsLeast(least, todo);
      RetryStep(skipped, live, todo, done, least, watermark);
      todo := todo - {least};
      if least !in live {
        MinusTwice(packets, done, {least});
        MinusTwice(extra, done, {least});
        packets', extra' := packets' - {least}, extra' - {least};
        pending := pending - {least};
        last := least;
        count := count + 1;
        done := done + {least};
      }
    }
  }

  /** Second loop of a half: scan at most a thousand sequences above the working watermark. */
  method Scan<V, W>(live: set<nat>, skipped: set<nat>, start: nat, next: nat, packets: map<nat, V>, extra: map<nat, W>)
    returns (packets': map<nat, V>, extra': map<nat, W>, pending: set<nat>, last: nat, count: nat)
    ensures var end := Min(start + PACKET_CLEANUP_PER_CYCLE, next);
            var gone := Dropped(packets.Keys, live, start, end);
            && packets' == packets - gone && extra' == extra - gone
            && pending == skipped + Skipped(live, start, end)
            && last == MaxOr(gone, start)
            && count == Size(gone)
  {
    var end := Min(start + PACKET_CLEANUP_PER_CYCLE, next);
    packets', extra', pending, last, count := packets, extra, skipped, start, 0;
    var sequence := start + 1;
    ghost var stored := packets.Keys;
    ghost var done: set<nat> := {};
    MinusNothing(packets);
    MinusNothing(extra);
    while sequence < end
      invariant start < sequence && (sequence <= end || sequence == start + 1)
      invariant done == Dropped(stored, live, start, sequence)
      invariant packets' == packets - done && extra' == extra - done
      invariant pending == skipped + Skipped(live, start, sequence)
      invariant last == MaxOr(done, start)
      invariant count == Size(done)
    {
      DroppedBelow(stored, live, start, sequence);
      if sequence !in live {
        if sequence in packets' {
          MinusTwice(packets, done, {sequence});
          MinusTwice(extra, done, {sequence});
          packets', extra' := packets' - {sequence}, extra' - {sequence};
          last := sequence;
          count := count + 1;
          SizeOnTop(done, sequence);
          done := done + {sequence};
          MaxOrIs(done, start, sequence);
        }
      } else {
        pending := pending + {sequence};
      }
      sequence := sequence + 1;
    }
  }

  lemma ScanIsScanned(h: Half, start: nat, stored: set<nat>)
    requires start == ScanStart(h) && stored == h.stored - Released(h)
    ensures var end := Min(start + PACKET_CLEANUP_PER_CYCLE, h.next);
            && Dropped(stored, h.live, start, end) == Scanned(h)
            && h.pending * h.live + Skipped(h.live, start, end) == FullCycle(h).pending
            && Max(MaxOr(Scanned(h), start), h.watermark) == FullCycle(h).watermark
  {
    DroppedAll(stored, h.live, start, Min(start + PACKET_CLEANUP_PER_CYCLE, h.next));
  }

  lemma KeysLeft<V>(m: map<nat, V>, gone: set<nat>)
    ensures (m - gone).Keys == m.Keys - gone
  {
  }

  /** Both loops of a half, and the write-back of the pending set and of the watermark, which never decreases.
      A missing sequence counter aborts it after the first loop, before the write-back. */
  method CleanHalf<V, W>(live: set<nat>, pending: set<nat>, watermark: nat, next: Option<nat>,
                         packets: map<nat, V>, extra: map<nat, W>)
    returns (packets': map<nat, V>, extra': map<nat, W>, pending': set<nat>, watermark': nat, r: Result<nat, nat>)
    ensures var h := Half(live, packets.Keys, pending, watermark, OrZero(next));
            next.None? ==>
              && packets' == packets - Released(h) && extra' == extra - Released(h)
              && pending' == pending && watermark' == watermark
              && r == Err(Size(Released(h)))
    ensures var h := Half(live, packets.Keys, pending, watermark, OrZero(next));
            next.Some? ==>
              && packets' == packets - (Released(h) + Scanned(h)) && extra' == extra - (Released(h) + Scanned(h))
              && pending' == FullCycle(h).pending && watermark' == FullCycle(h).watermark
              && r == Ok(Size(Released(h)) + Size(Scanned(h)))
  {
    ghost var h := Half(live, packets.Keys, pending, watermark, OrZero(next));
    var retained, kept, skipped, last, retried := Retry(live, pending, watermark, packets, extra);
    if next.None? {
      return retained, kept, pending, watermark, Err(retried);
    }
    assert retained.Keys == h.stored - Released(h) by { KeysLeft(packets, Released(h)); }
    ScanIsScanned(h, last, retained.Keys);
    var dropped;
    packets', extra', pending', last, dropped := Scan(live, skipped, last, next.value, retained, kept);
    assert packets' == packets - (Released(h) + Scanned(h)) by { MinusTwice(packets, Released(h), Scanned(h)); }
    assert extra' == extra - (Released(h) + Scanned(h)) by { MinusTwice(extra, Released(h), Scanned(h)); }
    return packets', extra', pending', Max(last, watermark), Ok(retried + dropped);
  }

  /** One channel's share of a cycle: the identifiers are decoded, then the send half and the receive half run. */
  method CleanChannel(c: Channel) returns (c': Channel, r: Result<nat, (CleanupError, nat)>)
    ensures c' == CleanupChannel(c, CutOf(c))
    ensures r.Ok? <==> CutOf(c).Completed?
    ensures r.Ok? <==> c.idsDecode && c.nextSend.Some? && c.nextRecv.Some?
    ensures !c.idsDecode ==> c' == c && r == Err((DecodingError, 0))
    ensures c.idsDecode && c.nextSend.None? ==> c' == CleanupChannel(c, SendAborted)
    ensures c.idsDecode && c.nextSend.Some? && c.nextRecv.None? ==> c' == CleanupChannel(c, RecvAborted)
    ensures (if r.Ok? then r.value else r.error.1) == RemovedCount(c, CutOf(c))
    ensures r.Err? ==> (r.error.0.DecodingError? <==> CutOf(c).NotReached?)
  {
    if !c.idsDecode {
      return c, Err((DecodingError, 0));
    }
    var none: map<nat, ()> := map[];
    var sends, none', pendingSend, lastRemovedSend, sent :=
      CleanHalf(c.commitments.Keys, c.pendingSend, c.lastRemovedSend, c.nextSend, c.sendPackets, none);
    c' := c.(sendPackets := sends, pendingSend := pendingSend, lastRemovedSend := lastRemovedSend);
    if sent.Err? {
      return c', Err((Other, sent.error));
    }
    assert c' == CleanSend(c) && RecvHalf(c') == RecvHalf(c);
    var recvs, acks, pendingRecv, lastRemovedAck, received :=
      CleanHalf(c.acks.Keys, c.pendingRecv, c.lastRemovedAck, c.nextRecv, c.recvPackets, c.rawAcks);
    c' := c'.(recvPackets := recvs, rawAcks := acks, pendingRecv := pendingRecv, lastRemovedAck := lastRemovedAck);
    if received.Err? {
      return c', Err((Other, sent.value + received.error));
    }
    return c', Ok(sent.value + received.value);
  }

  /** One turn of the loop over the channels: what it makes of channel `i`, and what is left of the sweep. */
  lemma SweepStep(cs: seq<Channel>, i: nat)
    requires i < |cs| && Sweep(cs)[i..] == Sweep(cs[i..])
    ensures Sweep(cs)[i] == CleanupChannel(cs[i], CutOf(cs[i]))
    ensures CutOf(cs[i]).Completed? ==> Sweep(cs)[i + 1..] == Sweep(cs[i + 1..])
    ensures !CutOf(cs[i]).Completed? ==> forall j :: i < j < |cs| ==> Sweep(cs)[j] == cs[j]
    ensures SweepCount(cs[i..])
            == RemovedCount(cs[i], CutOf(cs[i])) + if CutOf(cs[i]).Completed? then SweepCount(cs[i + 1..]) else 0
  {
    hide CleanupChannel, RemovedCount, CutOf;
    assert cs[i..][1..] == cs[i + 1..];
    assert Sweep(cs)[i] == Sweep(cs)[i..][0];
    assert Sweep(cs)[i + 1..] == Sweep(cs)[i..][1..];
    assert forall j :: i < j < |cs| ==> Sweep(cs)[j] == Sweep(cs)[i + 1..][j - (i + 1)];
  }

  /** A table after `i` turns of a loop over its keys: the entries visited are as in `after`, the others as `before`. */
  ghost predicate Visited<V(!new)>(table: map<ChannelId, V>, order: seq<ChannelId>, before: seq<V>, after: seq<V>, i: nat)
    requires |order| == |before| == |after|
  {
    && (forall j: nat :: j < i && j < |order| ==> order[j] in table && table[order[j]] == after[j])
    && (forall j: nat :: i <= j < |order| ==> order[j] in table && table[order[j]] == before[j])
  }

  lemma VisitOne<V(!new)>(table: map<ChannelId, V>, order: seq<ChannelId>, before: seq<V>, after: seq<V>, i: nat)
    requires |order| == |before| == |after| && i < |order| && Visited(table, order, before, after, i)
    requires forall i, j :: 0 <= i < j < |order| ==> order[i] != order[j]
    ensures order[i] in table && table[order[i]] == before[i]
    ensures Visited(table[order[i] := after[i]], order, before, after, i + 1)
  {
  }

  lemma AllVisited<V(!new)>(table: map<ChannelId, V>, order: seq<ChannelId>, before: seq<V>, after: seq<V>, i: nat)
    requires |order| == |before| == |after| && Visited(table, order, before, after, i)
    requires forall j :: i <= j < |order| ==> after[j] == before[j]
    ensures forall j: nat :: j < |order| ==> order[j] in table && table[order[j]] == after[j]
  {
  }

  /** An acknowledgement under the key of a channel, if there is one of that name. */
  function Filed(channels: map<ChannelId, Channel>, name: ChannelId, sequence: nat, ack: Bytes): map<ChannelId, Channel> {
    if name in channels then channels[name := PacketSteps.FileAck(channels[name], sequence, ack)] else channels
  }

  /** The pallet's storage: its channels and the packet counter. */
  class Pallet {
    var channels: map<ChannelId, Channel>
    var packetCounter: nat

    /** A sent packet: the next sequence, the commitment with its count, and the packet. */
    method StoreSendResult(id: ChannelId, p: Packet, height: nat)
      requires id in channels
      modifies this
      ensures var c := old(channels)[id];
              channels == old(channels)[id := c.(nextSend := Some(p.sequence + 1),
                                                 commitments := c.commitments[p.sequence := p],
                                                 sendPackets := c.sendPackets[p.sequence := PacketInfo(p, height, None)])]
      ensures channels[id] == PacketSteps.StoreSend(old(channels)[id], p, height)
      ensures packetCounter == old(packetCounter) + if old(packetCounter) < 4294967295 then 1 else 0
    {
      var c := channels[id];
      c := c.(nextSend := Some(p.sequence + 1));
      c := c.(commitments := c.commitments[p.sequence := p]);
      if packetCounter < PacketSteps.U32_MAX {
        packetCounter := packetCounter + 1;
      }
      c := c.(sendPackets := c.sendPackets[p.sequence := PacketInfo(p, height, None)]);
      channels := channels[id := c];
    }

    /** A received packet.  The callback files `filed` under the packet's source channel, unless it is empty or there is
        an acknowledgement under the channel the packet is received on; then the handler stores `ack`, which the callback
        returned, under that channel, unless there is one now, with the receipt or next sequence, and the packet.  An
        empty `ack` fails the message after the filing, which stays. */
    method StoreRecvResult(id: ChannelId, source: ChannelId, p: Packet, filed: Bytes, ack: Bytes, height: nat)
      returns (r: Result<(), RecvError>)
      requires id in channels
      modifies this`channels
      ensures r == if filed == [] || p.sequence in old(channels)[id].acks then Err(NotFiled)
                   else if ack == [] then Err(NotReturned)
                   else Ok(())
      ensures r == Err(NotFiled) ==> channels == old(channels)
      ensures r == Err(NotReturned) ==> channels == Filed(old(channels), source, p.sequence, filed)
      ensures r.Ok? ==>
                var kept := if source == id then filed else ack;
                channels == Filed(old(channels), source, p.sequence, filed)
                            [id := PacketSteps.StoreRecv(old(channels)[id], p, kept, height)]
      ensures r.Ok? ==>
                var s, c := p.sequence, old(channels)[id];
                var kept := if source == id then filed else ack;
                channels[id] == c.(acks := c.acks[s := kept], rawAcks := c.rawAcks[s := kept],
                                   receipts := if c.order.Unordered? then c.receipts + {s} else c.receipts,
                                   nextRecv := if c.order.Unordered? then c.nextRecv else Some(s + 1),
                                   recvPackets := c.recvPackets[s := PacketInfo(p, height, None)])
      ensures source in old(channels) && source != id && r != Err(NotFiled) ==>
                var c := old(channels)[source];
                channels[source] == c.(acks := c.acks[p.sequence := filed], rawAcks := c.rawAcks[p.sequence := filed])
    {
      if p.sequence in channels[id].acks || filed == [] {
        return Err(NotFiled);
      }
      if source in channels {
        var s := channels[source];
        channels := channels[source := s.(acks := s.acks[p.sequence := filed], rawAcks := s.rawAcks[p.sequence := filed])];
      }
      if ack == [] {
        return Err(NotReturned);
      }
      var c := channels[id];
      if p.sequence !in c.acks {
        c := c.(rawAcks := c.rawAcks[p.sequence := ack]);
        c := c.(acks := c.acks[p.sequence := ack]);
      }
      if c.order.Unordered? {
        c := c.(receipts := c.receipts + {p.sequence});
      } else {
        c := c.(nextRecv := Some(p.sequence + 1));
      }
      c := c.(recvPackets := c.recvPackets[p.sequence := PacketInfo(p, height, None)]);
      channels := channels[id := c];
      return Ok(());
    }

    /** An acknowledged or timed out packet: its commitment goes, and the count with it. */
    method DeletePacketCommitment(id: ChannelId, sequence: nat)
      requires id in channels
      modifies this
      ensures var c := old(channels)[id];
              channels == old(channels)[id := c.(commitments := c.commitments - {sequence})]
      ensures channels[id] == PacketSteps.DeleteCommitment(old(channels)[id], sequence)
      ensures packetCounter == old(packetCounter) - if old(packetCounter) == 0 then 0 else 1
    {
      var c := channels[id];
      channels := channels[id := c.(commitments := c.commitments - {sequence})];
      if packetCounter > 0 {
        packetCounter := packetCounter - 1;
      }
    }

    /** A whole cleanup cycle; `order` is the storage iterator's listing of the channels. */
    method PacketCleanup(order: seq<ChannelId>) returns (r: Result<nat, (CleanupError, nat)>)
      requires forall id :: id in order <==> id in channels
      requires forall i, j :: 0 <= i < j < |order| ==> order[i] != order[j]
      modifies this`channels
      ensures channels.Keys == old(channels).Keys
      ensures var cs := Listed(old(channels), order);
              && (forall i: nat :: i < |order| ==> channels[order[i]] == Sweep(cs)[i])
              && (r.Ok? <==> forall c :: c in cs ==> CutOf(c).Completed?)
              && (if r.Ok? then r.value else r.error.1) == SweepCount(cs)
    {
      hide CleanupChannel, RemovedCount, CutOf, Sweep, SweepCount, Visited;
      ghost var cs := Listed(channels, order);
      NoneVisited(channels, order);
      var removedCount := 0;
      var i: nat := 0;
      while i < |order|
        invariant i <= |order| && channels.Keys == old(channels).Keys
        invariant Visited(channels, order, cs, Sweep(cs), i)
        invariant Sweep(cs)[i..] == Sweep(cs[i..])
        invariant removedCount + SweepCount(cs[i..]) == SweepCount(cs)
        invariant forall j :: 0 <= j < i ==> CutOf(cs[j]).Completed?
      {
        SweepStep(cs, i);
        VisitOne(channels, order, cs, Sweep(cs), i);
        var channel, cleaned := CleanChannel(channels[order[i]]);
        channels := channels[order[i] := channel];
        if cleaned.Err? {
          AllVisited(channels, order, cs, Sweep(cs), i + 1);
          return Err((cleaned.error.0, removedCount + cleaned.error.1));
        }
        removedCount := removedCount + cleaned.value;
        i := i + 1;
      }
      AllVisited(channels, order, cs, Sweep(cs), i);
      EmptySweep(cs[i..]);
      return Ok(removedCount);
    }
  }

  lemma NoneVisited(channels: map<ChannelId, Channel>, order: seq<ChannelId>)
    requires forall id :: id in order ==> id in channels
    ensures var cs := Listed(channels, order);
            Visited(channels, order, cs, Sweep(cs), 0) && cs[0..] == cs && Sweep(cs)[0..] == Sweep(cs)
  {
    hide Sweep;
  }

  lemma EmptySweep(cs: seq<Channel>)
    ensures cs == [] ==> SweepCount(cs) == 0
  {
  }

  function Listed(channels: map<ChannelId, Channel>, order: seq<ChannelId>): seq<Channel>
    requires forall id :: id in order ==> id in channels
  {
    seq(|order|, i requires 0 <= i < |order| => channels[order[i]])
  }
}
