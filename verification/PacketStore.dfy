/** The pallet's per-channel packet storage, and what one `packet_cleanup` cycle does to it. */
module PacketStore {
  import opened Common
  import opened CleanupCycle

  type ChannelId = nat

  datatype Order = Ordered | Unordered

  datatype Packet = Packet(sequence: nat, data: Bytes, timeoutHeight: nat, timeoutTimestamp: nat)

  datatype PacketInfo = PacketInfo(packet: Packet, height: nat, ack: Option<Bytes>)

  /** Everything the pallet keeps for one (port, channel) key.  A commitment is represented by the packet it
      commits to and an acknowledgement commitment by the acknowledgement, that is, hashes do not collide.
      A missing sequence counter is `None`. */
  datatype Channel = Channel(
    idsDecode: bool,
    order: Order,
    open: bool,
    nextSend: Option<nat>,
    nextRecv: Option<nat>,
    nextAck: nat,
    commitments: map<nat, Packet>,
    sendPackets: map<nat, PacketInfo>,
    pendingSend: set<nat>,
    lastRemovedSend: nat,
    receipts: set<nat>,
    acks: map<nat, Bytes>,
    recvPackets: map<nat, PacketInfo>,
    rawAcks: map<nat, Bytes>,
    pendingRecv: set<nat>,
    lastRemovedAck: nat)

  function OrZero(n: Option<nat>): nat { if n.Some? then n.value else 0 }

  ghost function SendHalf(c: Channel): Half {
    Half(c.commitments.Keys, c.sendPackets.Keys, c.pendingSend, c.lastRemovedSend, OrZero(c.nextSend))
  }

  ghost function RecvHalf(c: Channel): Half {
    Half(c.acks.Keys, c.recvPackets.Keys, c.pendingRecv, c.lastRemovedAck, OrZero(c.nextRecv))
  }

  // ----- The effect of a cycle on one channel -----

  /** How far a cycle got on a channel before returning. */
  datatype Cut = NotReached | SendAborted | RecvAborted | Completed

  ghost function DropSends(c: Channel, gone: set<nat>): Channel {
    c.(sendPackets := c.sendPackets - gone)
  }

  ghost function DropRecvs(c: Channel, gone: set<nat>): Channel {
    c.(recvPackets := c.recvPackets - gone, rawAcks := c.rawAcks - gone)
  }

  ghost function CleanSend(c: Channel): Channel {
    var h := SendHalf(c);
    DropSends(c, Released(h) + Scanned(h))
    .(pendingSend := FullCycle(h).pending, lastRemovedSend := FullCycle(h).watermark)
  }

  ghost function CleanRecv(c: Channel): Channel {
    var h := RecvHalf(c);
    DropRecvs(c, Released(h) + Scanned(h))
    .(pendingRecv := FullCycle(h).pending, lastRemovedAck := FullCycle(h).watermark)
  }

  ghost function CleanupChannel(c: Channel, cut: Cut): Channel {
    match cut
    case NotReached => c
    case SendAborted => DropSends(c, Released(SendHalf(c)))
    case RecvAborted => DropRecvs(CleanSend(c), Released(RecvHalf(c)))
    case Completed => CleanRecv(CleanSend(c))
  }

  ghost function RemovedCount(c: Channel, cut: Cut): nat {
    var s, r := SendHalf(c), RecvHalf(c);
    match cut
    case NotReached => 0
    case SendAborted => Size(Released(s))
    case RecvAborted => Size(Released(s)) + Size(Scanned(s)) + Size(Released(r))
    case Completed => Size(Released(s)) + Size(Scanned(s)) + Size(Released(r)) + Size(Scanned(r))
  }

  /** On both halves of a channel the effect is that of the abstract cycle, and nothing else changes. */
  lemma CleanupIsHalfCycle(c: Channel, cut: Cut)
    ensures var c' := CleanupChannel(c, cut);
            && SendHalf(c') == (match cut
                                case NotReached => SendHalf(c)
                                case SendAborted => AbortedCycle(SendHalf(c))
                                case _ => FullCycle(SendHalf(c)))
            && RecvHalf(c') == (match cut
                                case Completed => FullCycle(RecvHalf(c))
                                case RecvAborted => AbortedCycle(RecvHalf(c))
                                case _ => RecvHalf(c))
            && c' == c.(sendPackets := c'.sendPackets, pendingSend := c'.pendingSend,
                        lastRemovedSend := c'.lastRemovedSend, recvPackets := c'.recvPackets,
                        rawAcks := c'.rawAcks, pendingRecv := c'.pendingRecv, lastRemovedAck := c'.lastRemovedAck)
  {
    var s, r := SendHalf(c), RecvHalf(c);
    assert (c.sendPackets - (Released(s) + Scanned(s))).Keys == s.stored - Released(s) - Scanned(s);
    assert (c.sendPackets - Released(s)).Keys == s.stored - Released(s);
    assert (c.recvPackets - (Released(r) + Scanned(r))).Keys == r.stored - Released(r) - Scanned(r);
    assert (c.recvPackets - Released(r)).Keys == r.stored - Released(r);
    assert RecvHalf(CleanSend(c)) == r;
  }

  // ----- What the count counts -----

  ghost function Lost(before: Half, after: Half): nat { |before.stored - after.stored| }

  /** The number of packets a cycle really drops on a channel. */
  ghost function DroppedCount(c: Channel, cut: Cut): nat {
    var c' := CleanupChannel(c, cut);
    Lost(SendHalf(c), SendHalf(c')) + Lost(RecvHalf(c), RecvHalf(c'))
  }

  /** On the halves the cycle gets to, everything it retries and finds settled is still stored. */
  ghost predicate RetriesStored(c: Channel, cut: Cut) {
    && (cut != NotReached ==> Released(SendHalf(c)) <= SendHalf(c).stored)
    && (cut == RecvAborted || cut == Completed ==> Released(RecvHalf(c)) <= RecvHalf(c).stored)
  }

  lemma LostToNothing(h: Half)
    ensures Lost(h, h) == 0
  {
    assert h.stored - h.stored == {};
  }

  lemma LostToAbort(h: Half)
    ensures Size(Released(h)) >= Lost(h, AbortedCycle(h))
    ensures Size(Released(h)) == Lost(h, AbortedCycle(h)) <==> Released(h) <= h.stored
  {
    SizeIsCardinality(Released(h));
    assert h.stored - AbortedCycle(h).stored == Released(h) * h.stored;
    SubsetSize(Released(h) * h.stored, Released(h));
  }

  lemma DisjointSize<T>(a: set<T>, b: set<T>)
    requires a !! b
    ensures |a + b| == |a| + |b|
  {
  }

  lemma LostToCycle(h: Half)
    ensures Lost(h, FullCycle(h)) == Lost(h, AbortedCycle(h)) + Size(Scanned(h))
  {
    var retried := Released(h) * h.stored;
    assert h.stored - AbortedCycle(h).stored == retried;
    assert h.stored - FullCycle(h).stored == retried + Scanned(h);
    assert retried !! Scanned(h);
    hide Released, Scanned, AbortedCycle, FullCycle;
    SizeIsCardinality(Scanned(h));
    DisjointSize(retried, Scanned(h));
  }

  /** The cycle counts at least what it drops, and more exactly when an earlier, aborted one left something on the
      pending list whose packet it had already dropped. */
  lemma CountIff(c: Channel, cut: Cut)
    ensures RemovedCount(c, cut) >= DroppedCount(c, cut)
    ensures RemovedCount(c, cut) == DroppedCount(c, cut) <==> RetriesStored(c, cut)
  {
    hide CleanupChannel, Released, Scanned, FullCycle, AbortedCycle, Lost, SendHalf, RecvHalf;
    CleanupIsHalfCycle(c, cut);
    var s, r := SendHalf(c), RecvHalf(c);
    LostToNothing(s);
    LostToNothing(r);
    LostToAbort(s);
    LostToAbort(r);
    LostToCycle(s);
    LostToCycle(r);
  }

  lemma AbortReleasesAgain(h: Half)
    ensures Released(AbortedCycle(h)) <= AbortedCycle(h).stored <==> Released(h) == {}
  {
  }

  /** After a cycle aborted in its send half, the next one, however far it gets, counts exactly if and only if the aborted
      one had nothing to release and, where it gets to the receive half, what it retries there is still stored. */
  lemma CountAfterSendAbortIff(c: Channel, next: Cut)
    requires next != NotReached
    ensures var c' := CleanupChannel(c, SendAborted);
            RemovedCount(c', next) == DroppedCount(c', next)
            <==> && Released(SendHalf(c)) == {}
                 && (next != SendAborted ==> Released(RecvHalf(c)) <= RecvHalf(c).stored)
  {
    hide CleanupChannel, RemovedCount, DroppedCount, Released, AbortedCycle;
    CleanupIsHalfCycle(c, SendAborted);
    CountIff(CleanupChannel(c, SendAborted), next);
    AbortReleasesAgain(SendHalf(c));
  }

  /** After one aborted in its receive half, a next one that fails earlier counts exactly, and one that gets there does if
      and only if the aborted one had nothing to release there. */
  lemma CountAfterRecvAbortIff(c: Channel, next: Cut)
    requires next != NotReached
    ensures var c' := CleanupChannel(c, RecvAborted);
            RemovedCount(c', next) == DroppedCount(c', next) <==> next == SendAborted || Released(RecvHalf(c)) == {}
  {
    hide CleanupChannel, RemovedCount, DroppedCount, AbortedCycle, FullCycle, Released;
    CleanupIsHalfCycle(c, RecvAborted);
    CountIff(CleanupChannel(c, RecvAborted), next);
    AbortReleasesAgain(RecvHalf(c));
    NothingReleased(SendHalf(c));
  }
}
