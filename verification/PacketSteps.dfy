/** One end of a channel, and what the packet messages of ICS-04 and a cleanup cycle do to it. */
module PacketSteps {
  import opened Common
  import opened CleanupCycle
  import opened PacketStore

  /** History of one end, for stating properties of runs: what it sent and in which block, in which block it received
      what and which acknowledgement it wrote for it, all acknowledgements ever filed under its key, how each commitment
      was settled, with which acknowledgement if it was acknowledged, and which packets cleanup removed from either
      half. */
  datatype Log = Log(sent: map<nat, Packet>, sentAt: map<nat, nat>, receivedAt: map<nat, nat>, written: map<nat, Bytes>,
                     filed: map<nat, set<Bytes>>, acked: map<nat, Bytes>, timedOut: set<nat>,
                     removedSend: set<nat>, removedRecv: set<nat>)

  /** One more acknowledgement filed for a sequence. */
  function AddFiled(filed: map<nat, set<Bytes>>, sequence: nat, ack: Bytes): map<nat, set<Bytes>> {
    filed[sequence := (if sequence in filed then filed[sequence] else {}) + {ack}]
  }

  datatype Endpoint = Endpoint(store: Channel, log: Log)

  /** A freshly opened channel. */
  function Opened(order: Order): Endpoint {
    Endpoint(
      Channel(true, order, true, Some(1), Some(1), 1, map[], map[], {}, 0, {}, map[], map[], map[], {}, 0),
      Log(map[], map[], map[], map[], map[], map[], {}, {}, {}))
  }

  /** The packet's timeout has passed at a height and timestamp of the destination chain; zero means none. */
  predicate Expired(p: Packet, height: nat, timestamp: nat) {
    || (p.timeoutHeight != 0 && p.timeoutHeight <= height)
    || (p.timeoutTimestamp != 0 && p.timeoutTimestamp <= timestamp)
  }

  // ----- What the handlers store -----

  function StoreSend(c: Channel, p: Packet, height: nat): Channel {
    c.(nextSend := Some(p.sequence + 1),
       commitments := c.commitments[p.sequence := p],
       sendPackets := c.sendPackets[p.sequence := PacketInfo(p, height, None)])
  }

  /** The acknowledgement and its bytes, whatever was there before. */
  function FileAck(c: Channel, sequence: nat, ack: Bytes): Channel {
    c.(acks := c.acks[sequence := ack], rawAcks := c.rawAcks[sequence := ack])
  }

  /** What a received packet leaves under the key of the channel it was received on: the acknowledgement, the receipt
      or the next sequence, and the packet. */
  function StoreRecv(c: Channel, p: Packet, ack: Bytes, height: nat): Channel {
    var s := p.sequence;
    FileAck(c, s, ack)
    .(receipts := if c.order.Unordered? then c.receipts + {s} else c.receipts,
      nextRecv := if c.order.Unordered? then c.nextRecv else Some(s + 1),
      recvPackets := c.recvPackets[s := PacketInfo(p, height, None)])
  }

  function DeleteCommitment(c: Channel, sequence: nat): Channel {
    c.(commitments := c.commitments - {sequence})
  }

  const U32_MAX: nat := 0xFFFF_FFFF

  /** A counter increment that would overflow is not written. */
  function CheckedAdd(counter: nat): nat { if counter < U32_MAX then counter + 1 else counter }

  function CheckedSub(counter: nat): nat { if counter > 0 then counter - 1 else counter }

  // ----- Steps; a step whose handler refuses the message changes nothing -----

  function Send(e: Endpoint, data: Bytes, timeoutHeight: nat, timeoutTimestamp: nat, height: nat): Endpoint {
    if !e.store.open || e.store.nextSend.None? then e
    else
      var p := Packet(e.store.nextSend.value, data, timeoutHeight, timeoutTimestamp);
      Endpoint(StoreSend(e.store, p, height),
               e.log.(sent := e.log.sent[p.sequence := p], sentAt := e.log.sentAt[p.sequence := height]))
  }

  /** `peer` is the sending end; a proof that it committed to the packet may stem from any earlier height.  The
      callback refuses to write an empty acknowledgement, or one where there is one already. */
  predicate CanRecv(e: Endpoint, peer: Endpoint, p: Packet, ack: Bytes, height: nat, timestamp: nat) {
    && e.store.open
    && !Expired(p, height, timestamp)
    && p.sequence in peer.log.sent && peer.log.sent[p.sequence] == p
    && (match e.store.order
        case Unordered => p.sequence !in e.store.receipts
        case Ordered => e.store.nextRecv == Some(p.sequence))
    && p.sequence !in e.store.acks
    && ack != []
  }

  function Recv(e: Endpoint, peer: Endpoint, p: Packet, ack: Bytes, height: nat, timestamp: nat): Endpoint {
    if !CanRecv(e, peer, p, ack, height, timestamp) then e
    else
      Endpoint(StoreRecv(e.store, p, ack, height),
               e.log.(receivedAt := e.log.receivedAt[p.sequence := height], written := e.log.written[p.sequence := ack],
                      filed := AddFiled(e.log.filed, p.sequence, ack)))
  }

  /** An acknowledgement that the receipt of a packet on another channel files under this channel's key. */
  function Misfile(e: Endpoint, sequence: nat, ack: Bytes): Endpoint {
    Endpoint(FileAck(e.store, sequence, ack), e.log.(filed := AddFiled(e.log.filed, sequence, ack)))
  }

  /** `peer` is the receiving end; a proof of an acknowledgement under its key may stem from any earlier height. */
  predicate CanAck(e: Endpoint, peer: Endpoint, p: Packet, ack: Bytes) {
    && e.store.open
    && p.sequence in e.store.commitments && e.store.commitments[p.sequence] == p
    && p.sequence in peer.log.filed && ack in peer.log.filed[p.sequence]
    && (e.store.order.Ordered? ==> p.sequence == e.store.nextAck)
  }

  function Ack(e: Endpoint, peer: Endpoint, p: Packet, ack: Bytes): Endpoint {
    if !CanAck(e, peer, p, ack) then e
    else
      var c := DeleteCommitment(e.store, p.sequence);
      Endpoint(c.(nextAck := if c.order.Ordered? then c.nextAck + 1 else c.nextAck),
               e.log.(acked := e.log.acked[p.sequence := ack]))
  }

  /** The timeout has passed on the peer at `proofHeight`, and the packet had not been received there by then. */
  predicate CanTimeout(e: Endpoint, peer: Endpoint, p: Packet, proofHeight: nat, peerBlocks: seq<nat>) {
    && e.store.open
    && p.sequence in e.store.commitments && e.store.commitments[p.sequence] == p
    && proofHeight < |peerBlocks|
    && Expired(p, proofHeight, peerBlocks[proofHeight])
    && (p.sequence in peer.log.receivedAt ==> peer.log.receivedAt[p.sequence] > proofHeight)
  }

  /** On an ordered channel a timeout closes the channel. */
  function Timeout(e: Endpoint, peer: Endpoint, p: Packet, proofHeight: nat, peerBlocks: seq<nat>): Endpoint {
    if !CanTimeout(e, peer, p, proofHeight, peerBlocks) then e
    else
      var c := DeleteCommitment(e.store, p.sequence);
      Endpoint(c.(open := c.open && c.order.Unordered?), e.log.(timedOut := e.log.timedOut + {p.sequence}))
  }

  function PruneAck(e: Endpoint, sequence: nat): Endpoint {
    e.(store := e.store.(acks := e.store.acks - {sequence}))
  }

  ghost function Cleanup(e: Endpoint, cut: Cut): Endpoint {
    var c := CleanupChannel(e.store, cut);
    Endpoint(c, e.log.(removedSend := e.log.removedSend + (e.store.sendPackets.Keys - c.sendPackets.Keys),
                       removedRecv := e.log.removedRecv + (e.store.recvPackets.Keys - c.recvPackets.Keys)))
  }

  // ----- Invariants of one end -----

  /** Every sent packet is in exactly one of three states, in flight its packet is on hand, and what is stored of it is
      the packet with the height it was sent at.  On an ordered channel acknowledgements are taken in order. */
  ghost predicate SenderOk(e: Endpoint) {
    var c, log := e.store, e.log;
    && c.nextSend.Some? && c.nextSend.value >= 1
    && (forall s :: s in log.sent <==> 1 <= s < c.nextSend.value)
    && (forall s :: s in log.sent ==> log.sent[s].sequence == s && s in log.sentAt)
    && (forall s :: s in c.sendPackets ==>
          s in log.sent && s in log.sentAt && c.sendPackets[s] == PacketInfo(log.sent[s], log.sentAt[s], None))
    && (forall s :: s in c.commitments ==> s in log.sent && c.commitments[s] == log.sent[s] && s in c.sendPackets)
    && (forall s :: s in log.sent ==> s in c.commitments || s in log.acked || s in log.timedOut)
    && (forall s :: s in log.acked ==> s in log.sent && s !in c.commitments && s !in log.timedOut)
    && (forall s :: s in log.timedOut ==> s in log.sent && s !in c.commitments)
    && AckOrder(e)
  }

  /** The next acknowledgement sequence counts the acknowledgements taken on an ordered channel. */
  ghost predicate AckOrder(e: Endpoint) {
    match e.store.order
    case Unordered => e.store.nextAck == 1
    case Ordered => e.store.nextAck >= 1 && forall s :: s in e.log.acked <==> 1 <= s < e.store.nextAck
  }

  /** Receipts and the next sequence say what was received. */
  ghost predicate ReceiverOk(e: Endpoint) {
    var c, log := e.store, e.log;
    && c.nextRecv.Some?
    && (match c.order
        case Unordered => c.nextRecv == Some(1) && c.receipts == log.receivedAt.Keys
        case Ordered => forall s :: s in log.receivedAt <==> 1 <= s < c.nextRecv.value)
    && (c.order.Ordered? ==> c.nextRecv.value >= 1)
  }

  /** Only received packets were ever acknowledged, with the acknowledgement written on receipt, and every acknowledgement
      still has its packet and its raw bytes on hand.  True as long as nothing is misfiled under this key. */
  ghost predicate AcksOk(e: Endpoint) {
    var c, log := e.store, e.log;
    && log.filed.Keys == log.receivedAt.Keys == log.written.Keys
    && (forall s :: s in log.filed ==> log.filed[s] == {log.written[s]})
    && c.rawAcks.Keys == c.recvPackets.Keys
    && (forall s :: s in c.acks ==>
          && s in log.receivedAt && c.acks[s] == log.written[s]
          && s in c.recvPackets && c.rawAcks[s] == c.acks[s])
  }

  ghost predicate Monotone(blocks: seq<nat>) {
    |blocks| > 0 && forall i, j :: 0 <= i <= j < |blocks| ==> blocks[i] <= blocks[j]
  }

  /** From sender `x` to receiver `y`: what `y` received was sent and not expired; what timed out was not received and
      never will be. */
  ghost predicate Delivery(x: Endpoint, y: Endpoint, yBlocks: seq<nat>) {
    && (forall s :: s in y.log.receivedAt ==>
          && s in x.log.sent
          && y.log.receivedAt[s] < |yBlocks|
          && !Expired(x.log.sent[s], y.log.receivedAt[s], yBlocks[y.log.receivedAt[s]]))
    && (forall s :: s in x.log.timedOut ==>
          && s !in y.log.receivedAt
          && s in x.log.sent
          && |yBlocks| > 0
          && Expired(x.log.sent[s], |yBlocks| - 1, yBlocks[|yBlocks| - 1]))
  }

  /** What `y` has stored of a received packet is what `x` sent, with the height it was received at. */
  ghost predicate StoredOk(x: Endpoint, y: Endpoint) {
    forall s :: s in y.store.recvPackets ==>
      && s in x.log.sent && s in y.log.receivedAt
      && y.store.recvPackets[s] == PacketInfo(x.log.sent[s], y.log.receivedAt[s], None)
  }

  /** What `x` took as an acknowledgement is what `y` wrote when it received the packet. */
  ghost predicate AckedOk(x: Endpoint, y: Endpoint) {
    forall s :: s in x.log.acked ==> s in y.log.receivedAt && s in y.log.written && x.log.acked[s] == y.log.written[s]
  }

  /** One direction of a channel; `clean` when nothing is misfiled under the receiver's key. */
  ghost predicate Flow(x: Endpoint, y: Endpoint, yBlocks: seq<nat>, clean: bool) {
    && SenderOk(x) && ReceiverOk(y) && Delivery(x, y, yBlocks) && StoredOk(x, y)
    && (clean ==> AcksOk(y) && AckedOk(x, y))
  }

  /** Both directions; `xClean` and `yClean` are about the keys of `x` and `y`. */
  ghost predicate LinkOk(x: Endpoint, y: Endpoint, xBlocks: seq<nat>, yBlocks: seq<nat>, xClean: bool, yClean: bool) {
    Flow(x, y, yBlocks, yClean) && Flow(y, x, xBlocks, xClean) && x.store.order == y.store.order
  }

  // ----- What a step leaves alone -----

  ghost predicate SameSendSide(e: Endpoint, e': Endpoint) {
    && e'.store.nextSend == e.store.nextSend && e'.store.commitments == e.store.commitments
    && e'.store.sendPackets == e.store.sendPackets
    && e'.store.nextAck == e.store.nextAck && e'.store.order == e.store.order
    && e'.log.sent == e.log.sent && e'.log.sentAt == e.log.sentAt
    && e'.log.acked == e.log.acked && e'.log.timedOut == e.log.timedOut
  }

  ghost predicate SameRecvSide(e: Endpoint, e': Endpoint) {
    && e'.store.order == e.store.order && e'.store.nextRecv == e.store.nextRecv
    && e'.store.receipts == e.store.receipts && e'.store.acks == e.store.acks
    && e'.store.recvPackets == e.store.recvPackets && e'.store.rawAcks == e.store.rawAcks
    && e'.log.receivedAt == e.log.receivedAt && e'.log.filed == e.log.filed && e'.log.written == e.log.written
  }

  lemma SameSender(x: Endpoint, x': Endpoint, y: Endpoint, yb: seq<nat>, clean: bool)
    requires Flow(x, y, yb, clean) && SameSendSide(x, x')
    ensures Flow(x', y, yb, clean)
  {
  }

  lemma SameReceiver(x: Endpoint, y: Endpoint, y': Endpoint, yb: seq<nat>, clean: bool)
    requires Flow(x, y, yb, clean) && SameRecvSide(y, y')
    ensures Flow(x, y', yb, clean)
  {
  }

  /** A step of the sending side. */
  lemma LinkAfterSending(x: Endpoint, x': Endpoint, y: Endpoint, xb: seq<nat>, yb: seq<nat>, cx: bool, cy: bool)
    requires LinkOk(x, y, xb, yb, cx, cy) && Flow(x', y, yb, cy) && SameRecvSide(x, x')
    ensures LinkOk(x', y, xb, yb, cx, cy)
  {
    hide Flow;
    SameReceiver(y, x, x', xb, cx);
  }

  /** A step of the receiving side. */
  lemma LinkAfterReceiving(x: Endpoint, x': Endpoint, y: Endpoint, xb: seq<nat>, yb: seq<nat>, cx: bool, cy: bool)
    requires LinkOk(x, y, xb, yb, cx, cy) && Flow(y, x', xb, cx) && SameSendSide(x, x')
    ensures LinkOk(x', y, xb, yb, cx, cy)
  {
    hide Flow;
    SameSender(x, x', y, yb, cy);
  }

  // ----- Every step keeps them -----

  lemma SendKeepsSender(x: Endpoint, data: Bytes, th: nat, tt: nat, height: nat)
    requires SenderOk(x)
    ensures SenderOk(Send(x, data, th, tt, height))
  {
    assert AckOrder(Send(x, data, th, tt, height));
    hide AckOrder;
  }

  /** More packets sent change nothing for those sent before. */
  lemma MoreSent(x: Endpoint, x': Endpoint, y: Endpoint, yb: seq<nat>, clean: bool)
    requires Flow(x, y, yb, clean) && SenderOk(x') && x'.log.acked == x.log.acked && x'.log.timedOut == x.log.timedOut
    requires forall s :: s in x.log.sent ==> s in x'.log.sent && x'.log.sent[s] == x.log.sent[s]
    ensures Flow(x', y, yb, clean)
  {
    hide SenderOk, ReceiverOk, AcksOk;
  }

  lemma SendFlows(x: Endpoint, y: Endpoint, yb: seq<nat>, cy: bool, data: Bytes, th: nat, tt: nat, height: nat)
    requires Flow(x, y, yb, cy)
    ensures Flow(Send(x, data, th, tt, height), y, yb, cy)
  {
    hide ReceiverOk, AcksOk, Delivery, StoredOk, AckedOk, AckOrder;
    SendKeepsSender(x, data, th, tt, height);
    MoreSent(x, Send(x, data, th, tt, height), y, yb, cy);
  }

  lemma SendKeeps(x: Endpoint, y: Endpoint, xb: seq<nat>, yb: seq<nat>, cx: bool, cy: bool,
                  data: Bytes, th: nat, tt: nat, height: nat)
    requires LinkOk(x, y, xb, yb, cx, cy)
    ensures LinkOk(Send(x, data, th, tt, height), y, xb, yb, cx, cy)
  {
    hide Flow;
    SendFlows(x, y, yb, cy, data, th, tt, height);
    LinkAfterSending(x, Send(x, data, th, tt, height), y, xb, yb, cx, cy);
  }

  lemma RecvKeepsReceiver(x: Endpoint, y: Endpoint, p: Packet, ack: Bytes, height: nat, timestamp: nat)
    requires ReceiverOk(x) && SenderOk(y)
    ensures ReceiverOk(Recv(x, y, p, ack, height, timestamp))
    ensures CanRecv(x, y, p, ack, height, timestamp) ==> p.sequence !in x.log.receivedAt
  {
  }

  lemma RecvKeepsAcks(x: Endpoint, y: Endpoint, p: Packet, ack: Bytes, height: nat, timestamp: nat)
    requires AcksOk(x) && (CanRecv(x, y, p, ack, height, timestamp) ==> p.sequence !in x.log.receivedAt)
    ensures AcksOk(Recv(x, y, p, ack, height, timestamp))
  {
    var x' := Recv(x, y, p, ack, height, timestamp);
    if CanRecv(x, y, p, ack, height, timestamp) {
      assert x'.log.filed[p.sequence] == {ack};
      assert x'.store.rawAcks.Keys == x.store.rawAcks.Keys + {p.sequence};
      assert x'.store.recvPackets.Keys == x.store.recvPackets.Keys + {p.sequence};
    }
  }

  lemma RecvKeepsDelivery(x: Endpoint, y: Endpoint, xb: seq<nat>, p: Packet, ack: Bytes)
    requires Delivery(y, x, xb) && |xb| > 0
    ensures Delivery(y, Recv(x, y, p, ack, |xb| - 1, xb[|xb| - 1]), xb)
  {
  }

  lemma RecvKeepsStored(x: Endpoint, y: Endpoint, p: Packet, ack: Bytes, height: nat, timestamp: nat)
    requires StoredOk(y, x) && (CanRecv(x, y, p, ack, height, timestamp) ==> p.sequence !in x.log.receivedAt)
    ensures StoredOk(y, Recv(x, y, p, ack, height, timestamp))
    ensures AckedOk(y, x) ==> AckedOk(y, Recv(x, y, p, ack, height, timestamp))
  {
  }

  lemma RecvKeeps(x: Endpoint, y: Endpoint, xb: seq<nat>, yb: seq<nat>, cx: bool, cy: bool, p: Packet, ack: Bytes, x': Endpoint)
    requires LinkOk(x, y, xb, yb, cx, cy) && |xb| > 0
    requires x' == Recv(x, y, p, ack, |xb| - 1, xb[|xb| - 1])
    ensures LinkOk(x', y, xb, yb, cx, cy)
  {
    hide SenderOk, ReceiverOk, AcksOk, AckedOk, StoredOk, Delivery;
    RecvKeepsReceiver(x, y, p, ack, |xb| - 1, xb[|xb| - 1]);
    if cx { RecvKeepsAcks(x, y, p, ack, |xb| - 1, xb[|xb| - 1]); }
    RecvKeepsDelivery(x, y, xb, p, ack);
    RecvKeepsStored(x, y, p, ack, |xb| - 1, xb[|xb| - 1]);
    LinkAfterReceiving(x, x', y, xb, yb, cx, cy);
  }

  /** A misfiled acknowledgement does no harm except under the key it is filed under. */
  lemma MisfileKeeps(x: Endpoint, y: Endpoint, xb: seq<nat>, yb: seq<nat>, cy: bool, sequence: nat, ack: Bytes)
    requires LinkOk(x, y, xb, yb, false, cy)
    ensures LinkOk(Misfile(x, sequence, ack), y, xb, yb, false, cy)
  {
    hide SenderOk;
    LinkAfterReceiving(x, Misfile(x, sequence, ack), y, xb, yb, false, cy);
  }

  lemma AckKeepsOrder(x: Endpoint, y: Endpoint, p: Packet, ack: Bytes)
    requires AckOrder(x)
    ensures AckOrder(Ack(x, y, p, ack))
  {
  }

  lemma AckKeepsSender(x: Endpoint, y: Endpoint, p: Packet, ack: Bytes)
    requires SenderOk(x)
    ensures SenderOk(Ack(x, y, p, ack))
  {
    hide AckOrder;
    AckKeepsOrder(x, y, p, ack);
  }

  lemma AckKeepsAcked(x: Endpoint, y: Endpoint, p: Packet, ack: Bytes)
    requires AcksOk(y) && AckedOk(x, y)
    ensures AckedOk(Ack(x, y, p, ack), y)
  {
  }

  lemma AckKeepsDelivery(x: Endpoint, y: Endpoint, yb: seq<nat>, p: Packet, ack: Bytes)
    requires Delivery(x, y, yb) && StoredOk(x, y)
    ensures Delivery(Ack(x, y, p, ack), y, yb) && StoredOk(Ack(x, y, p, ack), y)
  {
  }

  lemma AckFlows(x: Endpoint, y: Endpoint, yb: seq<nat>, cy: bool, p: Packet, ack: Bytes)
    requires Flow(x, y, yb, cy)
    ensures Flow(Ack(x, y, p, ack), y, yb, cy)
  {
    hide SenderOk, ReceiverOk, AcksOk, AckedOk, StoredOk, Delivery, Ack;
    AckKeepsSender(x, y, p, ack);
    AckKeepsDelivery(x, y, yb, p, ack);
    if cy { AckKeepsAcked(x, y, p, ack); }
  }

  lemma AckKeeps(x: Endpoint, y: Endpoint, xb: seq<nat>, yb: seq<nat>, cx: bool, cy: bool, p: Packet, ack: Bytes)
    requires LinkOk(x, y, xb, yb, cx, cy)
    ensures LinkOk(Ack(x, y, p, ack), y, xb, yb, cx, cy)
  {
    hide Flow;
    AckFlows(x, y, yb, cy, p, ack);
    LinkAfterSending(x, Ack(x, y, p, ack), y, xb, yb, cx, cy);
  }

  lemma TimeoutKeepsSender(x: Endpoint, y: Endpoint, yb: seq<nat>, p: Packet, h: nat)
    requires SenderOk(x)
    ensures SenderOk(Timeout(x, y, p, h, yb))
  {
    assert AckOrder(Timeout(x, y, p, h, yb));
    hide AckOrder, Expired;
  }

  /** Had the packet been received, it would have been before its timeout, hence before the proof height. */
  lemma TimeoutKeepsDelivery(x: Endpoint, y: Endpoint, yb: seq<nat>, p: Packet, h: nat)
    requires SenderOk(x) && Delivery(x, y, yb) && Monotone(yb)
    ensures Delivery(Timeout(x, y, p, h, yb), y, yb)
  {
    if CanTimeout(x, y, p, h, yb) {
      assert x.log.sent[p.sequence] == p;
      assert p.sequence !in y.log.receivedAt;
      assert Expired(p, |yb| - 1, yb[|yb| - 1]);
    }
  }

  lemma TimeoutKeepsStored(x: Endpoint, y: Endpoint, p: Packet, h: nat, yb: seq<nat>)
    ensures StoredOk(x, y) ==> StoredOk(Timeout(x, y, p, h, yb), y)
    ensures AckedOk(x, y) ==> AckedOk(Timeout(x, y, p, h, yb), y)
  {
  }

  lemma TimeoutKeeps(x: Endpoint, y: Endpoint, xb: seq<nat>, yb: seq<nat>, cx: bool, cy: bool, p: Packet, h: nat)
    requires LinkOk(x, y, xb, yb, cx, cy) && Monotone(yb)
    ensures LinkOk(Timeout(x, y, p, h, yb), y, xb, yb, cx, cy)
  {
    hide SenderOk, ReceiverOk, AcksOk, AckedOk, StoredOk, Delivery, Monotone;
    TimeoutKeepsSender(x, y, yb, p, h);
    TimeoutKeepsDelivery(x, y, yb, p, h);
    TimeoutKeepsStored(x, y, p, h, yb);
    LinkAfterSending(x, Timeout(x, y, p, h, yb), y, xb, yb, cx, cy);
  }

  lemma PruneKeepsAcks(x: Endpoint, sequence: nat)
    ensures AcksOk(x) ==> AcksOk(PruneAck(x, sequence))
    ensures ReceiverOk(x) ==> ReceiverOk(PruneAck(x, sequence))
  {
  }

  lemma PruneKeeps(x: Endpoint, y: Endpoint, xb: seq<nat>, yb: seq<nat>, cx: bool, cy: bool, sequence: nat)
    requires LinkOk(x, y, xb, yb, cx, cy)
    ensures LinkOk(PruneAck(x, sequence), y, xb, yb, cx, cy)
  {
    hide SenderOk, ReceiverOk, AcksOk;
    PruneKeepsAcks(x, sequence);
    LinkAfterReceiving(x, PruneAck(x, sequence), y, xb, yb, cx, cy);
  }

  /** Cleanup only drops packets that are neither committed to nor acknowledged, leaves the others as they are, and drops
      the raw acknowledgements with the received packets. */
  lemma CleanupDropsGarbage(c: Channel, cut: Cut)
    ensures var c' := CleanupChannel(c, cut);
            && (forall s :: s in c.sendPackets && s in c.commitments ==> s in c'.sendPackets)
            && (forall s :: s in c.recvPackets && s in c.acks ==> s in c'.recvPackets)
            && (forall s :: s in c.rawAcks && s in c.acks ==> s in c'.rawAcks)
            && (forall s :: s in c'.sendPackets ==> s in c.sendPackets && c'.sendPackets[s] == c.sendPackets[s])
            && (forall s :: s in c'.recvPackets ==> s in c.recvPackets && c'.recvPackets[s] == c.recvPackets[s])
            && (forall s :: s in c'.rawAcks ==> s in c.rawAcks && c'.rawAcks[s] == c.rawAcks[s])
            && (c.rawAcks.Keys == c.recvPackets.Keys ==> c'.rawAcks.Keys == c'.recvPackets.Keys)
            && c' == c.(sendPackets := c'.sendPackets, recvPackets := c'.recvPackets, rawAcks := c'.rawAcks,
                        pendingSend := c'.pendingSend, lastRemovedSend := c'.lastRemovedSend,
                        pendingRecv := c'.pendingRecv, lastRemovedAck := c'.lastRemovedAck)
  {
    hide Released, Scanned, FullCycle;
    DropsNothingLive(SendHalf(c));
    DropsNothingLive(RecvHalf(c));
    assert RecvHalf(CleanSend(c)) == RecvHalf(c);
  }

  lemma CleanupKeepsSender(x: Endpoint, cut: Cut)
    ensures SenderOk(x) ==> SenderOk(Cleanup(x, cut))
  {
    hide CleanupChannel;
    CleanupDropsGarbage(x.store, cut);
  }

  lemma CleanupKeepsReceiver(x: Endpoint, cut: Cut)
    ensures ReceiverOk(x) ==> ReceiverOk(Cleanup(x, cut))
    ensures AcksOk(x) ==> AcksOk(Cleanup(x, cut))
  {
    hide CleanupChannel;
    CleanupDropsGarbage(x.store, cut);
  }

  lemma CleanupKeeps(x: Endpoint, y: Endpoint, xb: seq<nat>, yb: seq<nat>, cx: bool, cy: bool, cut: Cut)
    requires LinkOk(x, y, xb, yb, cx, cy)
    ensures LinkOk(Cleanup(x, cut), y, xb, yb, cx, cy)
  {
    hide CleanupChannel, SenderOk, ReceiverOk, AcksOk, Delivery;
    CleanupKeepsSender(x, cut);
    CleanupKeepsReceiver(x, cut);
    CleanupDropsGarbage(x.store, cut);
    CleanupKeepsDelivery(x, y, xb, yb, cut);
  }

  lemma CleanupKeepsDelivery(x: Endpoint, y: Endpoint, xb: seq<nat>, yb: seq<nat>, cut: Cut)
    ensures Delivery(x, y, yb) ==> Delivery(Cleanup(x, cut), y, yb)
    ensures Delivery(y, x, xb) ==> Delivery(y, Cleanup(x, cut), xb)
  {
    hide CleanupChannel;
  }

  lemma BlockKeeps(x: Endpoint, y: Endpoint, xb: seq<nat>, yb: seq<nat>, cx: bool, cy: bool, timestamp: nat)
    requires LinkOk(x, y, xb, yb, cx, cy) && Monotone(xb) && xb[|xb| - 1] <= timestamp
    ensures LinkOk(x, y, xb + [timestamp], yb, cx, cy)
  {
    hide SenderOk, ReceiverOk, AcksOk, AckedOk, StoredOk;
  }

  // ----- Both halves of an end run the cleanup machine -----

  /** Cleanup has looked at everything below some frontier; and, where every live sequence was stored when it became
      live, the half is in a state of the machine with exactly these packets removed. */
  ghost predicate Tidy(h: Half, removed: set<nat>, dense: bool, clean: bool) {
    exists u: nat :: Covered(h, u) && (clean ==> Inv(Tracked(h, removed, dense), u))
  }

  ghost predicate TidyEnd(e: Endpoint, clean: bool) {
    && Tidy(SendHalf(e.store), e.log.removedSend, true, true)
    && Tidy(RecvHalf(e.store), e.log.removedRecv, e.store.order.Ordered?, clean)
  }

  lemma TidyAct(t: Tracked, clean: bool, a: Action)
    requires Tidy(t.half, t.removed, t.dense, clean)
    ensures Tidy(Act(t, a).half, Act(t, a).removed, t.dense, clean)
  {
    var u: nat :| Covered(t.half, u) && (clean ==> Inv(t, u));
    var u' := if a.Cycle? then NextFrontier(t.half, u) else u;
    CycleKeepsCovered(t.half, u);
    if clean {
      match a {
        case Cycle => CycleKeepsInv(t, u);
        case Abort => AbortKeepsInv(t, u);
        case _ => FillKeepsInv(t, u, a);
      }
    }
    assert Covered(Act(t, a).half, u');
    assert Act(t, a) == Tracked(Act(t, a).half, Act(t, a).removed, t.dense);
  }

  ghost function SendTrack(e: Endpoint): Tracked { Tracked(SendHalf(e.store), e.log.removedSend, true) }

  ghost function RecvTrack(e: Endpoint): Tracked {
    Tracked(RecvHalf(e.store), e.log.removedRecv, e.store.order.Ordered?)
  }

  lemma TidySend(e: Endpoint, clean: bool, data: Bytes, th: nat, tt: nat, height: nat)
    requires TidyEnd(e, clean)
    ensures TidyEnd(Send(e, data, th, tt, height), clean)
  {
    hide Tidy;
    TidyAct(SendTrack(e), true, Append);
    if e.store.open && e.store.nextSend.Some? {
      var e' := Send(e, data, th, tt, height);
      assert SendHalf(e'.store) == Act(SendTrack(e), Append).half;
      assert RecvHalf(e'.store) == RecvHalf(e.store);
    }
  }

  /** What a receive stores, as far as cleanup is concerned. */
  lemma StoreRecvHalf(c: Channel, p: Packet, ack: Bytes, height: nat)
    ensures var h, h' := RecvHalf(c), RecvHalf(StoreRecv(c, p, ack, height));
            h' == h.(live := h.live + {p.sequence}, stored := h.stored + {p.sequence},
                     next := if c.order.Unordered? then h.next else p.sequence + 1)
  {
  }

  lemma RecvIsFill(e: Endpoint, peer: Endpoint, p: Packet, ack: Bytes, height: nat, timestamp: nat)
    requires ReceiverOk(e) && p.sequence >= 1 && CanRecv(e, peer, p, ack, height, timestamp)
    ensures RecvTrack(Recv(e, peer, p, ack, height, timestamp))
            == Act(RecvTrack(e), if e.store.order.Ordered? then Append else Insert(p.sequence))
  {
    StoreRecvHalf(e.store, p, ack, height);
    hide FullCycle, AbortedCycle;
  }

  lemma SentFromOne(peer: Endpoint, s: nat)
    requires SenderOk(peer) && s in peer.log.sent
    ensures s >= 1
  {
  }

  lemma TidyRecv(e: Endpoint, clean: bool, peer: Endpoint, p: Packet, ack: Bytes, height: nat, timestamp: nat)
    requires TidyEnd(e, clean) && ReceiverOk(e) && SenderOk(peer)
    ensures TidyEnd(Recv(e, peer, p, ack, height, timestamp), clean)
  {
    hide Tidy, SenderOk, ReceiverOk;
    if CanRecv(e, peer, p, ack, height, timestamp) {
      SentFromOne(peer, p.sequence);
      RecvIsFill(e, peer, p, ack, height, timestamp);
      TidyAct(RecvTrack(e), clean, if e.store.order.Ordered? then Append else Insert(p.sequence));
      assert SendHalf(Recv(e, peer, p, ack, height, timestamp).store) == SendHalf(e.store);
    }
  }

  lemma TidyMisfile(e: Endpoint, sequence: nat, ack: Bytes)
    requires TidyEnd(e, false)
    ensures TidyEnd(Misfile(e, sequence, ack), false)
  {
    var h := RecvHalf(e.store);
    var u: nat :| Covered(h, u);
    assert Covered(RecvHalf(Misfile(e, sequence, ack).store), u);
    assert SendHalf(Misfile(e, sequence, ack).store) == SendHalf(e.store);
  }

  lemma TidySettle(e: Endpoint, clean: bool, e': Endpoint, sequence: nat)
    requires TidyEnd(e, clean)
    requires e'.store == e.store.(commitments := e.store.commitments - {sequence}, nextAck := e'.store.nextAck, open := e'.store.open)
    requires e'.log.removedSend == e.log.removedSend && e'.log.removedRecv == e.log.removedRecv
    ensures TidyEnd(e', clean)
  {
    hide Tidy;
    TidyAct(SendTrack(e), true, Release(sequence));
    assert SendHalf(e'.store) == Act(SendTrack(e), Release(sequence)).half;
    assert RecvHalf(e'.store) == RecvHalf(e.store);
  }

  lemma TidyPrune(e: Endpoint, clean: bool, sequence: nat)
    requires TidyEnd(e, clean)
    ensures TidyEnd(PruneAck(e, sequence), clean)
  {
    hide Tidy;
    var e' := PruneAck(e, sequence);
    TidyAct(RecvTrack(e), clean, Release(sequence));
    assert RecvHalf(e'.store) == Act(RecvTrack(e), Release(sequence)).half;
    assert SendHalf(e'.store) == SendHalf(e.store);
  }

  /** What a cycle that got so far on the channel does to its send half and to its receive half. */
  ghost function SendAct(t: Tracked, cut: Cut): Tracked {
    match cut
    case NotReached => t
    case SendAborted => Act(t, Abort)
    case _ => Act(t, Cycle)
  }

  ghost function RecvAct(t: Tracked, cut: Cut): Tracked {
    match cut
    case Completed => Act(t, Cycle)
    case RecvAborted => Act(t, Abort)
    case _ => t
  }

  lemma CleanupIsAct(e: Endpoint, cut: Cut)
    ensures SendTrack(Cleanup(e, cut)) == SendAct(SendTrack(e), cut)
    ensures RecvTrack(Cleanup(e, cut)) == RecvAct(RecvTrack(e), cut)
  {
    hide CleanupChannel, FullCycle, AbortedCycle;
    CleanupIsHalfCycle(e.store, cut);
    var c := CleanupChannel(e.store, cut);
    assert c.sendPackets.Keys == SendHalf(c).stored && c.recvPackets.Keys == RecvHalf(c).stored;
  }

  lemma TidyCleanup(e: Endpoint, clean: bool, cut: Cut)
    requires TidyEnd(e, clean)
    ensures TidyEnd(Cleanup(e, cut), clean)
  {
    hide Tidy, CleanupChannel, FullCycle, AbortedCycle;
    CleanupIsAct(e, cut);
    TidyAct(SendTrack(e), true, Cycle);
    TidyAct(SendTrack(e), true, Abort);
    TidyAct(RecvTrack(e), clean, Cycle);
    TidyAct(RecvTrack(e), clean, Abort);
  }

  lemma TidyOpened(order: Order, clean: bool)
    ensures TidyEnd(Opened(order), clean)
  {
    assert Between(0, 1) == {};
    assert Inv(SendTrack(Opened(order)), 0);
    assert Inv(RecvTrack(Opened(order)), 0);
  }
}
