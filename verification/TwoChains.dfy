/** Two chains joined by any number of channels, under every interleaving of packet messages, new blocks and
    complete or aborted cleanup cycles on either side. */
module TwoChains {
  import opened Common
  import opened PacketStore
  import PacketSteps
  import opened PacketCleanup

  type Endpoint = PacketSteps.Endpoint

  /** A chain has at least its first block. */
  type Blocks = b: seq<nat> | |b| > 0 witness [0]

  /** One chain: the ends of its channels to the other one, the name each of them has there, the names that its channels
      to any further chains have over there and the number of commitments on those, the pallet's packet counter, and the
      timestamps of the blocks so far. */
  datatype Chain = Chain(ends: map<ChannelId, Endpoint>, far: map<ChannelId, ChannelId>, foreign: set<ChannelId>,
                         elsewhere: nat, counter: nat, blocks: Blocks)

  datatype Op =
    | Send(id: ChannelId, data: Bytes, timeoutHeight: nat, timeoutTimestamp: nat)
    | Recv(id: ChannelId, packet: Packet, filed: Bytes, ack: Bytes)
    | ForeignRecv(name: ChannelId, sequence: nat, filed: Bytes)
    | ForeignSend
    | ForeignSettle
    | Ack(id: ChannelId, packet: Packet, ack: Bytes)
    | Timeout(id: ChannelId, packet: Packet, proofHeight: nat)
    | PruneAck(id: ChannelId, sequence: nat)
    | Cleanup(cuts: map<ChannelId, Cut>)
    | NewBlock(timestamp: nat)

  datatype Side = A | B

  function Other(side: Side): Side { if side.A? then B else A }

  datatype Step = Step(side: Side, op: Op)

  datatype World = World(a: Chain, b: Chain)

  function Here(w: World, side: Side): Chain { if side.A? then w.a else w.b }

  function There(w: World, side: Side): Chain { Here(w, Other(side)) }

  function Put(c: Chain, id: ChannelId, e: Endpoint, counter: nat): Chain {
    c.(ends := c.ends[id := e], counter := counter)
  }

  function CutFor(cuts: map<ChannelId, Cut>, id: ChannelId): Cut { if id in cuts then cuts[id] else NotReached }

  ghost function CleanedEnds(ends: map<ChannelId, Endpoint>, cuts: map<ChannelId, Cut>): map<ChannelId, Endpoint> {
    map id | id in ends :: PacketSteps.Cleanup(ends[id], CutFor(cuts, id))
  }

  /** The channel has an end on both chains. */
  predicate Joined(c: Chain, peer: Chain, id: ChannelId) { id in c.ends && id in c.far && c.far[id] in peer.ends }

  function FarEnd(c: Chain, peer: Chain, id: ChannelId): Endpoint
    requires Joined(c, peer, id)
  {
    peer.ends[c.far[id]]
  }

  function LocalSend(c: Chain, id: ChannelId, data: Bytes, th: nat, tt: nat): Chain
    requires id in c.ends
  {
    var e := c.ends[id];
    if e.store.open && e.store.nextSend.Some?
    then Put(c, id, PacketSteps.Send(e, data, th, tt, |c.blocks| - 1), PacketSteps.CheckedAdd(c.counter)) else c
  }

  /** The callback files one acknowledgement and returns one, which may differ; neither may be empty.  Where both chains
      have the same name for the channel, the filed one is there already when the returned one would be stored. */
  function Kept(c: Chain, id: ChannelId, filed: Bytes, ack: Bytes): Bytes
    requires id in c.far
  {
    if c.far[id] == id then filed else ack
  }

  predicate CanRecv(c: Chain, peer: Chain, id: ChannelId, p: Packet, filed: Bytes, ack: Bytes)
    requires Joined(c, peer, id)
  {
    && filed != [] && ack != []
    && PacketSteps.CanRecv(c.ends[id], FarEnd(c, peer, id), p, ack, |c.blocks| - 1, c.blocks[|c.blocks| - 1])
  }

  /** The callback files the acknowledgement under the packet's source channel, which is the name the channel has on the
      chain the packet comes from; nobody reads it there unless this chain has a channel of that name. */
  function Misfiled(c: Chain, id: ChannelId, sequence: nat, filed: Bytes): Chain {
    if id in c.ends then Put(c, id, PacketSteps.Misfile(c.ends[id], sequence, filed), c.counter) else c
  }

  /** What is stored under the channel the packet was received on. */
  function Received(c: Chain, peer: Chain, id: ChannelId, p: Packet, filed: Bytes, ack: Bytes): Endpoint
    requires Joined(c, peer, id)
  {
    var top := |c.blocks| - 1;
    PacketSteps.Recv(c.ends[id], FarEnd(c, peer, id), p, Kept(c, id, filed, ack), top, c.blocks[top])
  }

  function LocalRecv(c: Chain, peer: Chain, id: ChannelId, p: Packet, filed: Bytes, ack: Bytes): Chain
    requires Joined(c, peer, id)
  {
    if CanRecv(c, peer, id, p, filed, ack)
    then Put(Misfiled(c, c.far[id], p.sequence, filed), id, Received(c, peer, id, p, filed, ack), c.counter) else c
  }

  /** A packet received on a channel to a further chain, where that channel is called `name`. */
  function LocalForeign(c: Chain, name: ChannelId, sequence: nat, filed: Bytes): Chain {
    if name in c.foreign && sequence > 0 && filed != [] then Misfiled(c, name, sequence, filed) else c
  }

  /** A packet sent, acknowledged or timed out on such a channel; only the counter is shared. */
  function LocalForeignSend(c: Chain): Chain {
    if c.foreign != {} then c.(elsewhere := c.elsewhere + 1, counter := PacketSteps.CheckedAdd(c.counter)) else c
  }

  function LocalForeignSettle(c: Chain): Chain {
    if c.elsewhere > 0 then c.(elsewhere := c.elsewhere - 1, counter := PacketSteps.CheckedSub(c.counter)) else c
  }

  function LocalAck(c: Chain, peer: Chain, id: ChannelId, p: Packet, ack: Bytes): Chain
    requires Joined(c, peer, id)
  {
    var e, f := c.ends[id], FarEnd(c, peer, id);
    if PacketSteps.CanAck(e, f, p, ack)
    then Put(c, id, PacketSteps.Ack(e, f, p, ack), PacketSteps.CheckedSub(c.counter)) else c
  }

  function LocalTimeout(c: Chain, peer: Chain, id: ChannelId, p: Packet, h: nat): Chain
    requires Joined(c, peer, id)
  {
    var e, f := c.ends[id], FarEnd(c, peer, id);
    if PacketSteps.CanTimeout(e, f, p, h, peer.blocks)
    then Put(c, id, PacketSteps.Timeout(e, f, p, h, peer.blocks), PacketSteps.CheckedSub(c.counter)) else c
  }

  function LocalPrune(c: Chain, id: ChannelId, s: nat): Chain
    requires id in c.ends
  {
    Put(c, id, PacketSteps.PruneAck(c.ends[id], s), c.counter)
  }

  ghost function LocalCleanup(c: Chain, cuts: map<ChannelId, Cut>): Chain {
    c.(ends := CleanedEnds(c.ends, cuts))
  }

  function LocalBlock(c: Chain, t: nat): Chain
  {
    if c.blocks[|c.blocks| - 1] <= t then c.(blocks := c.blocks + [t]) else c
  }

  /** What an operation does to the chain it runs on; `peer` is the other chain. */
  ghost function Local(c: Chain, peer: Chain, op: Op): Chain
  {
    match op
    case Send(id, data, th, tt) => if id in c.ends then LocalSend(c, id, data, th, tt) else c
    case Recv(id, p, filed, ack) => if Joined(c, peer, id) then LocalRecv(c, peer, id, p, filed, ack) else c
    case ForeignRecv(name, sequence, filed) => LocalForeign(c, name, sequence, filed)
    case ForeignSend => LocalForeignSend(c)
    case ForeignSettle => LocalForeignSettle(c)
    case Ack(id, p, ack) => if Joined(c, peer, id) then LocalAck(c, peer, id, p, ack) else c
    case Timeout(id, p, h) => if Joined(c, peer, id) then LocalTimeout(c, peer, id, p, h) else c
    case PruneAck(id, s) => if id in c.ends then LocalPrune(c, id, s) else c
    case Cleanup(cuts) => LocalCleanup(c, cuts)
    case NewBlock(t) => LocalBlock(c, t)
  }

  ghost function Next(w: World, s: Step): World
  {
    if s.side.A? then w.(a := Local(w.a, w.b, s.op)) else w.(b := Local(w.b, w.a, s.op))
  }

  // ----- Which channels there are -----

  /** Each of these channels has its name in the other table, and is the channel of that name there. */
  predicate Named(here: map<ChannelId, ChannelId>, there: map<ChannelId, ChannelId>) {
    forall id :: id in here ==> here[id] in there && there[here[id]] == id
  }

  /** Channels between A and B, each with an identifier of its own on either chain: `toB` maps its identifier on A to
      the one on B, `toA` back, and `orders` is by its identifier on A.  `foreignA` and `foreignB` are the names that the
      channels of A and of B to further chains have on those chains. */
  datatype Wiring = Wiring(toB: map<ChannelId, ChannelId>, toA: map<ChannelId, ChannelId>, orders: map<ChannelId, Order>,
                           foreignA: set<ChannelId>, foreignB: set<ChannelId>)
  {
    predicate Proper() { Named(toB, toA) && Named(toA, toB) && orders.Keys == toB.Keys }

    function Far(side: Side): map<ChannelId, ChannelId> { if side.A? then toB else toA }

    function Foreign(side: Side): set<ChannelId> { if side.A? then foreignA else foreignB }
  }

  type Topology = t: Wiring | t.Proper() witness Wiring(map[], map[], map[], {}, {})

  /** Two chains with these channels, freshly opened. */
  function Start(t: Topology, timeA: nat, timeB: nat): World {
    World(Chain(map id | id in t.toB :: PacketSteps.Opened(t.orders[id]), t.toB, t.foreignA, 0, 0, [timeA]),
          Chain(map id | id in t.toA :: PacketSteps.Opened(t.orders[t.toA[id]]), t.toA, t.foreignB, 0, 0, [timeB]))
  }

  /** No other channel of the chain, to whichever chain it leads, goes by the name `id` over there.  This is what keeps
      the key clean. */
  ghost predicate Clean(far: map<ChannelId, ChannelId>, foreign: set<ChannelId>, id: ChannelId) {
    id !in foreign && forall other :: other in far && other != id ==> far[other] != id
  }

  // ----- The invariant of a pair of chains -----

  ghost predicate EndsOk(x: Endpoint, y: Endpoint, xb: seq<nat>, yb: seq<nat>, cx: bool, cy: bool) {
    PacketSteps.LinkOk(x, y, xb, yb, cx, cy) && PacketSteps.TidyEnd(x, cx) && PacketSteps.TidyEnd(y, cy)
  }

  ghost predicate Wired(x: Chain, y: Chain) {
    x.ends.Keys == x.far.Keys && y.ends.Keys == y.far.Keys && Named(x.far, y.far) && Named(y.far, x.far)
  }

  ghost predicate PairOk(x: Chain, y: Chain) {
    && Wired(x, y)
    && PacketSteps.Monotone(x.blocks) && PacketSteps.Monotone(y.blocks)
    && forall id :: id in x.ends ==> EndOk(x, y, id)
  }

  ghost predicate EndOk(x: Chain, y: Chain, id: ChannelId)
    requires Joined(x, y, id)
  {
    EndsOk(x.ends[id], FarEnd(x, y, id), x.blocks, y.blocks, Clean(x.far, x.foreign, id), Clean(y.far, y.foreign, x.far[id]))
  }

  lemma PairSymmetric(x: Chain, y: Chain)
    requires PairOk(x, y)
    ensures PairOk(y, x)
  {
    hide Clean, PacketSteps.Flow, PacketSteps.TidyEnd;
    forall id | id in y.ends ensures EndOk(y, x, id) {
      assert EndOk(x, y, y.far[id]);
    }
  }

  lemma PutKeeps(x: Chain, y: Chain, id: ChannelId, e: Endpoint, counter: nat)
    requires PairOk(x, y) && id in x.ends
    requires EndsOk(e, FarEnd(x, y, id), x.blocks, y.blocks, Clean(x.far, x.foreign, id), Clean(y.far, y.foreign, x.far[id]))
    ensures PairOk(Put(x, id, e, counter), y)
  {
    hide EndsOk, Clean;
    var x' := Put(x, id, e, counter);
    forall k | k in x'.ends ensures EndOk(x', y, k) {
      assert EndOk(x, y, k);
    }
  }

  lemma SendKeeps(x: Chain, y: Chain, id: ChannelId, data: Bytes, th: nat, tt: nat)
    requires PairOk(x, y) && id in x.ends
    ensures PairOk(LocalSend(x, id, data, th, tt), y)
  {
    hide PacketSteps.LinkOk, PacketSteps.TidyEnd, Clean;
    var e, f, top := x.ends[id], FarEnd(x, y, id), |x.blocks| - 1;
    assert EndOk(x, y, id);
    PacketSteps.SendKeeps(e, f, x.blocks, y.blocks, Clean(x.far, x.foreign, id), Clean(y.far, y.foreign, x.far[id]), data, th, tt, top);
    PacketSteps.TidySend(e, Clean(x.far, x.foreign, id), data, th, tt, top);
    PutKeeps(x, y, id, PacketSteps.Send(e, data, th, tt, top), PacketSteps.CheckedAdd(x.counter));
  }

  /** A misfiled acknowledgement lands under a key that is not clean. */
  lemma MisfiledKeeps(x: Chain, y: Chain, id: ChannelId, sequence: nat, filed: Bytes)
    requires PairOk(x, y) && !Clean(x.far, x.foreign, id)
    ensures PairOk(Misfiled(x, id, sequence, filed), y)
  {
    hide PacketSteps.LinkOk, PacketSteps.TidyEnd, Clean;
    if id in x.ends {
      assert EndOk(x, y, id);
      var cy := Clean(y.far, y.foreign, x.far[id]);
      PacketSteps.MisfileKeeps(x.ends[id], FarEnd(x, y, id), x.blocks, y.blocks, cy, sequence, filed);
      PacketSteps.TidyMisfile(x.ends[id], sequence, filed);
      PutKeeps(x, y, id, PacketSteps.Misfile(x.ends[id], sequence, filed), x.counter);
    }
  }

  lemma ReceivedOk(x: Chain, y: Chain, id: ChannelId, p: Packet, filed: Bytes, ack: Bytes, e': Endpoint)
    requires PairOk(x, y) && id in x.ends && e' == Received(x, y, id, p, filed, ack)
    ensures EndsOk(e', FarEnd(x, y, id), x.blocks, y.blocks,
                   Clean(x.far, x.foreign, id), Clean(y.far, y.foreign, x.far[id]))
  {
    hide PacketSteps.TidyEnd, PacketSteps.SenderOk, PacketSteps.ReceiverOk, Clean, PacketSteps.Recv;
    var e, f, top, kept := x.ends[id], FarEnd(x, y, id), |x.blocks| - 1, Kept(x, id, filed, ack);
    var cx, cy := Clean(x.far, x.foreign, id), Clean(y.far, y.foreign, x.far[id]);
    assert EndOk(x, y, id);
    PacketSteps.RecvKeeps(e, f, x.blocks, y.blocks, cx, cy, p, kept, e');
    PacketSteps.TidyRecv(e, cx, f, p, kept, top, x.blocks[top]);
  }

  lemma RecvKeeps(x: Chain, y: Chain, id: ChannelId, p: Packet, filed: Bytes, ack: Bytes)
    requires PairOk(x, y) && id in x.ends
    ensures PairOk(LocalRecv(x, y, id, p, filed, ack), y)
  {
    hide EndsOk, Received, CanRecv;
    var e' := Received(x, y, id, p, filed, ack);
    ReceivedOk(x, y, id, p, filed, ack, e');
    if x.far[id] == id {
      assert Put(Misfiled(x, id, p.sequence, filed), id, e', x.counter) == Put(x, id, e', x.counter);
      PutKeeps(x, y, id, e', x.counter);
    } else {
      MisfiledKeeps(x, y, x.far[id], p.sequence, filed);
      PutKeeps(Misfiled(x, x.far[id], p.sequence, filed), y, id, e', x.counter);
    }
  }

  lemma AckKeeps(x: Chain, y: Chain, id: ChannelId, p: Packet, ack: Bytes)
    requires PairOk(x, y) && id in x.ends
    ensures PairOk(LocalAck(x, y, id, p, ack), y)
  {
    hide PacketSteps.LinkOk, PacketSteps.TidyEnd, Clean;
    var e, f := x.ends[id], FarEnd(x, y, id);
    assert EndOk(x, y, id);
    var cx, cy := Clean(x.far, x.foreign, id), Clean(y.far, y.foreign, x.far[id]);
    if PacketSteps.CanAck(e, f, p, ack) {
      PacketSteps.TidySettle(e, cx, PacketSteps.Ack(e, f, p, ack), p.sequence);
      PacketSteps.AckKeeps(e, f, x.blocks, y.blocks, cx, cy, p, ack);
      PutKeeps(x, y, id, PacketSteps.Ack(e, f, p, ack), PacketSteps.CheckedSub(x.counter));
    }
  }

  lemma TimeoutKeeps(x: Chain, y: Chain, id: ChannelId, p: Packet, h: nat)
    requires PairOk(x, y) && id in x.ends
    ensures PairOk(LocalTimeout(x, y, id, p, h), y)
  {
    hide PacketSteps.LinkOk, PacketSteps.TidyEnd, Clean;
    var e, f := x.ends[id], FarEnd(x, y, id);
    assert EndOk(x, y, id);
    if PacketSteps.CanTimeout(e, f, p, h, y.blocks) {
      PacketSteps.TidySettle(e, Clean(x.far, x.foreign, id), PacketSteps.Timeout(e, f, p, h, y.blocks), p.sequence);
      PacketSteps.TimeoutKeeps(e, f, x.blocks, y.blocks, Clean(x.far, x.foreign, id), Clean(y.far, y.foreign, x.far[id]), p, h);
      PutKeeps(x, y, id, PacketSteps.Timeout(e, f, p, h, y.blocks), PacketSteps.CheckedSub(x.counter));
    }
  }

  lemma PruneKeeps(x: Chain, y: Chain, id: ChannelId, s: nat)
    requires PairOk(x, y) && id in x.ends
    ensures PairOk(LocalPrune(x, id, s), y)
  {
    hide PacketSteps.LinkOk, PacketSteps.TidyEnd, Clean;
    var e := x.ends[id];
    assert EndOk(x, y, id);
    PacketSteps.PruneKeeps(e, FarEnd(x, y, id), x.blocks, y.blocks, Clean(x.far, x.foreign, id), Clean(y.far, y.foreign, x.far[id]), s);
    PacketSteps.TidyPrune(e, Clean(x.far, x.foreign, id), s);
    PutKeeps(x, y, id, PacketSteps.PruneAck(e, s), x.counter);
  }

  lemma CleanupKeeps(x: Chain, y: Chain, cuts: map<ChannelId, Cut>)
    requires PairOk(x, y)
    ensures PairOk(LocalCleanup(x, cuts), y)
  {
    hide PacketSteps.LinkOk, PacketSteps.TidyEnd, PacketSteps.Cleanup, Clean;
    var x' := LocalCleanup(x, cuts);
    forall id | id in x'.ends ensures EndOk(x', y, id) {
      assert EndOk(x, y, id);
      PacketSteps.CleanupKeeps(x.ends[id], FarEnd(x, y, id), x.blocks, y.blocks,
                               Clean(x.far, x.foreign, id), Clean(y.far, y.foreign, x.far[id]), CutFor(cuts, id));
      PacketSteps.TidyCleanup(x.ends[id], Clean(x.far, x.foreign, id), CutFor(cuts, id));
    }
  }

  lemma BlockKeeps(x: Chain, y: Chain, t: nat)
    requires PairOk(x, y)
    ensures PairOk(LocalBlock(x, t), y)
  {
    hide PacketSteps.LinkOk, PacketSteps.TidyEnd, Clean;
    if x.blocks[|x.blocks| - 1] <= t {
      var x' := LocalBlock(x, t);
      forall id | id in x'.ends ensures EndOk(x', y, id) {
        assert EndOk(x, y, id);
        PacketSteps.BlockKeeps(x.ends[id], FarEnd(x, y, id), x.blocks, y.blocks,
                               Clean(x.far, x.foreign, id), Clean(y.far, y.foreign, x.far[id]), t);
      }
    }
  }

  lemma ElsewhereKeeps(x: Chain, x': Chain, y: Chain)
    requires PairOk(x, y) && x' == x.(elsewhere := x'.elsewhere, counter := x'.counter)
    ensures PairOk(x', y)
  {
    hide EndsOk, Clean;
    forall id | id in x'.ends ensures EndOk(x', y, id) {
      assert EndOk(x, y, id);
    }
  }

  lemma SettleKeeps(x: Chain, y: Chain, op: Op)
    requires PairOk(x, y) && (op.Ack? || op.Timeout?)
    ensures PairOk(Local(x, y, op), y)
  {
    hide EndOk;
    if op.id in x.ends {
      if op.Ack? { AckKeeps(x, y, op.id, op.packet, op.ack); } else { TimeoutKeeps(x, y, op.id, op.packet, op.proofHeight); }
    }
  }

  lemma LocalKeeps(x: Chain, y: Chain, op: Op)
    requires PairOk(x, y)
    ensures PairOk(Local(x, y, op), y)
  {
    hide EndOk;
    match op
    case Send(id, data, th, tt) => if id in x.ends { SendKeeps(x, y, id, data, th, tt); }
    case Recv(id, p, filed, ack) => if id in x.ends { RecvKeeps(x, y, id, p, filed, ack); }
    case ForeignRecv(name, s, filed) => if name in x.foreign { MisfiledKeeps(x, y, name, s, filed); }
    case PruneAck(id, s) => if id in x.ends { PruneKeeps(x, y, id, s); }
    case Cleanup(cuts) => CleanupKeeps(x, y, cuts);
    case NewBlock(t) => BlockKeeps(x, y, t);
    case ForeignSend => ElsewhereKeeps(x, LocalForeignSend(x), y);
    case ForeignSettle => ElsewhereKeeps(x, LocalForeignSettle(x), y);
    case _ => SettleKeeps(x, y, op);
  }

  lemma NamesStay(x: Chain, y: Chain, op: Op)
    ensures Local(x, y, op).far == x.far && Local(x, y, op).foreign == x.foreign
  {
  }

  /** Everything two chains can reach. */
  ghost function Run(w: World, steps: seq<Step>): World
    decreases |steps|
  {
    if steps == [] then w else Next(Run(w, steps[..|steps| - 1]), steps[|steps| - 1])
  }

  lemma {:induction false} RunOk(w: World, steps: seq<Step>)
    requires PairOk(w.a, w.b)
    ensures var w' := Run(w, steps);
            && PairOk(w'.a, w'.b) && w'.a.far == w.a.far && w'.b.far == w.b.far
            && w'.a.foreign == w.a.foreign && w'.b.foreign == w.b.foreign
    decreases |steps|
  {
    hide EndOk, Local;
    if steps != [] {
      var before, s := Run(w, steps[..|steps| - 1]), steps[|steps| - 1];
      RunOk(w, steps[..|steps| - 1]);
      if s.side.A? {
        LocalKeeps(before.a, before.b, s.op);
        NamesStay(before.a, before.b, s.op);
      } else {
        PairSymmetric(before.a, before.b);
        LocalKeeps(before.b, before.a, s.op);
        NamesStay(before.b, before.a, s.op);
        PairSymmetric(Local(before.b, before.a, s.op), before.a);
      }
    }
  }

  lemma OpenedOk(order: Order, timeA: nat, timeB: nat, cx: bool, cy: bool)
    ensures EndsOk(PacketSteps.Opened(order), PacketSteps.Opened(order), [timeA], [timeB], cx, cy)
  {
    hide PacketSteps.TidyEnd;
    PacketSteps.TidyOpened(order, cx);
    PacketSteps.TidyOpened(order, cy);
  }

  lemma StartOk(t: Topology, timeA: nat, timeB: nat)
    ensures var w := Start(t, timeA, timeB); PairOk(w.a, w.b)
  {
    hide EndsOk, PacketSteps.Opened, Clean;
    var w := Start(t, timeA, timeB);
    forall id | id in w.a.ends ensures EndOk(w.a, w.b, id) {
      OpenedOk(t.orders[id], timeA, timeB, Clean(t.toB, t.foreignA, id), Clean(t.toA, t.foreignB, t.toB[id]));
    }
  }

  /** The state two chains with these channels reach by these steps. */
  ghost function Reach(t: Topology, timeA: nat, timeB: nat, steps: seq<Step>): World {
    Run(Start(t, timeA, timeB), steps)
  }

  lemma ReachOk(t: Topology, timeA: nat, timeB: nat, steps: seq<Step>)
    ensures var w := Reach(t, timeA, timeB, steps);
            && PairOk(w.a, w.b) && PairOk(w.b, w.a) && w.a.far == t.toB && w.b.far == t.toA
            && w.a.foreign == t.foreignA && w.b.foreign == t.foreignB
  {
    hide EndOk;
    StartOk(t, timeA, timeB);
    RunOk(Start(t, timeA, timeB), steps);
    var w := Reach(t, timeA, timeB, steps);
    PairSymmetric(w.a, w.b);
  }

  /** Any run, and a channel seen from one of its sides. */
  datatype Scenario = Scenario(topology: Topology, timeA: nat, timeB: nat, steps: seq<Step>, side: Side, id: ChannelId)

  /** The run ends with `x` as the near end and `y` as the far end of the channel. */
  ghost predicate Reached(sc: Scenario, x: Endpoint, y: Endpoint) {
    var w := Reach(sc.topology, sc.timeA, sc.timeB, sc.steps);
    var c, peer := Here(w, sc.side), There(w, sc.side);
    Joined(c, peer, sc.id) && x == c.ends[sc.id] && y == FarEnd(c, peer, sc.id)
  }

  /** No other channel of the near chain is called `id` at its other end. */
  ghost predicate NearClean(t: Topology, side: Side, id: ChannelId) { Clean(t.Far(side), t.Foreign(side), id) }

  /** No other channel of the far chain is called at its other end what this one is called on the far chain. */
  ghost predicate FarClean(t: Topology, side: Side, id: ChannelId)
    requires id in t.Far(side)
  {
    Clean(t.Far(Other(side)), t.Foreign(Other(side)), t.Far(side)[id])
  }

  /** What every run guarantees about the two ends of a channel. */
  lemma ReachedOk(sc: Scenario, x: Endpoint, y: Endpoint) returns (xb: seq<nat>, yb: seq<nat>)
    requires Reached(sc, x, y)
    ensures sc.id in sc.topology.Far(sc.side)
    ensures EndsOk(x, y, xb, yb, NearClean(sc.topology, sc.side, sc.id), FarClean(sc.topology, sc.side, sc.id))
  {
    hide EndsOk, Clean;
    var w := Reach(sc.topology, sc.timeA, sc.timeB, sc.steps);
    ReachOk(sc.topology, sc.timeA, sc.timeB, sc.steps);
    xb, yb := Here(w, sc.side).blocks, There(w, sc.side).blocks;
    assert EndOk(Here(w, sc.side), There(w, sc.side), sc.id);
  }

  // ----- The cleanup step covers what the pallet's cycle does -----

  /** Where the pallet's cycle stops on each channel of its iteration order. */
  ghost function CutsOf(order: seq<ChannelId>, cs: seq<Channel>): (cuts: map<ChannelId, Cut>)
    requires |order| == |cs| && forall i, j :: 0 <= i < j < |order| ==> order[i] != order[j]
    ensures forall i: nat :: i < |order| ==> order[i] in cuts && cuts[order[i]] == CutAt(cs, i)
  {
    map id | id in order :: CutAt(cs, IndexOf(order, id))
  }

  ghost function IndexOf(order: seq<ChannelId>, id: ChannelId): (i: nat)
    requires id in order
    ensures i < |order| && order[i] == id
  {
    var i: nat :| i < |order| && order[i] == id;
    i
  }

  /** Whatever `Pallet.PacketCleanup` leaves behind, on success or on error, a single `Cleanup` step leaves behind. */
  lemma PalletCycleIsStep(c: Chain, order: seq<ChannelId>, cs: seq<Channel>)
    requires |order| == |cs| && forall i, j :: 0 <= i < j < |order| ==> order[i] != order[j]
    requires forall i :: 0 <= i < |order| ==> order[i] in c.ends && c.ends[order[i]].store == cs[i]
    ensures forall i: nat :: i < |order| ==>
              LocalCleanup(c, CutsOf(order, cs)).ends[order[i]].store == Sweep(cs)[i]
  {
    hide CleanupChannel;
    forall i: nat | i < |order|
      ensures LocalCleanup(c, CutsOf(order, cs)).ends[order[i]].store == Sweep(cs)[i]
    {
      SweepAt(cs, i);
    }
  }
}
