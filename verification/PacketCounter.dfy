/** The pallet's packet counter against the number of commitments in storage, over every run of two chains. */
module PacketCounter {
  import opened Common
  import opened PacketStore
  import PacketSteps
  import opened TwoChains

  /** The commitments on a chain's channels to the other one, as storage keys. */
  ghost function Live(c: Chain): set<(ChannelId, nat)> {
    set id, s | id in c.ends && s in c.ends[id].store.commitments :: (id, s)
  }

  /** The number of commitments on all channels of a chain, those to further chains included. */
  ghost function Commitments(c: Chain): nat { |Live(c)| + c.elsewhere }

  ghost predicate Counted(c: Chain) { c.counter == Commitments(c) }

  // ----- How each operation changes the set of commitments -----

  lemma LiveAfterPut(x: Chain, id: ChannelId, e: Endpoint, n: nat, s: nat)
    requires id in x.ends
    ensures e.store.commitments.Keys == x.ends[id].store.commitments.Keys + {s}
            ==> Live(Put(x, id, e, n)) == Live(x) + {(id, s)}
    ensures e.store.commitments.Keys == x.ends[id].store.commitments.Keys - {s}
            ==> Live(Put(x, id, e, n)) == Live(x) - {(id, s)}
    ensures e.store.commitments.Keys == x.ends[id].store.commitments.Keys ==> Live(Put(x, id, e, n)) == Live(x)
    ensures (id, s) in Live(x) <==> s in x.ends[id].store.commitments
  {
    forall k | e.store.commitments.Keys == x.ends[id].store.commitments.Keys + {s}
      ensures k in Live(Put(x, id, e, n)) <==> k in Live(x) + {(id, s)} { }
    forall k | e.store.commitments.Keys == x.ends[id].store.commitments.Keys - {s}
      ensures k in Live(Put(x, id, e, n)) <==> k in Live(x) - {(id, s)} { }
    forall k | e.store.commitments.Keys == x.ends[id].store.commitments.Keys
      ensures k in Live(Put(x, id, e, n)) <==> k in Live(x) { }
  }

  lemma AddCounts(before: set<(ChannelId, nat)>, key: (ChannelId, nat), elsewhere: nat, counter: nat)
    requires key !in before && counter == |before| + elsewhere
    ensures |before + {key}| == |before| + 1
    ensures PacketSteps.CheckedAdd(counter) == |before + {key}| + elsewhere <==> counter < PacketSteps.U32_MAX
  {
  }

  lemma RemoveCounts(before: set<(ChannelId, nat)>, key: (ChannelId, nat), elsewhere: nat, counter: nat)
    requires key in before && counter == |before| + elsewhere
    ensures PacketSteps.CheckedSub(counter) == |before - {key}| + elsewhere
  {
  }

  /** A send keeps the counter exact if and only if the counter is not at its maximum. */
  lemma SendCountsIff(x: Chain, id: ChannelId, data: Bytes, th: nat, tt: nat)
    requires id in x.ends && Counted(x)
    requires x.ends[id].store.open && x.ends[id].store.nextSend.Some?
    requires x.ends[id].store.nextSend.value !in x.ends[id].store.commitments
    ensures Commitments(LocalSend(x, id, data, th, tt)) == Commitments(x) + 1
    ensures Counted(LocalSend(x, id, data, th, tt)) <==> x.counter < 4294967295
    ensures x.counter >= 4294967295 ==> LocalSend(x, id, data, th, tt).counter == x.counter
  {
    hide Live;
    var e := PacketSteps.Send(x.ends[id], data, th, tt, |x.blocks| - 1);
    var s := x.ends[id].store.nextSend.value;
    assert e.store.commitments.Keys == x.ends[id].store.commitments.Keys + {s};
    LiveAfterPut(x, id, e, PacketSteps.CheckedAdd(x.counter), s);
    AddCounts(Live(x), (id, s), x.elsewhere, x.counter);
  }

  /** So does a send on a channel to a further chain. */
  lemma ForeignSendCountsIff(x: Chain)
    requires Counted(x) && x.foreign != {}
    ensures Commitments(LocalForeignSend(x)) == Commitments(x) + 1
    ensures Counted(LocalForeignSend(x)) <==> x.counter < 4294967295
  {
    hide Live;
    SameLive(x, LocalForeignSend(x));
  }

  /** A packet settled there is not counted any more. */
  lemma ForeignSettleCounts(x: Chain)
    requires Counted(x) && x.elsewhere > 0
    ensures Commitments(LocalForeignSettle(x)) == Commitments(x) - 1 && Counted(LocalForeignSettle(x))
  {
    hide Live;
    SameLive(x, LocalForeignSettle(x));
  }

  lemma SettleCounts(x: Chain, id: ChannelId, e: Endpoint, s: nat)
    requires id in x.ends && Counted(x) && s in x.ends[id].store.commitments
    requires e.store.commitments == x.ends[id].store.commitments - {s}
    ensures Counted(Put(x, id, e, PacketSteps.CheckedSub(x.counter)))
  {
    hide Live;
    assert e.store.commitments.Keys == x.ends[id].store.commitments.Keys - {s};
    LiveAfterPut(x, id, e, PacketSteps.CheckedSub(x.counter), s);
    RemoveCounts(Live(x), (id, s), x.elsewhere, x.counter);
  }

  lemma SameLive(x: Chain, x': Chain)
    requires x'.ends.Keys == x.ends.Keys
    requires forall id :: id in x.ends ==> x'.ends[id].store.commitments == x.ends[id].store.commitments
    ensures Live(x') == Live(x)
  {
  }

  lemma CleanupCounts(x: Chain, cuts: map<ChannelId, Cut>)
    requires Counted(x)
    ensures Counted(LocalCleanup(x, cuts))
  {
    hide CleanupChannel, Live;
    var x' := LocalCleanup(x, cuts);
    forall id | id in x.ends ensures x'.ends[id].store.commitments == x.ends[id].store.commitments {
      CleanupIsHalfCycle(x.ends[id].store, CutFor(cuts, id));
    }
    SameLive(x, x');
  }

  lemma SameCounts(x: Chain, id: ChannelId, e: Endpoint)
    requires id in x.ends && Counted(x) && e.store.commitments == x.ends[id].store.commitments
    ensures Counted(Put(x, id, e, x.counter))
  {
    hide Live;
    LiveAfterPut(x, id, e, x.counter, 0);
  }

  lemma MisfiledCounts(x: Chain, id: ChannelId, sequence: nat, filed: Bytes)
    requires Counted(x)
    ensures Counted(Misfiled(x, id, sequence, filed))
  {
    hide Counted;
    if id in x.ends { SameCounts(x, id, PacketSteps.Misfile(x.ends[id], sequence, filed)); }
  }

  lemma RecvCounts(x: Chain, y: Chain, id: ChannelId, p: Packet, filed: Bytes, ack: Bytes)
    requires Joined(x, y, id) && Counted(x)
    ensures Counted(LocalRecv(x, y, id, p, filed, ack))
  {
    hide Counted;
    MisfiledCounts(x, x.far[id], p.sequence, filed);
    SameCounts(Misfiled(x, x.far[id], p.sequence, filed), id, Received(x, y, id, p, filed, ack));
  }

  lemma BlockCounts(x: Chain, t: nat)
    requires Counted(x)
    ensures Counted(LocalBlock(x, t))
  {
    SameLive(x, LocalBlock(x, t));
  }

  lemma LocalCounts(x: Chain, y: Chain, op: Op)
    requires Counted(x) && Commitments(Local(x, y, op)) <= PacketSteps.U32_MAX
    requires forall id :: id in x.ends && x.ends[id].store.nextSend.Some? ==>
               x.ends[id].store.nextSend.value !in x.ends[id].store.commitments
    ensures Counted(Local(x, y, op))
  {
    hide Live;
    match op
    case Send(id, data, th, tt) =>
      if id in x.ends && x.ends[id].store.open && x.ends[id].store.nextSend.Some? { SendCountsIff(x, id, data, th, tt); }
    case Recv(id, p, filed, ack) => if Joined(x, y, id) { RecvCounts(x, y, id, p, filed, ack); }
    case ForeignRecv(name, sequence, filed) => MisfiledCounts(x, name, sequence, filed);
    case ForeignSend => SameLive(x, LocalForeignSend(x));
    case ForeignSettle => SameLive(x, LocalForeignSettle(x));
    case Ack(id, p, ack) =>
      if Joined(x, y, id) && PacketSteps.CanAck(x.ends[id], FarEnd(x, y, id), p, ack) {
        SettleCounts(x, id, PacketSteps.Ack(x.ends[id], FarEnd(x, y, id), p, ack), p.sequence);
      }
    case Timeout(id, p, h) =>
      if Joined(x, y, id) && PacketSteps.CanTimeout(x.ends[id], FarEnd(x, y, id), p, h, y.blocks) {
        SettleCounts(x, id, PacketSteps.Timeout(x.ends[id], FarEnd(x, y, id), p, h, y.blocks), p.sequence);
      }
    case PruneAck(id, s) => if id in x.ends { SameCounts(x, id, PacketSteps.PruneAck(x.ends[id], s)); }
    case Cleanup(cuts) => CleanupCounts(x, cuts);
    case NewBlock(t) => BlockCounts(x, t);
  }

  /** While neither chain ever holds more than `U32_MAX` commitments, both counters are exact in every state. */
  lemma {:induction false} CounterExact(t: Topology, timeA: nat, timeB: nat, steps: seq<Step>)
    requires forall n: nat :: n <= |steps| ==>
               var w := Reach(t, timeA, timeB, steps[..n]);
               Commitments(w.a) <= 4294967295 && Commitments(w.b) <= 4294967295
    ensures var w := Reach(t, timeA, timeB, steps); Counted(w.a) && Counted(w.b)
    decreases |steps|
  {
    hide EndOk;
    var w := Reach(t, timeA, timeB, steps);
    if steps == [] {
      assert Live(w.a) == {} && Live(w.b) == {};
    } else {
      var k := |steps| - 1;
      var s := steps[k];
      assert forall n: nat :: n <= k ==> steps[..k][..n] == steps[..n];
      CounterExact(t, timeA, timeB, steps[..k]);
      var v := Reach(t, timeA, timeB, steps[..k]);
      ReachOk(t, timeA, timeB, steps[..k]);
      assert steps[..|steps|] == steps;
      NextIsFresh(v.a, v.b);
      NextIsFresh(v.b, v.a);
      if s.side.A? { LocalCounts(v.a, v.b, s.op); } else { LocalCounts(v.b, v.a, s.op); }
    }
  }

  lemma NextIsFresh(x: Chain, y: Chain)
    requires PairOk(x, y)
    ensures forall id :: id in x.ends && x.ends[id].store.nextSend.Some? ==>
              x.ends[id].store.nextSend.value !in x.ends[id].store.commitments
  {
    hide PacketSteps.SenderOk, PacketSteps.ReceiverOk, PacketSteps.Delivery, PacketSteps.AcksOk, PacketSteps.TidyEnd, Clean;
    forall id | id in x.ends && x.ends[id].store.nextSend.Some?
      ensures x.ends[id].store.nextSend.value !in x.ends[id].store.commitments
    {
      assert EndOk(x, y, id);
      FreshSequence(x.ends[id]);
    }
  }

  lemma FreshSequence(e: Endpoint)
    requires PacketSteps.SenderOk(e)
    ensures e.store.nextSend.Some? && e.store.nextSend.value !in e.store.commitments
  {
  }
}
