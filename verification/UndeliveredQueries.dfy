/** The relayer's "what is undelivered?" queries and the pallet queries they are answered with. */
module UndeliveredQueries {
  import opened Common
  import opened PacketStore

  function Filter(xs: seq<nat>, keep: nat -> bool): (r: seq<nat>)
    ensures forall x :: x in r <==> x in xs && keep(x)
  {
    if xs == [] then [] else (if keep(xs[0]) then [xs[0]] else []) + Filter(xs[1..], keep)
  }

  // ----- Answered by the pallet -----

  function UnreceivedPackets(c: Channel, sequences: seq<nat>): seq<nat> {
    Filter(sequences, s => s !in c.receipts)
  }

  function UnreceivedAcknowledgements(c: Channel, sequences: seq<nat>): seq<nat> {
    Filter(sequences, s => s in c.commitments)
  }

  function GetSendPacketInfo(c: Channel, sequences: seq<nat>): seq<PacketInfo> {
    if sequences == [] then []
    else (if sequences[0] in c.sendPackets then [c.sendPackets[sequences[0]]] else [])
         + GetSendPacketInfo(c, sequences[1..])
  }

  function GetRecvPacketInfo(c: Channel, sequences: seq<nat>): seq<PacketInfo> {
    if sequences == [] then []
    else
      var s := sequences[0];
      var ack := if s in c.rawAcks then Some(c.rawAcks[s]) else None;
      (if s in c.recvPackets then [c.recvPackets[s].(ack := ack)] else []) + GetRecvPacketInfo(c, sequences[1..])
  }

  // ----- Asked by the relayer -----

  /** `listing` is the source's answer for its packet commitments.  On an ordered channel the sink is asked for
      its next receive sequence, which it may not have. */
  function UndeliveredSequences(source: Channel, sink: Channel, listing: seq<nat>): (r: Result<seq<nat>, ()>)
    ensures r.Err? <==> source.order.Ordered? && sink.nextRecv.None?
  {
    if source.order.Unordered? then Ok(UnreceivedPackets(sink, listing))
    else if sink.nextRecv.None? then Err(())
    else Ok(Filter(listing, s => s > sink.nextRecv.value))
  }

  predicate Below(a: nat, b: nat) { a < b }

  ghost predicate Increasing(xs: seq<nat>) { Ascending(xs, Below) }

  /** Sorted and without duplicates. */
  method SortDedup(xs: seq<nat>) returns (ys: seq<nat>)
    ensures forall i, j :: 0 <= i < j < |ys| ==> ys[i] < ys[j]
    ensures forall x :: x in ys <==> x in xs
  {
    ys := [];
    for i := 0 to |xs|
      invariant Increasing(ys)
      invariant forall x :: x in ys <==> x in xs[..i]
    {
      ys := InsertSorted(ys, xs[i], Below);
      assert xs[..i + 1] == xs[..i] + [xs[i]];
    }
    assert xs[..|xs|] == xs;
  }

  /** `listing` is the source's answer for its packet acknowledgements. */
  method QueryUndeliveredAcks(sink: Channel, listing: seq<nat>) returns (acks: seq<nat>)
    ensures forall i, j :: 0 <= i < j < |acks| ==> acks[i] < acks[j]
    ensures forall s :: s in acks <==> s in listing && s in sink.commitments
  {
    acks := SortDedup(UnreceivedAcknowledgements(sink, listing));
  }

  // ----- Filters and answers go sequence by sequence, in the order asked -----

  lemma Associative<T>(a: seq<T>, b: seq<T>, c: seq<T>)
    ensures a + (b + c) == a + b + c
  {
  }

  lemma FilterFirst(xs: seq<nat>, keep: nat -> bool)
    ensures Filter(xs, keep)
            == if xs == [] then [] else (if keep(xs[0]) then [xs[0]] else []) + Filter(xs[1..], keep)
  {
  }

  lemma {:induction false} FilterEach(a: seq<nat>, b: seq<nat>, x: nat, keep: nat -> bool)
    ensures Filter(a + b, keep) == Filter(a, keep) + Filter(b, keep)
    ensures Filter([x], keep) == if keep(x) then [x] else []
    decreases |a|
  {
    hide Filter;
    FilterFirst([x], keep);
    FilterFirst([x][1..], keep);
    FilterFirst(a, keep);
    FilterFirst(a + b, keep);
    if a == [] {
      assert a + b == b;
    } else {
      FilterEach(a[1..], b, x, keep);
      assert (a + b)[1..] == a[1..] + b;
      Associative(if keep(a[0]) then [a[0]] else [], Filter(a[1..], keep), Filter(b, keep));
    }
  }

  /** A sequence that is not stored is left out of the answer. */
  lemma {:induction false} SendInfoEach(c: Channel, a: seq<nat>, b: seq<nat>, s: nat)
    ensures GetSendPacketInfo(c, a + b) == GetSendPacketInfo(c, a) + GetSendPacketInfo(c, b)
    ensures GetSendPacketInfo(c, [s]) == if s in c.sendPackets then [c.sendPackets[s]] else []
    decreases |a|
  {
    assert [s][1..] == [];
    if a == [] {
      assert a + b == b;
    } else {
      SendInfoEach(c, a[1..], b, s);
      assert (a + b)[1..] == a[1..] + b;
      Associative(if a[0] in c.sendPackets then [c.sendPackets[a[0]]] else [],
                  GetSendPacketInfo(c, a[1..]), GetSendPacketInfo(c, b));
    }
  }

  /** A received packet without an acknowledgement is not. */
  lemma {:induction false} RecvInfoEach(c: Channel, a: seq<nat>, b: seq<nat>, s: nat)
    ensures GetRecvPacketInfo(c, a + b) == GetRecvPacketInfo(c, a) + GetRecvPacketInfo(c, b)
    ensures GetRecvPacketInfo(c, [s])
            == if s !in c.recvPackets then []
               else [c.recvPackets[s].(ack := if s in c.rawAcks then Some(c.rawAcks[s]) else None)]
    decreases |a|
  {
    assert [s][1..] == [];
    if a == [] {
      assert a + b == b;
    } else {
      RecvInfoEach(c, a[1..], b, s);
      assert (a + b)[1..] == a[1..] + b;
      var ack := if a[0] in c.rawAcks then Some(c.rawAcks[a[0]]) else None;
      Associative(if a[0] in c.recvPackets then [c.recvPackets[a[0]].(ack := ack)] else [],
                  GetRecvPacketInfo(c, a[1..]), GetRecvPacketInfo(c, b));
    }
  }

  // ----- Answers are complete when nothing asked for is missing -----

  lemma {:induction false} AllSendInfo(c: Channel, sequences: seq<nat>)
    requires forall s :: s in sequences ==> s in c.sendPackets
    ensures var infos := GetSendPacketInfo(c, sequences);
            |infos| == |sequences| && forall i :: 0 <= i < |infos| ==> infos[i] == c.sendPackets[sequences[i]]
  {
    if sequences != [] { AllSendInfo(c, sequences[1..]); }
  }

  lemma {:induction false} AllRecvInfo(c: Channel, sequences: seq<nat>)
    requires forall s :: s in sequences ==> s in c.recvPackets && s in c.rawAcks
    ensures var infos := GetRecvPacketInfo(c, sequences);
            && |infos| == |sequences|
            && forall i :: 0 <= i < |infos| ==>
                 infos[i] == c.recvPackets[sequences[i]].(ack := Some(c.rawAcks[sequences[i]]))
  {
    if sequences != [] { AllRecvInfo(c, sequences[1..]); }
  }
}
