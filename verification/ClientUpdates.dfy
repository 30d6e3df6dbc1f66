/** Which client updates the relayer sends, and why the proof search succeeds after them. */
module ClientUpdates {
  import opened Common
  import opened ProofHeight

  /** A message for the sink: a client update to a height, or a packet message made from events. */
  datatype Msg = UpdateClient(height: nat) | Relay(payload: Bytes)

  /** A client update the source offers.  `messages` is what its events translate to, if they translate at all, and
      `hasPacketEvents` whether they contain a sent packet or a written acknowledgement. */
  datatype Update = Update(height: nat, optional: bool, hasPacketEvents: bool, messages: Option<seq<Msg>>)

  function Heights(updates: seq<Update>): (hs: seq<nat>)
    ensures |hs| == |updates| && forall i :: 0 <= i < |hs| ==> hs[i] == updates[i].height
  {
    seq(|updates|, i requires 0 <= i < |updates| => updates[i].height)
  }

  // ----- Heights that must be sent for undelivered packets -----

  /** The update at `h` and the one `d` blocks earlier, whose events it proves, are both on offer. */
  predicate Paired(heights: seq<nat>, d: nat, h: nat) { h >= d && h - d in heights }

  /** The pair of the last update among the first `n` that has a partner. */
  function LastPair(heights: seq<nat>, d: nat, n: nat): set<nat>
    requires n <= |heights|
  {
    if n == 0 then {}
    else if Paired(heights, d, heights[n - 1]) then {heights[n - 1], heights[n - 1] - d}
    else LastPair(heights, d, n - 1)
  }

  /** The update at `i` proves the events of another one on offer, `d` blocks earlier. */
  ghost predicate Proves(updates: seq<Update>, d: nat, i: nat)
    requires i < |updates|
  {
    exists j :: 0 <= j < |updates| && updates[j].height + d == updates[i].height
  }

  /** The last update that proves another is at `h`, or `d` blocks after it. */
  ghost predicate InLastPair(updates: seq<Update>, d: nat, h: nat) {
    exists i: nat :: && i < |updates| && Proves(updates, d, i)
                     && (forall j: nat :: i < j < |updates| ==> !Proves(updates, d, j))
                     && (h == updates[i].height || h + d == updates[i].height)
  }

  lemma PairedIsProves(updates: seq<Update>, d: nat, i: nat)
    requires i < |updates|
    ensures Paired(Heights(updates), d, updates[i].height) <==> Proves(updates, d, i)
  {
    var hs, h := Heights(updates), updates[i].height;
    if Paired(hs, d, h) {
      var j :| 0 <= j < |hs| && hs[j] == h - d;
      assert updates[j].height + d == h;
    }
    if Proves(updates, d, i) {
      var j :| 0 <= j < |updates| && updates[j].height + d == h;
      assert hs[j] == h - d;
    }
  }

  lemma {:induction false} LastPairIs(heights: seq<nat>, d: nat, n: nat, i: nat)
    requires i < n <= |heights| && Paired(heights, d, heights[i])
    requires forall j :: i < j < n ==> !Paired(heights, d, heights[j])
    ensures LastPair(heights, d, n) == {heights[i], heights[i] - d}
    decreases n
  {
    if i < n - 1 { LastPairIs(heights, d, n - 1, i); }
  }

  lemma {:induction false} NoPair(heights: seq<nat>, d: nat, n: nat)
    requires n <= |heights| && forall j :: 0 <= j < n ==> !Paired(heights, d, heights[j])
    ensures LastPair(heights, d, n) == {}
  {
    if n > 0 { NoPair(heights, d, n - 1); }
  }

  lemma {:induction false} LastProof(updates: seq<Update>, d: nat, n: nat) returns (i: nat)
    requires n <= |updates| && exists j: nat :: j < n && Proves(updates, d, j)
    ensures i < n && Proves(updates, d, i) && forall j: nat :: i < j < n ==> !Proves(updates, d, j)
    decreases n
  {
    if Proves(updates, d, n - 1) { i := n - 1; } else { i := LastProof(updates, d, n - 1); }
  }

  /** Exactly the heights of the last pair. */
  ghost predicate IsLastPair(updates: seq<Update>, d: nat, mandatory: set<nat>) {
    forall h :: h in mandatory <==> InLastPair(updates, d, h)
  }

  lemma LastPairMeans(updates: seq<Update>, d: nat)
    ensures IsLastPair(updates, d, LastPair(Heights(updates), d, |updates|))
  {
    var hs := Heights(updates);
    forall i: nat | i < |updates| ensures Paired(hs, d, hs[i]) <==> Proves(updates, d, i) {
      PairedIsProves(updates, d, i);
    }
    hide Proves;
    if exists j: nat :: j < |updates| && Proves(updates, d, j) {
      var i := LastProof(updates, d, |updates|);
      LastPairIs(hs, d, |updates|, i);
    } else {
      NoPair(hs, d, |updates|);
    }
  }

  /** `d` is the distance from the first update's height to its proof height. */
  method FindMandatoryHeights(updates: seq<Update>, proofHeight: nat -> nat) returns (mandatory: set<nat>)
    requires updates != [] && proofHeight(updates[0].height) >= updates[0].height
    ensures mandatory == LastPair(Heights(updates), proofHeight(updates[0].height) - updates[0].height, |updates|)
    ensures IsLastPair(updates, proofHeight(updates[0].height) - updates[0].height, mandatory)
  {
    hide IsLastPair;
    LastPairMeans(updates, proofHeight(updates[0].height) - updates[0].height);
    mandatory := {};
    var heights := Heights(updates);
    var d := proofHeight(updates[0].height) - updates[0].height;
    var needed := if d > 0 then 2 else 1;
    var n := |updates|;
    while n > 0
      invariant 0 <= n <= |updates| && mandatory == {}
      invariant LastPair(heights, d, |updates|) == LastPair(heights, d, n)
    {
      var h := updates[n - 1].height;
      if h >= d {
        if h - d in heights {
          mandatory := mandatory + {h};
          mandatory := mandatory + {h - d};
          assert mandatory == {h, h - d} && |{h, h - d}| == needed;
        }
      }
      if |mandatory| == needed {
        return;
      }
      n := n - 1;
    }
  }

  // ----- Which updates are sent -----

  /** Only an optional update that carries nothing and that no undelivered packet needs is left out. */
  predicate Sent(u: Update, mandatory: set<nat>, skipOptional: bool) {
    || !(skipOptional && u.optional && u.height !in mandatory)
    || u.hasPacketEvents
    || u.messages != Some([])
  }

  /** The messages the updates amount to, in order; none if some events do not translate. */
  function Outgoing(updates: seq<Update>, mandatory: set<nat>, skipOptional: bool): Option<seq<Msg>> {
    if updates == [] then Some([])
    else
      var k := |updates| - 1;
      var before := Outgoing(updates[..k], mandatory, skipOptional);
      if before.None? || updates[k].messages.None? then None
      else if Sent(updates[k], mandatory, skipOptional)
      then Some(before.value + [UpdateClient(updates[k].height)] + updates[k].messages.value)
      else before
  }

  function MandatoryFor(updates: seq<Update>, undelivered: bool, proofHeight: nat -> nat): set<nat>
    requires updates != [] ==> proofHeight(updates[0].height) >= updates[0].height
  {
    if undelivered && updates != []
    then LastPair(Heights(updates), proofHeight(updates[0].height) - updates[0].height, |updates|)
    else {}
  }

  method ProcessUpdates(updates: seq<Update>, sinkUndelivered: bool, sourceUndelivered: bool,
                        skipOptional: bool, proofHeight: nat -> nat)
    returns (r: Option<seq<Msg>>)
    requires updates != [] ==> proofHeight(updates[0].height) >= updates[0].height
    ensures r == Outgoing(updates, MandatoryFor(updates, sinkUndelivered || sourceUndelivered, proofHeight), skipOptional)
    ensures r.Some? <==> forall i :: 0 <= i < |updates| ==> updates[i].messages.Some?
    ensures r.Some? && updates != [] ==>
              forall keep :: KeepRule(updates, sinkUndelivered || sourceUndelivered, skipOptional,
                                      proofHeight(updates[0].height) - updates[0].height, keep)
                             ==> r.value == Concatenated(updates, keep)
  {
    hide KeepRule, IsLastPair, LastPair;
    var mandatory: set<nat> := {};
    if (sinkUndelivered || sourceUndelivered) && updates != [] {
      mandatory := FindMandatoryHeights(updates, proofHeight);
    }
    var msgs: seq<Msg> := [];
    var i := 0;
    while i < |updates|
      invariant i <= |updates|
      invariant Outgoing(updates[..i], mandatory, skipOptional) == Some(msgs)
      invariant forall j :: 0 <= j < i ==> updates[j].messages.Some?
    {
      var u := updates[i];
      assert updates[..i + 1][..i] == updates[..i];
      if u.messages.None? {
        OutgoingFails(updates, mandatory, skipOptional, i);
        return None;
      }
      var needProofs := (sinkUndelivered || sourceUndelivered) && u.height in mandatory;
      if !(skipOptional && u.optional && !needProofs && !u.hasPacketEvents && u.messages.value == []) {
        msgs := msgs + [UpdateClient(u.height)];
        msgs := msgs + u.messages.value;
      }
      i := i + 1;
    }
    assert updates[..i] == updates;
    if updates != [] { EveryRule(updates, sinkUndelivered || sourceUndelivered, skipOptional, proofHeight); }
    return Some(msgs);
  }

  lemma {:induction false} OutgoingFails(updates: seq<Update>, mandatory: set<nat>, skipOptional: bool, i: nat)
    requires i < |updates| && updates[i].messages.None?
    ensures Outgoing(updates, mandatory, skipOptional) == None
    decreases |updates|
  {
    if i < |updates| - 1 {
      OutgoingFails(updates[..|updates| - 1], mandatory, skipOptional, i);
    }
  }

  // ----- Exactly what is sent -----

  /** The updates with their messages, in order, without those that are not kept. */
  ghost function Concatenated(updates: seq<Update>, keep: seq<bool>): seq<Msg>
    requires |keep| == |updates| && forall i :: 0 <= i < |updates| ==> updates[i].messages.Some?
  {
    if updates == [] then []
    else (if keep[0] then [UpdateClient(updates[0].height)] + updates[0].messages.value else [])
         + Concatenated(updates[1..], keep[1..])
  }

  lemma {:induction false} ConcatenatedLast(updates: seq<Update>, keep: seq<bool>)
    requires |keep| == |updates| > 0 && forall i :: 0 <= i < |updates| ==> updates[i].messages.Some?
    ensures var k := |updates| - 1;
            Concatenated(updates, keep)
            == Concatenated(updates[..k], keep[..k])
               + if keep[k] then [UpdateClient(updates[k].height)] + updates[k].messages.value else []
    decreases |updates|
  {
    var k := |updates| - 1;
    if k == 0 {
      assert updates[1..] == [] && updates[..0] == [];
    } else {
      ConcatenatedLast(updates[1..], keep[1..]);
      assert updates[1..][..k - 1] == updates[..k][1..] && keep[1..][..k - 1] == keep[..k][1..];
    }
  }

  /** An update is left out exactly when it is optional, optional ones are to be skipped, its events contain no packet,
      they translate to nothing, and it is not one of the last pair while something is undelivered. */
  ghost predicate KeepRule(updates: seq<Update>, undelivered: bool, skipOptional: bool, d: nat, keep: seq<bool>) {
    && |keep| == |updates|
    && forall i :: 0 <= i < |updates| ==>
         (keep[i] <==> !(&& updates[i].optional && skipOptional && !updates[i].hasPacketEvents
                         && updates[i].messages == Some([])
                         && !(undelivered && InLastPair(updates, d, updates[i].height))))
  }

  lemma {:induction false} OutgoingPrefix(updates: seq<Update>, mandatory: set<nat>, skipOptional: bool, keep: seq<bool>, n: nat)
    requires n <= |updates| == |keep| && forall i :: 0 <= i < n ==> updates[i].messages.Some?
    requires forall i :: 0 <= i < n ==>
               (keep[i] <==> !(&& updates[i].optional && skipOptional && !updates[i].hasPacketEvents
                               && updates[i].messages == Some([]) && updates[i].height !in mandatory))
    ensures Outgoing(updates[..n], mandatory, skipOptional) == Some(Concatenated(updates[..n], keep[..n]))
    decreases n
  {
    if n > 0 {
      OutgoingPrefix(updates, mandatory, skipOptional, keep, n - 1);
      assert updates[..n][..n - 1] == updates[..n - 1] && keep[..n][..n - 1] == keep[..n - 1];
      ConcatenatedLast(updates[..n], keep[..n]);
      var u, before := updates[n - 1], Concatenated(updates[..n - 1], keep[..n - 1]);
      assert before + [UpdateClient(u.height)] + u.messages.value == before + ([UpdateClient(u.height)] + u.messages.value);
      assert before + [] == before;
    }
  }

  lemma MandatoryRule(updates: seq<Update>, undelivered: bool, proofHeight: nat -> nat)
    requires updates != [] && proofHeight(updates[0].height) >= updates[0].height
    ensures var d := proofHeight(updates[0].height) - updates[0].height;
            forall h :: h in MandatoryFor(updates, undelivered, proofHeight) <==> undelivered && InLastPair(updates, d, h)
  {
    hide InLastPair, LastPair;
    LastPairMeans(updates, proofHeight(updates[0].height) - updates[0].height);
  }

  lemma EveryRule(updates: seq<Update>, undelivered: bool, skipOptional: bool, proofHeight: nat -> nat)
    requires updates != [] && proofHeight(updates[0].height) >= updates[0].height
    requires forall i :: 0 <= i < |updates| ==> updates[i].messages.Some?
    ensures forall keep :: KeepRule(updates, undelivered, skipOptional, proofHeight(updates[0].height) - updates[0].height, keep)
              ==> Outgoing(updates, MandatoryFor(updates, undelivered, proofHeight), skipOptional)
                  == Some(Concatenated(updates, keep))
  {
    hide Outgoing, MandatoryFor, InLastPair;
    forall keep | KeepRule(updates, undelivered, skipOptional, proofHeight(updates[0].height) - updates[0].height, keep)
      ensures Outgoing(updates, MandatoryFor(updates, undelivered, proofHeight), skipOptional)
              == Some(Concatenated(updates, keep))
    {
      OutgoingExactly(updates, undelivered, skipOptional, proofHeight, keep);
    }
  }

  /** The outgoing messages are those of the updates that are kept, each after its client update, in order, once. */
  lemma OutgoingExactly(updates: seq<Update>, undelivered: bool, skipOptional: bool, proofHeight: nat -> nat, keep: seq<bool>)
    requires updates != [] && proofHeight(updates[0].height) >= updates[0].height
    requires forall i :: 0 <= i < |updates| ==> updates[i].messages.Some?
    requires KeepRule(updates, undelivered, skipOptional, proofHeight(updates[0].height) - updates[0].height, keep)
    ensures Outgoing(updates, MandatoryFor(updates, undelivered, proofHeight), skipOptional)
            == Some(Concatenated(updates, keep))
  {
    var d := proofHeight(updates[0].height) - updates[0].height;
    MandatoryRule(updates, undelivered, proofHeight);
    hide InLastPair, MandatoryFor, Outgoing;
    OutgoingPrefix(updates, MandatoryFor(updates, undelivered, proofHeight), skipOptional, keep, |updates|);
    assert updates[..|updates|] == updates && keep[..|updates|] == keep;
  }

  /** A client update to `h` goes out if and only if one is offered that the rule does not leave out. */
  lemma UpdateSentIff(updates: seq<Update>, undelivered: bool, skipOptional: bool, proofHeight: nat -> nat, keep: seq<bool>, h: nat)
    requires updates != [] && proofHeight(updates[0].height) >= updates[0].height
    requires forall i :: 0 <= i < |updates| ==> updates[i].messages.Some? && RelaysOnly(updates[i])
    requires KeepRule(updates, undelivered, skipOptional, proofHeight(updates[0].height) - updates[0].height, keep)
    ensures var msgs := Outgoing(updates, MandatoryFor(updates, undelivered, proofHeight), skipOptional);
            && msgs.Some?
            && (UpdateClient(h) in msgs.value <==> exists i :: 0 <= i < |updates| && updates[i].height == h && keep[i])
  {
    hide InLastPair;
    OutgoingExactly(updates, undelivered, skipOptional, proofHeight, keep);
    UpdateKeptIff(updates, keep, h);
  }

  lemma {:induction false} UpdateKeptIff(updates: seq<Update>, keep: seq<bool>, h: nat)
    requires |keep| == |updates| && forall i :: 0 <= i < |updates| ==> updates[i].messages.Some? && RelaysOnly(updates[i])
    ensures UpdateClient(h) in Concatenated(updates, keep)
            <==> exists i :: 0 <= i < |updates| && updates[i].height == h && keep[i]
  {
    if updates != [] {
      UpdateKeptIff(updates[1..], keep[1..], h);
      assert RelaysOnly(updates[0]);
      if i :| 0 <= i < |updates| && updates[i].height == h && keep[i] {
        if i > 0 { assert updates[1..][i - 1].height == h && keep[1..][i - 1]; }
      }
      if i :| 0 <= i < |updates[1..]| && updates[1..][i].height == h && keep[1..][i] {
        assert updates[i + 1].height == h && keep[i + 1];
      }
    }
  }

  // ----- What is certain to be sent -----

  /** A sent update goes out right before the messages of its events, with everything else around them. */
  lemma {:induction false} SentInPlace(updates: seq<Update>, mandatory: set<nat>, skipOptional: bool, i: nat)
    returns (before: seq<Msg>, after: seq<Msg>)
    requires i < |updates| && Sent(updates[i], mandatory, skipOptional)
    requires Outgoing(updates, mandatory, skipOptional).Some?
    ensures updates[i].messages.Some?
    ensures Outgoing(updates, mandatory, skipOptional).value
            == before + ([UpdateClient(updates[i].height)] + updates[i].messages.value) + after
    decreases |updates|
  {
    var k := |updates| - 1;
    if i < k {
      before, after := SentInPlace(updates[..k], mandatory, skipOptional, i);
      if Sent(updates[k], mandatory, skipOptional) {
        after := after + ([UpdateClient(updates[k].height)] + updates[k].messages.value);
      }
    } else {
      before, after := Outgoing(updates[..k], mandatory, skipOptional).value, [];
    }
  }

  lemma SentIsOutgoing(updates: seq<Update>, mandatory: set<nat>, skipOptional: bool, i: nat)
    requires i < |updates| && Sent(updates[i], mandatory, skipOptional)
    requires Outgoing(updates, mandatory, skipOptional).Some?
    ensures UpdateClient(updates[i].height) in Outgoing(updates, mandatory, skipOptional).value
  {
    var before, after := SentInPlace(updates, mandatory, skipOptional, i);
    assert Outgoing(updates, mandatory, skipOptional).value[|before|] == UpdateClient(updates[i].height);
  }

  /** No message is lost to a skipped update. */
  lemma MessagesAreOutgoing(updates: seq<Update>, mandatory: set<nat>, skipOptional: bool, i: nat, m: Msg)
    requires i < |updates| && updates[i].messages.Some? && m in updates[i].messages.value
    requires Outgoing(updates, mandatory, skipOptional).Some?
    ensures m in Outgoing(updates, mandatory, skipOptional).value
  {
    var before, after := SentInPlace(updates, mandatory, skipOptional, i);
  }

  /** Translated events never contain a client update of their own. */
  predicate RelaysOnly(u: Update) {
    u.messages.Some? ==> forall m :: m in u.messages.value ==> m.Relay?
  }

  /** Only offered updates that are to be sent go out as client updates. */
  lemma {:induction false} OutgoingIsSent(updates: seq<Update>, mandatory: set<nat>, skipOptional: bool, h: nat)
    returns (i: nat)
    requires Outgoing(updates, mandatory, skipOptional).Some?
    requires UpdateClient(h) in Outgoing(updates, mandatory, skipOptional).value
    requires forall i :: 0 <= i < |updates| ==> RelaysOnly(updates[i])
    ensures i < |updates| && updates[i].height == h && Sent(updates[i], mandatory, skipOptional)
    decreases |updates|
  {
    var k := |updates| - 1;
    if updates[k].height == h && Sent(updates[k], mandatory, skipOptional) {
      i := k;
    } else {
      assert RelaysOnly(updates[k]);
      i := OutgoingIsSent(updates[..k], mandatory, skipOptional, h);
    }
  }

  /** With undelivered packets around, both updates of the last pair `d` apart are sent, optional or not. */
  lemma ForcedPairSent(updates: seq<Update>, skipOptional: bool, proofHeight: nat -> nat, i: nat)
    requires i < |updates| && proofHeight(updates[0].height) >= updates[0].height
    requires var d := proofHeight(updates[0].height) - updates[0].height;
             && Paired(Heights(updates), d, updates[i].height)
             && forall j :: i < j < |updates| ==> !Paired(Heights(updates), d, updates[j].height)
    requires Outgoing(updates, MandatoryFor(updates, true, proofHeight), skipOptional).Some?
    ensures var d := proofHeight(updates[0].height) - updates[0].height;
            var msgs := Outgoing(updates, MandatoryFor(updates, true, proofHeight), skipOptional).value;
            UpdateClient(updates[i].height) in msgs && UpdateClient(updates[i].height - d) in msgs
  {
    var heights, d := Heights(updates), proofHeight(updates[0].height) - updates[0].height;
    var mandatory := MandatoryFor(updates, true, proofHeight);
    LastPairIs(heights, d, |updates|, i);
    SentIsOutgoing(updates, mandatory, skipOptional, i);
    var j :| 0 <= j < |heights| && heights[j] == updates[i].height - d;
    SentIsOutgoing(updates, mandatory, skipOptional, j);
  }

  // ----- Why the proof search then succeeds -----

  /** The sink after it has applied the client updates among `msgs`: it has a consensus state, stamped with the block's
      time, and update metadata for each of their heights. */
  function Apply(sink: Sink, msgs: seq<Msg>, blockTime: nat -> nat): Sink {
    sink.(timestamp := (h: nat) => if UpdateClient(h) in msgs then Some(blockTime(h)) else sink.timestamp(h),
          hasUpdate := (h: nat) => UpdateClient(h) in msgs || sink.hasUpdate(h))
  }

  /** Forced updates make the proof search succeed: once the outgoing messages are applied, the linear search from any
      packet height up to the earlier update of the last pair returns a height no later than that update. */
  lemma ForcedPairProvesPackets(sink: Sink, updates: seq<Update>, skipOptional: bool, blockTime: nat -> nat,
                                d: nat, i: nat, packetHeight: nat, latest: nat)
    requires i < |updates| && forall h: nat :: sink.proofHeight(h) == h + d
    requires Paired(Heights(updates), d, updates[i].height)
    requires forall j :: i < j < |updates| ==> !Paired(Heights(updates), d, updates[j].height)
    requires Outgoing(updates, MandatoryFor(updates, true, sink.proofHeight), skipOptional).Some?
    requires packetHeight <= updates[i].height - d <= latest
    ensures var msgs := Outgoing(updates, MandatoryFor(updates, true, sink.proofHeight), skipOptional).value;
            var r := FirstUsable(Apply(sink, msgs, blockTime), packetHeight, latest);
            r.Some? && packetHeight <= r.value <= updates[i].height - d
  {
    var msgs := Outgoing(updates, MandatoryFor(updates, true, sink.proofHeight), skipOptional).value;
    ForcedPairSent(updates, skipOptional, sink.proofHeight, i);
    var after, h := Apply(sink, msgs, blockTime), updates[i].height - d;
    assert after.proofHeight(h) == updates[i].height;
    assert Usable(after, h);
  }
}
