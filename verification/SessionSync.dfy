/** Catching a Grandpa light client up with the session changes of the relay chain. */
module SessionSync {
  import opened Common

  /** Session ends, `length` blocks apart, and the prover's answer for the session end of a block. */
  datatype Schedule = Schedule(isEnd: nat -> bool, length: nat, sessionEnd: nat -> nat)

  /** Ends are periodic, and the prover answers with the first end at or after a block; for a block that is an end it
      may answer with that end or with the following one. */
  ghost predicate Periodic(s: Schedule) {
    && s.length > 0
    && (forall e: nat :: s.isEnd(e) ==> s.isEnd(e + s.length))
    && (forall e: nat, x: nat :: s.isEnd(e) && s.isEnd(x) && e < x ==> e + s.length <= x)
    && (forall b: nat :: s.isEnd(s.sessionEnd(b)) && b <= s.sessionEnd(b))
    && (forall b: nat, x: nat :: s.isEnd(x) && b < x ==> s.sessionEnd(b) <= x)
  }

  /** The first session end after a block, as the catch-up computes it. */
  function FirstEnd(s: Schedule, block: nat): nat {
    if s.sessionEnd(block) == block then block + s.length else s.sessionEnd(block)
  }

  ghost predicate IsFirstEnd(s: Schedule, block: nat, end: nat) {
    && s.isEnd(end) && block < end
    && forall x: nat :: s.isEnd(x) && block < x ==> end <= x
  }

  lemma FirstEndIsFirst(s: Schedule, block: nat)
    requires Periodic(s)
    ensures IsFirstEnd(s, block, FirstEnd(s, block))
  {
    assert s.isEnd(s.sessionEnd(block));
  }

  lemma NextEndIsFirst(s: Schedule, end: nat)
    requires Periodic(s) && s.isEnd(end)
    ensures IsFirstEnd(s, end, end + s.length)
  {
  }

  // ----- The catch-up messages -----

  /** A client update: it covers relay blocks after `relayFrom` up to `relayTo`, and carries the events of parachain
      blocks after `paraFrom` up to `paraTo`. */
  datatype Message = Message(relayFrom: nat, relayTo: nat, paraFrom: nat, paraTo: nat)

  function Catchup(s: Schedule, para: nat -> nat, prevPara: nat, prev: nat, end: nat, latest: nat, limit: nat): seq<Message>
    requires s.length > 0
    decreases limit
  {
    if end <= latest && limit > 0
    then [Message(prev, end, prevPara, para(end))]
         + Catchup(s, para, para(end), end, end + s.length, latest, limit - 1)
    else []
  }

  /** `para` is the latest parachain block finalized at a relay block. */
  method QueryMissedGrandpaUpdates(s: Schedule, para: nat -> nat, clientPara: nat, clientRelay: nat, latest: nat, limit: nat)
    returns (messages: seq<Message>)
    requires s.length > 0
    ensures messages == Catchup(s, para, clientPara, clientRelay, FirstEnd(s, clientRelay), latest, limit)
  {
    var prevPara: nat, prev: nat := clientPara, clientRelay;
    var end: nat := s.sessionEnd(prev);
    if end == prev {
      end := end + s.length;
    }
    messages := [];
    var count := 0;
    while end <= latest && count < limit
      invariant count <= limit
      invariant messages + Catchup(s, para, prevPara, prev, end, latest, limit - count)
                == Catchup(s, para, clientPara, clientRelay, FirstEnd(s, clientRelay), latest, limit)
      decreases limit - count
    {
      messages := messages + [Message(prev, end, prevPara, para(end))];
      prev := end;
      prevPara := para(end);
      end := end + s.length;
      count := count + 1;
    }
  }

  // ----- As many messages as there are session ends -----

  ghost function EndsIn(s: Schedule, prev: nat, latest: nat): set<nat> {
    set e: nat | e <= latest && prev < e && s.isEnd(e)
  }

  lemma FirstOfEnds(s: Schedule, prev: nat, end: nat, latest: nat)
    requires Periodic(s) && IsFirstEnd(s, prev, end)
    ensures EndsIn(s, prev, latest) == if end <= latest then {end} + EndsIn(s, end, latest) else {}
  {
  }

  /** There are as many messages as session ends up to the latest block, within the limit. */
  lemma {:induction false} OneMessagePerEnd(s: Schedule, para: nat -> nat, prevPara: nat, prev: nat, end: nat,
                                            latest: nat, limit: nat)
    requires Periodic(s) && IsFirstEnd(s, prev, end)
    ensures |Catchup(s, para, prevPara, prev, end, latest, limit)| == Min(limit, |EndsIn(s, prev, latest)|)
    decreases limit
  {
    hide EndsIn;
    FirstOfEnds(s, prev, end, latest);
    if end <= latest && limit > 0 {
      NextEndIsFirst(s, end);
      OneMessagePerEnd(s, para, para(end), end, end + s.length, latest, limit - 1);
      assert end !in EndsIn(s, end, latest) by { EndNotAfterItself(s, end, latest); }
    }
  }

  lemma EndNotAfterItself(s: Schedule, end: nat, latest: nat)
    ensures end !in EndsIn(s, end, latest)
  {
  }

  /** Each message ends at the first session end after the block it starts from. */
  lemma {:induction false} MessagesEndAtSessions(s: Schedule, para: nat -> nat, prevPara: nat, prev: nat, end: nat,
                                                 latest: nat, limit: nat, i: nat)
    requires Periodic(s) && IsFirstEnd(s, prev, end)
    requires i < |Catchup(s, para, prevPara, prev, end, latest, limit)|
    ensures var m := Catchup(s, para, prevPara, prev, end, latest, limit)[i];
            IsFirstEnd(s, m.relayFrom, m.relayTo) && m.relayTo <= latest && m.paraTo == para(m.relayTo)
    decreases limit
  {
    if i > 0 {
      NextEndIsFirst(s, end);
      MessagesEndAtSessions(s, para, para(end), end, end + s.length, latest, limit - 1, i - 1);
    }
  }

  // ----- No gap, no overlap -----

  /** Consecutive half-open ranges from `lo` on. */
  ghost predicate Chained(ranges: seq<(nat, nat)>, lo: nat) {
    && (forall i :: 0 <= i < |ranges| ==> ranges[i].0 <= ranges[i].1)
    && (|ranges| > 0 ==> ranges[0].0 == lo)
    && (forall i :: 0 < i < |ranges| ==> ranges[i].0 == ranges[i - 1].1)
  }

  predicate Within(x: nat, range: (nat, nat)) { range.0 < x <= range.1 }

  lemma {:induction false} ChainedEnds(ranges: seq<(nat, nat)>, lo: nat, i: nat, j: nat)
    requires Chained(ranges, lo) && i < j < |ranges|
    ensures ranges[i].1 <= ranges[j].0
    decreases j - i
  {
    if i + 1 < j { ChainedEnds(ranges, lo, i, j - 1); }
  }

  /** Every block up to the end of the last range lies in one of them, and only in one. */
  lemma {:induction false} ChainedTiles(ranges: seq<(nat, nat)>, lo: nat, x: nat) returns (i: nat)
    requires Chained(ranges, lo) && ranges != [] && lo < x <= ranges[|ranges| - 1].1
    ensures i < |ranges| && Within(x, ranges[i])
    ensures forall j :: 0 <= j < |ranges| && Within(x, ranges[j]) ==> j == i
    decreases |ranges|
  {
    var k := |ranges| - 1;
    if ranges[k].0 < x {
      i := k;
    } else {
      i := ChainedTiles(ranges[..k], lo, x);
    }
    forall j | 0 <= j < |ranges| && Within(x, ranges[j]) ensures j == i {
      if j < i { ChainedEnds(ranges, lo, j, i); }
      if i < j { ChainedEnds(ranges, lo, i, j); }
    }
  }

  function RelayRanges(msgs: seq<Message>): seq<(nat, nat)> {
    seq(|msgs|, i requires 0 <= i < |msgs| => (msgs[i].relayFrom, msgs[i].relayTo))
  }

  function ParaRanges(msgs: seq<Message>): seq<(nat, nat)> {
    seq(|msgs|, i requires 0 <= i < |msgs| => (msgs[i].paraFrom, msgs[i].paraTo))
  }

  ghost predicate Monotone(para: nat -> nat) { forall a: nat, b: nat :: a <= b ==> para(a) <= para(b) }

  lemma ChainedCons(first: (nat, nat), rest: seq<(nat, nat)>)
    requires first.0 <= first.1 && Chained(rest, first.1)
    ensures Chained([first] + rest, first.0)
  {
  }

  /** Relay ranges and parachain ranges are both consecutive, so by `ChainedTiles` no block is skipped or repeated. */
  lemma {:induction false} MessagesTile(s: Schedule, para: nat -> nat, prevPara: nat, prev: nat, end: nat,
                                        latest: nat, limit: nat)
    requires s.length > 0 && Monotone(para) && prev < end && prevPara <= para(end)
    ensures var msgs := Catchup(s, para, prevPara, prev, end, latest, limit);
            Chained(RelayRanges(msgs), prev) && Chained(ParaRanges(msgs), prevPara)
    decreases limit
  {
    var msgs := Catchup(s, para, prevPara, prev, end, latest, limit);
    if end <= latest && limit > 0 {
      var rest := Catchup(s, para, para(end), end, end + s.length, latest, limit - 1);
      MessagesTile(s, para, para(end), end, end + s.length, latest, limit - 1);
      assert RelayRanges(msgs) == [(prev, end)] + RelayRanges(rest);
      assert ParaRanges(msgs) == [(prevPara, para(end))] + ParaRanges(rest);
      ChainedCons((prev, end), RelayRanges(rest));
      ChainedCons((prevPara, para(end)), ParaRanges(rest));
    }
  }

  // ----- The sync check -----

  function SaturatingSub(a: nat, b: nat): nat { if a < b then 0 else a - b }

  predicate IsSynced(s: Schedule, client: nat, latest: nat)
    requires s.length > 0
  {
    SaturatingSub(latest, s.sessionEnd(client)) / s.length == 0
  }

  lemma MulAtLeast(q: nat, b: nat)
    requires q >= 1
    ensures q * b >= b
  {
    assert q * b == (q - 1) * b + b;
  }

  lemma DivisionIsZero(a: nat, b: nat)
    requires b > 0
    ensures a / b == 0 <==> a < b
  {
    var q := a / b;
    assert a == q * b + a % b && 0 <= a % b < b;
    if q >= 1 { MulAtLeast(q, b); }
  }

  lemma SyncedIff(s: Schedule, client: nat, latest: nat)
    requires Periodic(s)
    ensures IsSynced(s, client, latest) <==> latest < s.sessionEnd(client) + s.length
  {
    DivisionIsZero(SaturatingSub(latest, s.sessionEnd(client)), s.length);
  }

  /** The check does not mean that no session change was missed: it also accepts a client that missed exactly the first
      one.  It is right if and only if that is not the case. */
  lemma SyncedMeansNoneMissedIff(s: Schedule, client: nat, latest: nat)
    requires Periodic(s)
    ensures (IsSynced(s, client, latest) <==> EndsIn(s, client, latest) == {})
            <==> !(client < s.sessionEnd(client) <= latest < s.sessionEnd(client) + s.length)
  {
    SyncedIff(s, client, latest);
    FirstEndIsFirst(s, client);
    FirstOfEnds(s, client, FirstEnd(s, client), latest);
    assert FirstEnd(s, client) <= latest ==> FirstEnd(s, client) in EndsIn(s, client, latest);
  }

  predicate TenthBlock(e: nat) { e % 10 == 0 }

  function TenthAfter(b: nat): nat { b - b % 10 + 10 }

  lemma TenthBlocks(e: nat, x: nat)
    ensures TenthBlock(e) ==> TenthBlock(e + 10)
    ensures TenthBlock(e) && TenthBlock(x) && e < x ==> e + 10 <= x
    ensures TenthBlock(TenthAfter(e)) && e <= TenthAfter(e)
    ensures TenthBlock(x) && e < x ==> TenthAfter(e) <= x
  {
  }

  /** With sessions of ten blocks, a client at block 5 is accepted at block 12, although a session ended at block 10. */
  lemma MissedEndAccepted()
    ensures var s := Schedule(TenthBlock, 10, TenthAfter);
            Periodic(s) && IsSynced(s, 5, 12) && 10 in EndsIn(s, 5, 12)
  {
    assert TenthAfter(5) == 10 && TenthBlock(10);
    hide TenthBlock, TenthAfter;
    forall e: nat | TenthBlock(e) ensures TenthBlock(e + 10) { TenthBlocks(e, e); }
    forall e: nat ensures TenthBlock(TenthAfter(e)) && e <= TenthAfter(e) { TenthBlocks(e, e); }
    forall e: nat, x: nat | TenthBlock(e) && TenthBlock(x) && e < x ensures e + 10 <= x { TenthBlocks(e, x); }
    forall e: nat, x: nat | TenthBlock(x) && e < x ensures TenthAfter(e) <= x { TenthBlocks(e, x); }
  }

  /** The client's relay height after the messages of a round are applied. */
  function After(s: Schedule, para: nat -> nat, clientPara: nat, client: nat, latest: nat, limit: nat): nat
    requires s.length > 0
  {
    var msgs := Catchup(s, para, clientPara, client, FirstEnd(s, client), latest, limit);
    if msgs == [] then client else msgs[|msgs| - 1].relayTo
  }

  /** A client that is not in sync gets at least one message. */
  lemma UnsyncedGetsMessage(s: Schedule, para: nat -> nat, clientPara: nat, client: nat, latest: nat, limit: nat)
    requires Periodic(s) && limit > 0 && !IsSynced(s, client, latest)
    ensures Catchup(s, para, clientPara, client, FirstEnd(s, client), latest, limit) != []
  {
    SyncedIff(s, client, latest);
  }

  lemma {:induction false} LastMessage(s: Schedule, para: nat -> nat, prevPara: nat, prev: nat, end: nat,
                                       latest: nat, limit: nat)
    requires Periodic(s) && IsFirstEnd(s, prev, end)
    ensures var msgs := Catchup(s, para, prevPara, prev, end, latest, limit);
            msgs != [] ==> var last := msgs[|msgs| - 1].relayTo;
                           && s.isEnd(last) && prev < last <= latest
                           && (|msgs| < limit ==> latest < last + s.length)
    decreases limit
  {
    if end <= latest && limit > 0 {
      NextEndIsFirst(s, end);
      LastMessage(s, para, para(end), end, end + s.length, latest, limit - 1);
    }
  }

  /** A round that stays below the limit leaves the client in sync. */
  lemma ShortRoundSyncs(s: Schedule, para: nat -> nat, clientPara: nat, client: nat, latest: nat, limit: nat)
    requires Periodic(s)
    requires |Catchup(s, para, clientPara, client, FirstEnd(s, client), latest, limit)| < limit
    ensures IsSynced(s, After(s, para, clientPara, client, latest, limit), latest)
  {
    FirstEndIsFirst(s, client);
    LastMessage(s, para, clientPara, client, FirstEnd(s, client), latest, limit);
    SyncedIff(s, After(s, para, clientPara, client, latest, limit), latest);
  }

  ghost function Rounds(s: Schedule, para: nat -> nat, client: nat, latest: nat, limit: nat, n: nat): nat
    requires s.length > 0
    decreases n
  {
    if n == 0 then client
    else Rounds(s, para, After(s, para, para(client), client, latest, limit), latest, limit, n - 1)
  }

  /** For a fixed finalized block, applying the returned updates over and over reaches a synced client, in no more
      rounds than there are session ends left. */
  lemma {:induction false} CatchupReachesSync(s: Schedule, para: nat -> nat, client: nat, latest: nat, limit: nat)
    returns (n: nat)
    requires Periodic(s) && limit > 0
    ensures IsSynced(s, Rounds(s, para, client, latest, limit, n), latest)
    ensures n <= |EndsIn(s, client, latest)|
    decreases latest - client
  {
    n := 0;
    if !IsSynced(s, client, latest) {
      var first, next := FirstEnd(s, client), After(s, para, para(client), client, latest, limit);
      UnsyncedGetsMessage(s, para, para(client), client, latest, limit);
      FirstEndIsFirst(s, client);
      LastMessage(s, para, para(client), client, first, latest, limit);
      n := CatchupReachesSync(s, para, next, latest, limit);
      n := n + 1;
      FewerEnds(s, client, next, latest);
    }
  }

  lemma FewerEnds(s: Schedule, client: nat, next: nat, latest: nat)
    requires client < next <= latest && s.isEnd(next)
    ensures |EndsIn(s, next, latest)| < |EndsIn(s, client, latest)|
  {
    assert next in EndsIn(s, client, latest) && next !in EndsIn(s, next, latest);
    SmallerSet(EndsIn(s, next, latest), EndsIn(s, client, latest));
  }

  lemma {:induction false} SmallerSet(a: set<nat>, b: set<nat>)
    requires a < b
    ensures |a| < |b|
    decreases a
  {
    if a == {} {
      var x :| x in b;
      assert |b - {x}| == |b| - 1;
    } else {
      var x :| x in a;
      SmallerSet(a - {x}, b - {x});
    }
  }
}
