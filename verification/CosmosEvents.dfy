/** How the Cosmos provider turns a finality event into client updates: blocks and headers are fetched by concurrent
    tasks, collected in completion order, sorted and joined. */
module CosmosEvents {
  import opened Common
  import opened ClientUpdates

  const NUMBER_OF_BLOCKS_TO_PROCESS_PER_ITER: nat := 500

  // ----- Fetching in chunks -----

  ghost predicate DistinctKeys<T(!new)>(xs: seq<(nat, T)>) {
    forall i, j :: 0 <= i < j < |xs| ==> xs[i].0 != xs[j].0
  }

  predicate KeyBelow<T>(x: (nat, T), y: (nat, T)) { x.0 < y.0 }

  ghost predicate IncreasingKeys<T(!new)>(xs: seq<(nat, T)>) { Ascending(xs, KeyBelow) }

  /** One chunk of tasks, spawned together and joined in whatever order they complete.  The first failed task that is
      joined fails the chunk. */
  method JoinChunk<T(!new)>(lo: nat, hi: nat, task: nat -> Option<T>, xs: seq<(nat, T)>)
    returns (ys: seq<(nat, T)>, ok: bool)
    requires lo <= hi && DistinctKeys(xs) && forall x :: x in xs ==> x.0 < lo
    ensures ok <==> forall h :: lo <= h < hi ==> task(h).Some?
    ensures ok ==> DistinctKeys(ys)
    ensures ok ==> forall x :: x in ys <==> x in xs || (lo <= x.0 < hi && task(x.0) == Some(x.1))
  {
    ys := xs;
    var running := set h: nat | lo <= h < hi && InRange(lo, h, hi);
    while running != {}
      invariant forall h :: h in running ==> lo <= h < hi
      invariant DistinctKeys(ys)
      invariant forall h :: lo <= h < hi && h !in running ==> task(h).Some?
      invariant forall x :: x in ys <==> x in xs || (lo <= x.0 < hi && x.0 !in running && task(x.0) == Some(x.1))
      decreases running
    {
      var h :| h in running;
      running := running - {h};
      if task(h).None? {
        return ys, false;
      }
      ys := ys + [(h, task(h).value)];
    }
    return ys, true;
  }

  predicate InRange(lo: nat, h: nat, hi: nat) { lo <= h < hi }

  method SortByKey<T(!new)>(xs: seq<(nat, T)>) returns (ys: seq<(nat, T)>)
    requires DistinctKeys(xs)
    ensures IncreasingKeys(ys)
    ensures forall i, j :: 0 <= i < j < |ys| ==> ys[i].0 < ys[j].0
    ensures forall x :: x in ys <==> x in xs
  {
    ys := [];
    for i := 0 to |xs|
      invariant IncreasingKeys(ys)
      invariant forall x :: x in ys <==> x in xs[..i]
    {
      assert forall j :: 0 <= j < |ys| ==> ys[j] in xs[..i];
      ys := InsertSorted(ys, xs[i], KeyBelow);
      assert xs[..i + 1] == xs[..i] + [xs[i]];
    }
    assert xs[..|xs|] == xs;
  }

  /** The results of the tasks for `lo` up to before `hi`, in increasing order of height. */
  ghost predicate InOrder<T(!new)>(ys: seq<(nat, T)>, task: nat -> Option<T>, lo: nat, hi: nat) {
    && |ys| == (if lo <= hi then hi - lo else 0)
    && forall i :: 0 <= i < |ys| ==> ys[i].0 == lo + i && task(lo + i) == Some(ys[i].1)
  }

  lemma NothingInOrder<T(!new)>(task: nat -> Option<T>, lo: nat, hi: nat)
    ensures hi <= lo ==> InOrder([], task, lo, hi)
  {
  }

  lemma TailMembers<T(!new)>(ys: seq<(nat, T)>, x: (nat, T))
    requires IncreasingKeys(ys) && ys != []
    ensures IncreasingKeys(ys[1..])
    ensures x in ys[1..] <==> x in ys && x != ys[0]
  {
    AscendingTail(ys, KeyBelow);
  }

  /** There is only one way to sort complete results, so completion order does not matter. */
  lemma {:induction false} SortedResultsInOrder<T(!new)>(ys: seq<(nat, T)>, task: nat -> Option<T>, lo: nat, hi: nat)
    requires IncreasingKeys(ys)
    requires forall x :: x in ys <==> lo <= x.0 < hi && task(x.0) == Some(x.1)
    requires forall h :: lo <= h < hi ==> task(h).Some?
    ensures InOrder(ys, task, lo, hi)
    decreases |ys|
  {
    hide InOrder;
    EmptyOrInhabited(ys);
    if hi <= lo {
      NothingInOrder(task, lo, hi);
    } else {
      assert (lo, task(lo).value) in ys;
      var j :| 0 <= j < |ys| && ys[j] == (lo, task(lo).value);
      assert ys[0] in ys;
      forall x: (nat, T) ensures x in ys[1..] <==> lo + 1 <= x.0 < hi && task(x.0) == Some(x.1) {
        TailMembers(ys, x);
      }
      SortedResultsInOrder(ys[1..], task, lo + 1, hi);
      FirstInOrder(ys, task, lo, hi);
    }
  }

  lemma FirstInOrder<T(!new)>(ys: seq<(nat, T)>, task: nat -> Option<T>, lo: nat, hi: nat)
    requires ys != [] && lo < hi && ys[0].0 == lo && task(lo) == Some(ys[0].1)
    requires InOrder(ys[1..], task, lo + 1, hi)
    ensures InOrder(ys, task, lo, hi)
  {
    forall i | 0 <= i < |ys| ensures ys[i].0 == lo + i && task(lo + i) == Some(ys[i].1) {
      if i > 0 { assert ys[i] == ys[1..][i - 1]; }
    }
  }

  /** Run one task per height, `chunk` at a time, and sort the results. */
  method FetchSorted<T(!new)>(lo: nat, hi: nat, chunk: nat, task: nat -> Option<T>) returns (r: Option<seq<(nat, T)>>)
    requires chunk > 0
    ensures r.Some? <==> forall h :: lo <= h < hi ==> task(h).Some?
    ensures r.Some? ==> InOrder(r.value, task, lo, hi)
  {
    var xs: seq<(nat, T)> := [];
    var next := lo;
    while next < hi
      invariant lo <= next && (next <= hi || next == lo)
      invariant DistinctKeys(xs)
      invariant forall h :: lo <= h < next ==> task(h).Some?
      invariant forall x :: x in xs <==> lo <= x.0 < next && task(x.0) == Some(x.1)
    {
      var end := Min(next + chunk, hi);
      var ys, ok := JoinChunk(next, end, task, xs);
      if !ok {
        return None;
      }
      xs, next := ys, end;
    }
    var ys := SortByKey(xs);
    SortedResultsInOrder(ys, task, lo, hi);
    return Some(ys);
  }

  // ----- Headers and events joined -----

  /** A light block: its height and whether the next validator set is the same. */
  datatype LightBlock = LightBlock(height: nat, sameValidators: bool)

  /** What the node answers while a finality event is processed; the trusted block is needed for every header. */
  datatype Node<E> = Node(lightBlock: nat -> Option<LightBlock>, events: nat -> Option<seq<E>>, trusted: Option<LightBlock>)

  /** The node returns the block that was asked for. */
  ghost predicate Honest<E(!new)>(node: Node<E>) {
    forall h: nat :: node.lightBlock(h).Some? ==> node.lightBlock(h).value.height == h
  }

  function HeaderTask<E(!new)>(node: Node<E>): nat -> Option<LightBlock> {
    (h: nat) => if node.trusted.None? then None else node.lightBlock(h)
  }

  /** Headers above `from` up to `to`, with the kind of update each is. */
  method MsgUpdateClientHeader<E(!new)>(node: Node<E>, from: nat, to: nat) returns (r: Option<seq<(nat, LightBlock)>>)
    ensures r.Some? <==> from >= to || (node.trusted.Some? && forall h :: from < h <= to ==> node.lightBlock(h).Some?)
    ensures r.Some? ==> InOrder(r.value, HeaderTask(node), from + 1, to + 1)
  {
    r := FetchSorted(from + 1, to + 1, 5, HeaderTask(node));
    assert from < to && HeaderTask(node)(to).Some? ==> node.trusted.Some?;
    assert forall h: nat :: HeaderTask(node)(h).Some? <==> node.trusted.Some? && node.lightBlock(h).Some?;
  }

  /** A client update with the events it will prove. */
  datatype Offer<E> = Offer(height: nat, events: seq<E>, optional: bool)

  function Upper(client: nat, finality: nat): nat {
    Min(finality, client + NUMBER_OF_BLOCKS_TO_PROCESS_PER_ITER)
  }

  /** Every height of the window can be fetched. */
  ghost predicate Complete<E(!new)>(node: Node<E>, client: nat, to: nat) {
    && (client < to ==> node.trusted.Some?)
    && (forall h :: client < h <= to ==> node.lightBlock(h).Some?)
    && (forall h :: client <= h < to ==> node.events(h).Some?)
  }

  /** The events of block `client + i` are offered with the header of the next block, in increasing order; the update is
      optional when that header keeps the validators, except for the five-hundredth. */
  ghost predicate Joined<E(!new)>(offers: seq<Offer<E>>, node: Node<E>, client: nat, to: nat)
  {
    && |offers| == (if client <= to then to - client else 0)
    && forall i: nat :: i < |offers| ==>
         && offers[i].height == client + i + 1
         && node.events(client + i) == Some(offers[i].events)
         && offers[i].optional
            == (&& node.lightBlock(client + i + 1).Some? && node.lightBlock(client + i + 1).value.sameValidators
                && i != 499)
  }

  method QueryLatestIbcEvents<E(!new)>(node: Node<E>, client: nat, finality: nat) returns (r: Option<seq<Offer<E>>>)
    requires Honest(node)
    ensures r.Some? <==> Complete(node, client, Min(finality, client + 500))
    ensures r.Some? ==> Joined(r.value, node, client, Min(finality, client + 500))
  {
    var to := Upper(client, finality);
    var headers := MsgUpdateClientHeader(node, client, to);
    if headers.None? {
      return None;
    }
    var blocks := FetchSorted(client, to, 100, node.events);
    if blocks.None? {
      return None;
    }
    var offers: seq<Offer<E>> := [];
    var i: nat := 0;
    while i < |blocks.value|
      invariant i <= |blocks.value| == |headers.value|
      invariant |offers| == i
      invariant forall j: nat :: j < i ==>
                  && offers[j].height == client + j + 1
                  && node.events(client + j) == Some(offers[j].events)
                  && offers[j].optional
                     == (&& node.lightBlock(client + j + 1).Some? && node.lightBlock(client + j + 1).value.sameValidators
                         && j != 499)
    {
      var header := headers.value[i].1;
      var optional := header.sameValidators;
      if i == NUMBER_OF_BLOCKS_TO_PROCESS_PER_ITER - 1 {
        optional := false;
      }
      offers := offers + [Offer(header.height, blocks.value[i].1, optional)];
      i := i + 1;
    }
    return Some(offers);
  }

  // ----- The backlog shrinks -----

  /** How the relayer reads an offer: what its events translate to, and whether packet events are among them. */
  datatype Reader<!E> = Reader(messages: seq<E> -> Option<seq<Msg>>, hasPacketEvents: seq<E> -> bool)

  function ToUpdates<E(!new)>(offers: seq<Offer<E>>, reader: Reader<E>): (updates: seq<Update>)
    ensures |updates| == |offers|
    ensures forall i :: 0 <= i < |offers| ==>
              && updates[i].height == offers[i].height && updates[i].optional == offers[i].optional
              && updates[i].hasPacketEvents == reader.hasPacketEvents(offers[i].events)
              && updates[i].messages == reader.messages(offers[i].events)
  {
    seq(|offers|, i requires 0 <= i < |offers| =>
      Update(offers[i].height, offers[i].optional, reader.hasPacketEvents(offers[i].events), reader.messages(offers[i].events)))
  }

  /** The height the client reaches when the client updates among `msgs` are applied. */
  function Advance(client: nat, msgs: seq<Msg>): (h: nat)
    ensures client <= h
    ensures forall k: nat :: UpdateClient(k) in msgs ==> k <= h
    ensures h == client || UpdateClient(h) in msgs
  {
    if msgs == [] then client
    else
      var k := |msgs| - 1;
      var before := Advance(client, msgs[..k]);
      assert msgs == msgs[..k] + [msgs[k]];
      if msgs[k].UpdateClient? && before < msgs[k].height then msgs[k].height else before
  }

  /** Everything one round of the relayer depends on; events are opaque bytes. */
  datatype Round = Round(node: Node<Bytes>, reader: Reader<Bytes>, offers: seq<Offer<Bytes>>,
                         mandatory: set<nat>, skipOptional: bool)

  /** The round fetched its window completely, and its events translated. */
  ghost predicate Proper(r: Round, client: nat, finality: nat) {
    && Joined(r.offers, r.node, client, Upper(client, finality))
    && (forall i :: 0 <= i < |r.offers| ==> RelaysOnly(ToUpdates(r.offers, r.reader)[i]))
    && Outgoing(ToUpdates(r.offers, r.reader), r.mandatory, r.skipOptional).Some?
  }

  /** The client height after the round's messages are accepted. */
  function After(r: Round, client: nat): nat {
    var msgs := Outgoing(ToUpdates(r.offers, r.reader), r.mandatory, r.skipOptional);
    if msgs.None? then client else Advance(client, msgs.value)
  }

  /** A full window always ends with a mandatory update, which is always sent, so the client reaches its end. */
  lemma FullWindowAdvances(r: Round, client: nat, finality: nat)
    requires Proper(r, client, finality) && client + 500 <= finality
    ensures After(r, client) == client + 500
  {
    var updates := ToUpdates(r.offers, r.reader);
    SentIsOutgoing(updates, r.mandatory, r.skipOptional, NUMBER_OF_BLOCKS_TO_PROCESS_PER_ITER - 1);
    var h := After(r, client);
    if h != client {
      var i := OutgoingIsSent(updates, r.mandatory, r.skipOptional, h);
    }
  }

  ghost function ClientAfter(rounds: seq<Round>, client: nat): nat {
    if rounds == [] then client else ClientAfter(rounds[1..], After(rounds[0], client))
  }

  ghost predicate AllProper(rounds: seq<Round>, client: nat, finality: nat) {
    rounds == [] || (Proper(rounds[0], client, finality) && AllProper(rounds[1..], After(rounds[0], client), finality))
  }

  /** Whatever the events and the settings, one accepted round per five hundred blocks of backlog brings the backlog
      below five hundred. */
  lemma {:induction false} BacklogShrinks(rounds: seq<Round>, client: nat, finality: nat)
    requires AllProper(rounds, client, finality)
    requires finality - client < 500 * (|rounds| + 1)
    ensures finality - ClientAfter(rounds, client) < 500
    decreases |rounds|
  {
    if rounds != [] {
      var next := After(rounds[0], client);
      if client + NUMBER_OF_BLOCKS_TO_PROCESS_PER_ITER <= finality {
        FullWindowAdvances(rounds[0], client, finality);
      }
      BacklogShrinks(rounds[1..], next, finality);
    }
  }
}
