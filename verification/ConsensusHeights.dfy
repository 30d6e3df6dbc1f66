/** The bounded index of consensus heights behind the lookup of the next and the previous consensus state. */
module ConsensusHeights {
  import opened Common

  const MAX_HEIGHTS: nat := 256

  /** Heights are ordered by revision first. */
  predicate Less(a: Height, b: Height) {
    a.revision < b.revision || (a.revision == b.revision && a.height < b.height)
  }

  /** Heights compare only within a revision. */
  lemma RevisionsFirst(a: Height, b: Height)
    ensures a.revision != b.revision ==> (Less(a, b) <==> a.revision < b.revision)
    ensures a.revision == b.revision ==> (Less(a, b) <==> a.height < b.height)
  {
  }

  ghost predicate Sorted(hs: seq<Height>) { Ascending(hs, Less) }

  /** The consensus states of one client and the index of their heights. */
  datatype Store<CS> = Store(states: map<Height, CS>, heights: seq<Height>)

  /** Storing a state; a full index makes room by dropping its least height.  Grandpa and Beefy clients are not indexed. */
  function StoreConsensusState<CS>(s: Store<CS>, h: Height, cs: CS, indexed: bool): Store<CS>
    requires Sorted(s.heights)
  {
    var states := s.states[h := cs];
    if !indexed then Store(states, s.heights)
    else if |s.heights| < MAX_HEIGHTS || h in s.heights then Store(states, InsertSorted(s.heights, h, Less))
    else Store(states, InsertSorted(s.heights[1..], h, Less))
  }

  function NextHeight(hs: seq<Height>, h: Height): Option<Height> {
    if hs == [] then None else if Less(h, hs[0]) then Some(hs[0]) else NextHeight(hs[1..], h)
  }

  function PrevHeight(hs: seq<Height>, h: Height): Option<Height> {
    if hs == [] then None
    else if Less(hs[|hs| - 1], h) then Some(hs[|hs| - 1])
    else PrevHeight(hs[..|hs| - 1], h)
  }

  function Lookup<CS>(s: Store<CS>, h: Option<Height>): Option<CS> {
    if h.Some? && h.value in s.states then Some(s.states[h.value]) else None
  }

  function NextConsensusState<CS>(s: Store<CS>, h: Height): Option<CS> { Lookup(s, NextHeight(s.heights, h)) }

  function PrevConsensusState<CS>(s: Store<CS>, h: Height): Option<CS> { Lookup(s, PrevHeight(s.heights, h)) }

  // ----- Every order of insertion -----

  /** The index is an ordered set of at most 256 stored heights, and complete until it is full. */
  ghost predicate Indexed<CS>(s: Store<CS>) {
    && Sorted(s.heights) && |s.heights| <= MAX_HEIGHTS
    && (forall x :: x in s.heights ==> x in s.states)
    && (|s.heights| < MAX_HEIGHTS ==> forall x :: x in s.states ==> x in s.heights)
  }

  lemma StoreKeepsIndex<CS>(s: Store<CS>, h: Height, cs: CS)
    requires Indexed(s)
    ensures var s' := StoreConsensusState(s, h, cs, true);
            Indexed(s') && h in s'.heights && |s.heights| <= |s'.heights| <= 256
  {
    assert s.heights != [] ==> s.heights == [s.heights[0]] + s.heights[1..];
  }

  /** The state given is the state stored, and a height leaves the index only to make room in a full one, which the least
      one does. */
  lemma StoreChanges<CS>(s: Store<CS>, h: Height, cs: CS, indexed: bool)
    requires Indexed(s)
    ensures var s' := StoreConsensusState(s, h, cs, indexed);
            && s'.states == s.states[h := cs]
            && (!indexed ==> s'.heights == s.heights)
            && (indexed ==> forall x :: x in s'.heights <==>
                  x == h || (x in s.heights && !(|s.heights| == 256 && h !in s.heights && x == s.heights[0])))
  {
    if s.heights != [] { AscendingTail(s.heights, Less); }
  }

  // ----- When the index is the top of the stored heights -----

  /** No stored height at or above the least cached one is missing from the index. */
  ghost predicate UpClosed<CS>(s: Store<CS>) {
    forall x :: x in s.states && s.heights != [] && !Less(x, s.heights[0]) ==> x in s.heights
  }

  /** Storing a state keeps the index the top of the stored heights exactly when it does not insert a new height below
      the least one of a full index. */
  lemma StaysTopIff<CS>(s: Store<CS>, h: Height, cs: CS)
    requires Indexed(s) && UpClosed(s)
    ensures UpClosed(StoreConsensusState(s, h, cs, true))
            <==> !(|s.heights| == MAX_HEIGHTS && h !in s.heights && Less(h, s.heights[0]))
  {
    var s' := StoreConsensusState(s, h, cs, true);
    StoreKeepsIndex(s, h, cs);
    if |s.heights| == MAX_HEIGHTS && h !in s.heights {
      var evicted := s.heights[0];
      assert s.heights == [evicted] + s.heights[1..];
      assert evicted in s'.states && evicted !in s'.heights;
      if Less(h, evicted) {
        assert h in s'.heights;
        LeastFirst(s'.heights, h);
      } else {
        forall x | x in s'.heights ensures Less(evicted, x) { }
        assert s'.heights[0] in s'.heights;
      }
    } else {
      forall x | x in s'.heights ensures x in s.heights || x == h { }
      assert s'.heights[0] in s'.heights;
      if s.heights != [] {
        LeastFirst(s'.heights, s.heights[0]);
        LeastFirst(s'.heights, h);
      }
    }
  }

  lemma LeastFirst(hs: seq<Height>, h: Height)
    requires Sorted(hs) && h in hs
    ensures !Less(h, hs[0])
  {
  }

  // ----- Lookups against the full set of stored heights -----

  ghost predicate IsNext(keys: set<Height>, h: Height, r: Option<Height>) {
    match r
    case Some(n) => n in keys && Less(h, n) && forall k :: k in keys && Less(h, k) ==> !Less(k, n)
    case None => forall k :: k in keys ==> !Less(h, k)
  }

  ghost predicate IsPrev(keys: set<Height>, h: Height, r: Option<Height>) {
    match r
    case Some(n) => n in keys && Less(n, h) && forall k :: k in keys && Less(k, h) ==> !Less(n, k)
    case None => forall k :: k in keys ==> !Less(k, h)
  }

  lemma {:induction false} NextOfIndex(hs: seq<Height>, h: Height)
    requires Sorted(hs)
    ensures IsNext(Elements(hs), h, NextHeight(hs, h))
  {
    if hs != [] {
      NextOfIndex(hs[1..], h);
      assert hs == [hs[0]] + hs[1..];
      assert Elements(hs) == {hs[0]} + Elements(hs[1..]);
    }
  }

  lemma {:induction false} PrevOfIndex(hs: seq<Height>, h: Height)
    requires Sorted(hs)
    ensures IsPrev(Elements(hs), h, PrevHeight(hs, h))
  {
    if hs != [] {
      var k := |hs| - 1;
      PrevOfIndex(hs[..k], h);
      assert hs == hs[..k] + [hs[k]];
      assert Elements(hs) == Elements(hs[..k]) + {hs[k]};
    }
  }

  /** Looking up a cached height always finds its state. */
  lemma CachedHasState<CS>(s: Store<CS>, h: Height)
    requires Indexed(s)
    ensures var next := NextHeight(s.heights, h);
            next.Some? ==> next.value in s.states && NextConsensusState(s, h) == Some(s.states[next.value])
    ensures var prev := PrevHeight(s.heights, h);
            prev.Some? ==> prev.value in s.states && PrevConsensusState(s, h) == Some(s.states[prev.value])
  {
    NextOfIndex(s.heights, h);
    PrevOfIndex(s.heights, h);
  }

  /** From the least cached height on, the bounded lookups agree with lookups over every stored height. */
  lemma LookupsAgree<CS>(s: Store<CS>, h: Height)
    requires Indexed(s) && UpClosed(s) && s.heights != []
    ensures !Less(h, s.heights[0]) ==> IsNext(s.states.Keys, h, NextHeight(s.heights, h))
    ensures Less(s.heights[0], h) ==> IsPrev(s.states.Keys, h, PrevHeight(s.heights, h))
  {
    NextOfIndex(s.heights, h);
    PrevOfIndex(s.heights, h);
    assert s.heights[0] in Elements(s.heights);
  }

  // ----- Heights stored in order -----

  function StoreAll<CS>(entries: seq<(Height, CS)>): (s: Store<CS>)
    ensures Indexed(s)
  {
    if entries == [] then Store(map[], [])
    else
      var k := |entries| - 1;
      var before := StoreAll(entries[..k]);
      StoreKeepsIndex(before, entries[k].0, entries[k].1);
      StoreConsensusState(before, entries[k].0, entries[k].1, true)
  }

  ghost predicate NonDecreasing<CS>(entries: seq<(Height, CS)>) {
    forall i, j :: 0 <= i <= j < |entries| ==> !Less(entries[j].0, entries[i].0)
  }

  lemma {:induction false} StoredBelow<CS>(entries: seq<(Height, CS)>, h: Height)
    requires forall i :: 0 <= i < |entries| ==> !Less(h, entries[i].0)
    ensures forall x :: x in StoreAll(entries).states ==> !Less(h, x)
  {
    if entries != [] { StoredBelow(entries[..|entries| - 1], h); }
  }

  /** For updates in height order the index holds the greatest stored heights. */
  lemma {:induction false} InOrderStaysTop<CS>(entries: seq<(Height, CS)>)
    requires NonDecreasing(entries)
    ensures UpClosed(StoreAll(entries))
  {
    if entries != [] {
      var k := |entries| - 1;
      InOrderStaysTop(entries[..k]);
      StoredBelow(entries[..k], entries[k].0);
      StaysTopIff(StoreAll(entries[..k]), entries[k].0, entries[k].1);
    }
  }

  /** So lookups agree with the full map, whatever was evicted. */
  lemma InOrderLookupsAgree<CS>(entries: seq<(Height, CS)>, h: Height)
    requires NonDecreasing(entries) && entries != []
    ensures var s := StoreAll(entries);
            && s.heights != []
            && (!Less(h, s.heights[0]) ==> IsNext(s.states.Keys, h, NextHeight(s.heights, h)))
            && (Less(s.heights[0], h) ==> IsPrev(s.states.Keys, h, PrevHeight(s.heights, h)))
  {
    var k := |entries| - 1;
    StoreKeepsIndex(StoreAll(entries[..k]), entries[k].0, entries[k].1);
    InOrderStaysTop(entries);
    LookupsAgree(StoreAll(entries), h);
  }

  // ----- The state found is the last one stored -----

  /** The last entry for a height is at `i`. */
  ghost predicate LastEntry<CS>(entries: seq<(Height, CS)>, h: Height, i: nat) {
    i < |entries| && entries[i].0 == h && forall j: nat :: i < j < |entries| ==> entries[j].0 != h
  }

  lemma NothingStored<CS>(entries: seq<(Height, CS)>)
    ensures StoreAll(entries).states.Keys != {} ==> entries != []
  {
  }

  lemma StoredStates<CS>(entries: seq<(Height, CS)>)
    requires entries != []
    ensures var k := |entries| - 1;
            StoreAll(entries).states == StoreAll(entries[..k]).states[entries[k].0 := entries[k].1]
  {
    var k := |entries| - 1;
    StoreChanges(StoreAll(entries[..k]), entries[k].0, entries[k].1, true);
  }

  lemma {:induction false} StoredIsLast<CS>(entries: seq<(Height, CS)>, h: Height, i: nat)
    requires LastEntry(entries, h, i)
    ensures var s := StoreAll(entries); h in s.states && s.states[h] == entries[i].1
    decreases |entries|
  {
    hide StoreAll, Indexed;
    var k := |entries| - 1;
    StoredStates(entries);
    if i < k {
      assert entries[k].0 != h;
      StoredIsLast(entries[..k], h, i);
    }
  }

  lemma {:induction false} StoredHasEntry<CS>(entries: seq<(Height, CS)>, h: Height) returns (i: nat)
    requires h in StoreAll(entries).states
    ensures LastEntry(entries, h, i)
    decreases |entries|
  {
    NothingStored(entries);
    hide StoreAll, Indexed;
    var k := |entries| - 1;
    StoredStates(entries);
    if entries[k].0 == h {
      i := k;
    } else {
      i := StoredHasEntry(entries[..k], h);
    }
  }

  /** Whatever was stored in whatever order, the next and the previous consensus state of a height are those last stored
      at the next and the previous cached height. */
  lemma LookupsFindLast<CS>(entries: seq<(Height, CS)>, h: Height)
    ensures var s := StoreAll(entries);
            var next := NextHeight(s.heights, h);
            if next.Some?
            then exists i: nat :: LastEntry(entries, next.value, i) && NextConsensusState(s, h) == Some(entries[i].1)
            else NextConsensusState(s, h) == None
    ensures var s := StoreAll(entries);
            var prev := PrevHeight(s.heights, h);
            if prev.Some?
            then exists i: nat :: LastEntry(entries, prev.value, i) && PrevConsensusState(s, h) == Some(entries[i].1)
            else PrevConsensusState(s, h) == None
  {
    var s := StoreAll(entries);
    CachedHasState(s, h);
    var next, prev := NextHeight(s.heights, h), PrevHeight(s.heights, h);
    if next.Some? {
      var i := StoredHasEntry(entries, next.value);
      StoredIsLast(entries, next.value, i);
    }
    if prev.Some? {
      var i := StoredHasEntry(entries, prev.value);
      StoredIsLast(entries, prev.value, i);
    }
  }

  // ----- In storage -----

  class ClientStore<CS> {
    var states: map<Height, CS>
    var heights: seq<Height>

    function Value(): Store<CS>
      reads this
    {
      Store(states, heights)
    }

    constructor ()
      ensures Value() == Store(map[], []) && Indexed(Value())
    {
      states, heights := map[], [];
    }

    method StoreState(h: Height, cs: CS, indexed: bool)
      requires Indexed(Value()) || !indexed
      requires Sorted(heights)
      modifies this
      ensures Value() == StoreConsensusState(old(Value()), h, cs, indexed)
      ensures indexed ==> Indexed(Value()) && h in heights
      ensures states == old(states)[h := cs]
      ensures !indexed ==> heights == old(heights)
    {
      if indexed { StoreKeepsIndex(Value(), h, cs); }
      states := states[h := cs];
      if indexed {
        if |heights| < MAX_HEIGHTS || h in heights {
          heights := InsertSorted(heights, h, Less);
        } else {
          heights := heights[1..];
          heights := InsertSorted(heights, h, Less);
        }
      }
    }
  }
}
