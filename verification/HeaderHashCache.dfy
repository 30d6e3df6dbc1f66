/** The cache of relay chain header hashes: a bounded vector, oldest first, and a set meant to mirror it. */
module HeaderHashCache {
  import opened Common

  const GRANDPA_BLOCK_HASHES_CACHE_SIZE: nat := 500

  datatype Cache<!H> = Cache(hashes: seq<H>, members: set<H>)

  /** One insertion: a full vector first drops its oldest hash, which also leaves the set. */
  function Insert<H>(c: Cache<H>, hash: H): Cache<H> {
    if |c.hashes| < GRANDPA_BLOCK_HASHES_CACHE_SIZE then Cache(c.hashes + [hash], c.members + {hash})
    else Cache(c.hashes[1..] + [hash], c.members - {c.hashes[0]} + {hash})
  }

  /** The cache after all of `history` has been inserted. */
  function Replay<H>(history: seq<H>): Cache<H>
    decreases |history|
  {
    if history == [] then Cache([], {})
    else Insert(Replay(history[..|history| - 1]), history[|history| - 1])
  }

  // ----- What the cache means in terms of the history -----

  function Oldest(n: nat): nat { if n < GRANDPA_BLOCK_HASHES_CACHE_SIZE then 0 else n - GRANDPA_BLOCK_HASHES_CACHE_SIZE }

  /** The insertion at `i` evicts this hash. */
  predicate Evicts<H(==)>(history: seq<H>, i: nat, hash: H)
    requires i < |history|
  {
    GRANDPA_BLOCK_HASHES_CACHE_SIZE <= i && history[i - GRANDPA_BLOCK_HASHES_CACHE_SIZE] == hash
  }

  /** The insertion at `j` is one of `hash`, and no later insertion evicts it. */
  ghost predicate SurvivesSince<H>(history: seq<H>, hash: H, j: nat) {
    && j < |history| && history[j] == hash
    && forall i: nat :: j < i < |history| ==> !Evicts(history, i, hash)
  }

  ghost predicate Survives<H>(history: seq<H>, hash: H) {
    exists j: nat :: SurvivesSince(history, hash, j)
  }

  lemma SurvivesStep<H(!new)>(before: seq<H>, newest: H, hash: H)
    ensures Survives(before + [newest], hash)
            <==> hash == newest || (Survives(before, hash) && !Evicts(before + [newest], |before|, hash))
  {
    var history, n := before + [newest], |before|;
    if hash == newest {
      assert SurvivesSince(history, hash, n);
    } else if Survives(before, hash) && !Evicts(history, n, hash) {
      var j: nat :| SurvivesSince(before, hash, j);
      forall i: nat | j < i < |history| ensures !Evicts(history, i, hash) {
        assert i < n ==> Evicts(history, i, hash) == Evicts(before, i, hash);
      }
      assert SurvivesSince(history, hash, j);
    } else if Survives(history, hash) {
      var j: nat :| SurvivesSince(history, hash, j);
      assert !Evicts(history, n, hash);
      forall i: nat | j < i < n ensures !Evicts(before, i, hash) {
        assert Evicts(history, i, hash) == Evicts(before, i, hash);
      }
      assert SurvivesSince(before, hash, j);
    }
  }

  /** The vector is the last five hundred hashes; the set holds a hash exactly when some insertion of it was not
      followed by an eviction of it. */
  lemma {:induction false} CacheMeaning<H(!new)>(history: seq<H>)
    ensures Replay(history).hashes == history[if |history| < 500 then 0 else |history| - 500..]
    ensures forall hash :: hash in Replay(history).members <==> Survives(history, hash)
    decreases |history|
  {
    if history != [] {
      var n := |history| - 1;
      var before, newest := history[..n], history[n];
      assert history == before + [newest];
      CacheMeaning(before);
      forall hash ensures hash in Replay(history).members <==> Survives(history, hash) {
        SurvivesStep(before, newest, hash);
      }
    }
  }

  // ----- Consequences -----

  /** The position of the last insertion of a hash decides: the set still holds it exactly when it is in the vector and
      no earlier insertion of it was evicted in the meantime. */
  lemma MemberIff<H(!new)>(history: seq<H>, j: nat)
    requires j < |history| && forall k :: j < k < |history| ==> history[k] != history[j]
    ensures history[j] in Replay(history).members
            <==> && Oldest(|history|) <= j
                 && forall k: nat :: k < Oldest(|history|) && j < k + GRANDPA_BLOCK_HASHES_CACHE_SIZE
                                     ==> history[k] != history[j]
  {
    var hash, n := history[j], |history|;
    CacheMeaning(history);
    if j < Oldest(n) {
      assert Evicts(history, j + GRANDPA_BLOCK_HASHES_CACHE_SIZE, hash);
    }
    if Survives(history, hash) {
      var j': nat :| SurvivesSince(history, hash, j');
      forall k: nat | k < Oldest(n) && j < k + GRANDPA_BLOCK_HASHES_CACHE_SIZE ensures history[k] != hash {
        assert !Evicts(history, k + GRANDPA_BLOCK_HASHES_CACHE_SIZE, hash);
      }
    }
    if Oldest(n) <= j && forall k: nat :: k < Oldest(n) && j < k + GRANDPA_BLOCK_HASHES_CACHE_SIZE ==> history[k] != hash {
      assert SurvivesSince(history, hash, j);
    }
  }

  /** The set never holds more than the vector, so it stays within its bound. */
  lemma {:induction false} MembersInVector<H(!new)>(history: seq<H>)
    ensures forall hash :: hash in Replay(history).members ==> hash in Replay(history).hashes
    decreases |history|
  {
    if history != [] { MembersInVector(history[..|history| - 1]); }
  }

  ghost predicate Distinct<H>(xs: seq<H>) { forall i, j :: 0 <= i < j < |xs| ==> xs[i] != xs[j] }

  lemma UnrepeatedIsMember<H(!new)>(history: seq<H>, j: nat)
    requires Distinct(history) && Oldest(|history|) <= j < |history|
    ensures history[j] in Replay(history).members
  {
    hide Replay;
    MemberIff(history, j);
  }

  /** Without repetitions the set and the vector agree. */
  lemma NoRepetitionsAgree<H(!new)>(history: seq<H>)
    requires Distinct(history)
    ensures forall hash :: hash in Replay(history).members <==> hash in Replay(history).hashes
  {
    hide Replay, Survives, Distinct;
    MembersInVector(history);
    CacheMeaning(history);
    var first := Oldest(|history|);
    forall hash | hash in history[first..] ensures hash in Replay(history).members {
      var k :| 0 <= k < |history[first..]| && history[first..][k] == hash;
      UnrepeatedIsMember(history, first + k);
    }
  }

  /** With repetitions they need not: a hash inserted again while it is still cached disappears from the set when its
      first copy is evicted, although the vector still holds the second. */
  lemma RepetitionIsLost<H(!new)>(history: seq<H>, k: nat, j: nat)
    requires k < j < |history| && history[k] == history[j] && j < k + GRANDPA_BLOCK_HASHES_CACHE_SIZE
    requires forall i :: j < i < |history| ==> history[i] != history[j]
    requires k < Oldest(|history|) <= j
    ensures history[j] in Replay(history).hashes && history[j] !in Replay(history).members
  {
    CacheMeaning(history);
    assert history[Oldest(|history|)..][j - Oldest(|history|)] == history[j];
    MemberIff(history, j);
  }

  lemma {:induction false} ElementsBound<H>(xs: seq<H>)
    ensures |Elements(xs)| <= |xs|
  {
    if xs == [] {
      assert Elements(xs) == {};
    } else {
      assert Elements(xs) == Elements(xs[1..]) + {xs[0]};
      ElementsBound(xs[1..]);
    }
  }

  /** There is room in the set for the next hash after the eviction. */
  lemma RoomForNext<H(!new)>(history: seq<H>, evicted: set<H>)
    requires var c := Replay(history);
             evicted == if |c.hashes| < GRANDPA_BLOCK_HASHES_CACHE_SIZE then c.members else c.members - {c.hashes[0]}
    ensures |Replay(history).hashes| <= 500
    ensures |evicted| < 500
  {
    hide Replay, Survives;
    var c := Replay(history);
    CacheMeaning(history);
    MembersInVector(history);
    var left := if |c.hashes| < GRANDPA_BLOCK_HASHES_CACHE_SIZE then c.hashes else c.hashes[1..];
    forall hash | hash in evicted ensures hash in left {
      assert hash in c.hashes;
      assert |c.hashes| >= GRANDPA_BLOCK_HASHES_CACHE_SIZE ==> c.hashes == [c.hashes[0]] + c.hashes[1..];
    }
    ElementsBound(left);
    SubsetSize(evicted, Elements(left));
  }

  lemma ReplayStep<H>(history: seq<H>, hash: H)
    ensures Replay(history + [hash]) == Insert(Replay(history), hash)
  {
    assert (history + [hash])[..|history|] == history;
  }

  // ----- The cache in storage -----

  class HeaderHashes<H(==, !new)> {
    var hashes: seq<H>
    var members: set<H>
    ghost var history: seq<H>

    ghost predicate Valid()
      reads this
    {
      Cache(hashes, members) == Replay(history)
    }

    constructor ()
      ensures Valid() && history == []
    {
      hashes, members, history := [], {}, [];
    }

    method InsertRelayHeaderHashes(newHashes: seq<H>)
      requires Valid()
      modifies this
      ensures Valid() && history == old(history) + newHashes
    {
      hide Replay;
      if newHashes == [] {
        return;
      }
      var i := 0;
      while i < |newHashes|
        invariant 0 <= i <= |newHashes|
        invariant Valid() && history == old(history) + newHashes[..i]
      {
        var hash := newHashes[i];
        ReplayStep(history, hash);
        if |hashes| < GRANDPA_BLOCK_HASHES_CACHE_SIZE {
          RoomForNext(history, members);
          hashes := hashes + [hash];
        } else {
          RoomForNext(history, members - {hashes[0]});
          var oldest := hashes[0];
          hashes := hashes[1..];
          members := members - {oldest};
          hashes := hashes + [hash];
        }
        // The bounded set refuses a new member when it is full; it never is.
        if |members| < GRANDPA_BLOCK_HASHES_CACHE_SIZE || hash in members {
          members := members + {hash};
        }
        history := history + [hash];
        assert newHashes[..i + 1] == newHashes[..i] + [hash];
        i := i + 1;
      }
    }

    method ContainsRelayHeaderHash(hash: H) returns (found: bool)
      requires Valid()
      ensures found <==> Survives(history, hash)
    {
      CacheMeaning(history);
      found := hash in members;
    }
  }
}
