/** One half (send or receive) of `packet_cleanup`, as a state machine over the sequences of a channel. */
module CleanupCycle {
  import opened Common

  const PACKET_CLEANUP_PER_CYCLE: nat := 1001

  /** What one half of a cleanup cycle reads and writes for one channel.
      `live`: sequences that still have a commitment (send half) or an acknowledgement (receive half);
      `stored`: sequences whose packet is stored offchain;
      `pending`, `watermark`: the persisted pair of skipped sequences and last removed sequence;
      `next`: the next sequence number, which bounds the scan. */
  datatype Half = Half(live: set<nat>, stored: set<nat>, pending: set<nat>, watermark: nat, next: nat)

  /** Sequences skipped by an earlier cycle that are no longer live: the first loop drops all of them. */
  ghost function Released(h: Half): set<nat> { h.pending - h.live }

  /** The working watermark after the first loop.  It can lie below the persisted one. */
  ghost function ScanStart(h: Half): nat { MaxOr(Released(h), h.watermark) }

  /** The sequences visited by the second loop. */
  ghost function Window(h: Half): set<nat> {
    Between(ScanStart(h), Min(ScanStart(h) + PACKET_CLEANUP_PER_CYCLE, h.next))
  }

  /** The packets dropped by the second loop. */
  ghost function Scanned(h: Half): set<nat> {
    (Window(h) - h.live) * (h.stored - Released(h))
  }

  /** A cycle that runs to its end. */
  ghost function FullCycle(h: Half): Half {
    h.(stored := h.stored - Released(h) - Scanned(h),
       pending := h.pending * h.live + Window(h) * h.live,
       watermark := Max(MaxOr(Scanned(h), ScanStart(h)), h.watermark))
  }

  /** A cycle that fails to read the next sequence number: the packets dropped by the first loop are gone,
      but neither the pending set nor the watermark is written back. */
  ghost function AbortedCycle(h: Half): Half {
    h.(stored := h.stored - Released(h))
  }

  /** A cycle drops nothing that is live. */
  lemma DropsNothingLive(h: Half)
    ensures Released(h) !! h.live && Scanned(h) !! h.live
  {
  }

  // ----- Runs -----

  /** A half together with the history of what cleanup removed.  `dense` halves are filled in sequence order
      and advance `next` (sends, and receives on ordered channels); the others are filled at arbitrary
      sequences and leave `next` alone (receives on unordered channels). */
  datatype Tracked = Tracked(half: Half, removed: set<nat>, dense: bool)

  datatype Action =
    | Append
    | Insert(sequence: nat)
    | Release(sequence: nat)
    | Cycle
    | Abort

  ghost function Init(dense: bool): Tracked { Tracked(Half({}, {}, {}, 0, 1), {}, dense) }

  ghost function Act(t: Tracked, a: Action): Tracked {
    var h := t.half;
    match a
    case Append =>
      if t.dense then t.(half := h.(live := h.live + {h.next}, stored := h.stored + {h.next}, next := h.next + 1)) else t
    case Insert(s) =>
      if !t.dense && h.next <= s then t.(half := h.(live := h.live + {s}, stored := h.stored + {s})) else t
    case Release(s) => t.(half := h.(live := h.live - {s}))
    case Cycle => Tracked(FullCycle(h), t.removed + (h.stored - FullCycle(h).stored), t.dense)
    case Abort => Tracked(AbortedCycle(h), t.removed + (h.stored - AbortedCycle(h).stored), t.dense)
  }

  ghost function Run(t: Tracked, actions: seq<Action>): Tracked
    decreases |actions|
  {
    if actions == [] then t else Act(Run(t, actions[..|actions| - 1]), actions[|actions| - 1])
  }

  // ----- The invariant -----

  /** Every stored packet up to the frontier `u` is pending, and nothing beyond it is. */
  ghost predicate Covered(h: Half, u: nat) {
    && h.watermark <= u < h.next
    && (forall s :: s in h.stored && s <= u ==> s in h.pending)
    && (forall s :: s in h.pending ==> s <= u)
  }

  /** The persisted watermark is the greatest sequence removed by a completed cycle: an aborted one leaves
      what it removed in the pending set. */
  ghost predicate WatermarkExact(t: Tracked) {
    t.half.watermark == MaxOr(t.removed - t.half.pending, 0)
  }

  ghost predicate Inv(t: Tracked, u: nat) {
    && var h := t.half;
    && Covered(h, u)
    && u < h.watermark + PACKET_CLEANUP_PER_CYCLE
    && h.live <= h.stored
    && 0 !in h.stored
    && h.stored !! t.removed
    && h.pending <= h.stored + t.removed
    && (forall s :: s in t.removed ==> 0 < s <= u)
    && WatermarkExact(t)
    && (t.dense ==> Between(0, h.next) == h.stored + t.removed)
  }

  lemma MaxOrIs(s: set<nat>, default: nat, m: nat)
    requires m in s && forall x :: x in s ==> x <= m
    ensures MaxOr(s, default) == m
  {
  }

  /** The scan starts at or below the frontier, so nothing between the frontier and the window is skipped. */
  lemma ScanStartBelowFrontier(h: Half, u: nat)
    requires Covered(h, u)
    ensures ScanStart(h) <= u
  {
  }

  ghost function NextFrontier(h: Half, u: nat): nat {
    Max(u, Min(ScanStart(h) + PACKET_CLEANUP_PER_CYCLE, h.next) - 1)
  }

  /** The watermark a complete cycle persists is the maximum of the old one and of everything it dropped. */
  lemma CycleWatermark(t: Tracked, u: nat)
    requires Inv(t, u)
    ensures WatermarkExact(Act(t, Cycle))
  {
    var h, t' := t.half, Act(t, Cycle);
    var h' := t'.half;
    var gone := t'.removed - h'.pending;
    assert h.stored - h'.stored == h.stored * Released(h) + Scanned(h);
    assert gone == (t.removed - h.pending) + Released(h) + Scanned(h) by {
      forall s | s in Released(h) + Scanned(h) ensures s in gone { }
      forall s | s in t.removed - h.pending ensures s in gone { }
    }
    if gone == {} {
      assert t.removed - h.pending == {} && Released(h) == {} && Scanned(h) == {};
    } else {
      assert forall s :: s in Scanned(h) ==> s > ScanStart(h);
      assert h'.watermark in gone;
      MaxOrIs(gone, 0, h'.watermark);
    }
  }

  /** Coverage does not depend on what is live. */
  lemma CycleKeepsCovered(h: Half, u: nat)
    requires Covered(h, u)
    ensures Covered(FullCycle(h), NextFrontier(h, u))
  {
    ScanStartBelowFrontier(h, u);
    var h', u' := FullCycle(h), NextFrontier(h, u);
    forall s | s in h'.stored && s <= u' ensures s in h'.pending {
      if s <= u {
        assert s in h.pending;
      } else {
        assert s in Window(h);
      }
    }
  }

  lemma CycleKeepsInv(t: Tracked, u: nat)
    requires Inv(t, u)
    ensures Inv(Act(t, Cycle), NextFrontier(t.half, u))
  {
    CycleWatermark(t, u);
    CycleKeepsCovered(t.half, u);
  }

  lemma AbortKeepsInv(t: Tracked, u: nat)
    requires Inv(t, u)
    ensures Inv(Act(t, Abort), u)
  {
    var t' := Act(t, Abort);
    assert t'.removed - t'.half.pending == t.removed - t.half.pending;
  }

  lemma FillKeepsInv(t: Tracked, u: nat, a: Action)
    requires Inv(t, u) && (a.Append? || a.Insert? || a.Release?)
    ensures Inv(Act(t, a), u)
  {
    var t' := Act(t, a);
    if t.dense && a.Append? {
      assert Between(0, t'.half.next) == Between(0, t.half.next) + {t.half.next};
    }
  }

  lemma {:induction false} RunKeepsInv(dense: bool, actions: seq<Action>) returns (u: nat)
    ensures Inv(Run(Init(dense), actions), u)
    decreases |actions|
  {
    if actions == [] {
      u := 0;
      assert Between(0, 1) == {};
    } else {
      var t := Run(Init(dense), actions[..|actions| - 1]);
      var a := actions[|actions| - 1];
      u := RunKeepsInv(dense, actions[..|actions| - 1]);
      match a {
        case Cycle => CycleKeepsInv(t, u); u := NextFrontier(t.half, u);
        case Abort => AbortKeepsInv(t, u);
        case _ => FillKeepsInv(t, u, a);
      }
    }
  }

  // ----- Main results about every run -----

  /** In every run, aborted cycles included, some frontier separates the sequences cleanup has looked at from
      the ones it has not; below it every stored packet is on the pending list, so none is forgotten.
      Live packets are never dropped. */
  lemma Coverage(dense: bool, actions: seq<Action>)
    ensures exists u :: Covered(Run(Init(dense), actions).half, u)
    ensures var h := Run(Init(dense), actions).half; h.live <= h.stored
  {
    var u := RunKeepsInv(dense, actions);
  }

  /** The persisted watermark is the greatest sequence removed by completed cycles, in every run. */
  lemma WatermarkIsGreatestRemoved(dense: bool, actions: seq<Action>)
    ensures WatermarkExact(Run(Init(dense), actions))
  {
    var u := RunKeepsInv(dense, actions);
  }

  /** Only an aborted cycle leaves removed packets on the pending list. */
  lemma ActSeparates(t: Tracked, u: nat, a: Action)
    requires Inv(t, u) && !a.Abort? && t.half.pending !! t.removed
    ensures Act(t, a).half.pending !! Act(t, a).removed
  {
    if a.Cycle? {
      var t' := Act(t, a);
      CycleKeepsInv(t, u);
      assert t'.half.pending <= t'.half.live;
    }
  }

  /** Without aborted cycles it is the greatest sequence ever removed. */
  lemma {:induction false} ErrorFreeWatermark(dense: bool, actions: seq<Action>)
    requires Abort !in actions
    ensures var t := Run(Init(dense), actions);
            t.half.pending !! t.removed && t.half.watermark == MaxOr(t.removed, 0)
    decreases |actions|
  {
    hide FullCycle;
    hide AbortedCycle;
    var t := Run(Init(dense), actions);
    var u := RunKeepsInv(dense, actions);
    if actions != [] {
      var k := |actions| - 1;
      ErrorFreeWatermark(dense, actions[..k]);
      var v := RunKeepsInv(dense, actions[..k]);
      assert actions[k] in actions;
      ActSeparates(Run(Init(dense), actions[..k]), v, actions[k]);
    }
    assert t.removed - t.half.pending == t.removed;
  }

  // ----- Progress -----

  /** `n` complete cycles in a row. */
  ghost function Cycles(h: Half, n: nat): Half
    decreases n
  {
    if n == 0 then h else Cycles(FullCycle(h), n - 1)
  }

  /** Nothing is live or pending, and exactly the sequences above the watermark are stored. */
  ghost predicate Suffix(h: Half) {
    h.live == {} && h.pending == {} && h.watermark < h.next && h.stored == Between(h.watermark, h.next)
  }

  /** On such a half a cycle drops the next thousand packets. */
  lemma SuffixCycle(h: Half)
    requires Suffix(h)
    ensures Suffix(FullCycle(h))
    ensures FullCycle(h).next == h.next
    ensures FullCycle(h).watermark == Min(h.watermark + 1000, h.next - 1)
  {
    var w' := Min(h.watermark + 1000, h.next - 1);
    assert Released(h) == {};
    assert Scanned(h) == Between(h.watermark, w' + 1);
    if h.watermark < w' {
      MaxOrIs(Scanned(h), h.watermark, w');
    } else {
      assert Scanned(h) == {};
    }
    assert FullCycle(h).stored == Between(w', h.next);
  }

  /** Once the last commitment is gone, a single cycle empties the pending list and leaves a suffix. */
  lemma FirstDrainCycle(t: Tracked, u: nat)
    requires Inv(t, u) && t.dense && t.half.live == {}
    ensures Suffix(FullCycle(t.half))
  {
    var h, t' := t.half, Act(t, Cycle);
    var u' := NextFrontier(h, u);
    CycleKeepsInv(t, u);
    var h' := t'.half;
    assert h'.pending == {};
    assert t'.removed - h'.pending == t'.removed;
    assert forall s :: s in t'.removed <==> 0 < s <= u' by {
      forall s | 0 < s <= u' ensures s in t'.removed {
        assert s in Between(0, h'.next);
      }
    }
    assert h'.watermark == u' by {
      if u' > 0 { MaxOrIs(t'.removed, 0, u'); } else { assert t'.removed == {}; }
    }
    assert h'.stored == Between(u', h'.next) by {
      forall s | s in Between(u', h'.next) ensures s in h'.stored {
        assert s in Between(0, h'.next);
      }
    }
  }

  lemma {:induction false} SuffixCycles(h: Half, n: nat)
    requires Suffix(h)
    ensures Suffix(Cycles(h, n))
    ensures Cycles(h, n).next == h.next
    ensures Cycles(h, n).watermark == Min(h.watermark + 1000 * n, h.next - 1)
    decreases n
  {
    if n > 0 {
      SuffixCycle(h);
      SuffixCycles(FullCycle(h), n - 1);
    }
  }

  lemma DrainFrom(t: Tracked, u: nat, n: nat)
    requires Inv(t, u) && t.dense && t.half.live == {}
    ensures var h := t.half;
            var last := Cycles(h, n + 1);
            && (last.stored == {} <==> |FullCycle(h).stored| <= 1000 * n)
            && (last.stored == {} ==> last.watermark == last.next - 1 && last.next == h.next)
  {
    FirstDrainCycle(t, u);
    SuffixCycles(FullCycle(t.half), n);
    BetweenSize(FullCycle(t.half).watermark, t.half.next);
    BetweenSize(Cycles(t.half, n + 1).watermark, t.half.next);
  }

  /** With nothing live left and no new packet, one cycle followed by `n` more empties the store exactly when
      `n` windows of a thousand cover what the first one left, and then the watermark is at `next - 1`. */
  lemma Drain(actions: seq<Action>, n: nat)
    requires Run(Init(true), actions).half.live == {}
    ensures var h := Run(Init(true), actions).half;
            var last := Cycles(h, n + 1);
            && (last.stored == {} <==> |FullCycle(h).stored| <= 1000 * n)
            && (last.stored == {} ==> last.watermark == last.next - 1 && last.next == h.next)
  {
    var u := RunKeepsInv(true, actions);
    DenseStays(Init(true), actions);
    DrainFrom(Run(Init(true), actions), u, n);
  }

  lemma {:induction false} DenseStays(t: Tracked, actions: seq<Action>)
    ensures Run(t, actions).dense == t.dense
    decreases |actions|
  {
    if actions != [] { DenseStays(t, actions[..|actions| - 1]); }
  }

  /** A packet nobody needs any more: stored, and no longer live. */
  ghost predicate Garbage(h: Half, s: nat) { s in h.stored && s !in h.live }

  /** What a cycle removes from the store. */
  lemma CycleDrops(h: Half)
    ensures h.stored - FullCycle(h).stored == Released(h) * h.stored + Scanned(h)
    ensures FullCycle(h).stored <= h.stored
    ensures FullCycle(h).stored == h.stored <==> Released(h) * h.stored + Scanned(h) == {}
  {
    var h' := FullCycle(h);
    assert h.stored - h'.stored == Released(h) * h.stored + Scanned(h);
    assert h'.stored == h.stored - (h.stored - h'.stored);
    assert h.stored - {} == h.stored && h.stored - h.stored == {};
  }

  /** Some garbage lies below `bound`. */
  ghost predicate GarbageBelow(h: Half, bound: nat) { exists s: nat :: Garbage(h, s) && s < bound }

  ghost function ScanEnd(h: Half): nat { Min(ScanStart(h) + PACKET_CLEANUP_PER_CYCLE, h.next) }

  lemma GarbageIsDropped(h: Half, u: nat, s: nat)
    requires Covered(h, u) && Garbage(h, s) && s < ScanEnd(h)
    ensures s in Released(h) * h.stored + Scanned(h)
  {
    ScanStartBelowFrontier(h, u);
    if s > u { assert s in Window(h); }
  }

  lemma DroppedIsGarbage(h: Half, u: nat, s: nat)
    requires Covered(h, u) && s in Released(h) * h.stored + Scanned(h)
    ensures Garbage(h, s) && s < ScanEnd(h)
  {
    ScanStartBelowFrontier(h, u);
    if s in Released(h) { assert s <= ScanStart(h); } else { assert s in Window(h); }
  }

  lemma DropsIff(h: Half, u: nat)
    requires Covered(h, u)
    ensures FullCycle(h).stored != h.stored <==> GarbageBelow(h, ScanEnd(h))
  {
    hide FullCycle, Released, Scanned, Covered, Garbage, ScanEnd;
    CycleDrops(h);
    if s: nat :| Garbage(h, s) && s < ScanEnd(h) { GarbageIsDropped(h, u, s); }
    if s :| s in Released(h) * h.stored + Scanned(h) { DroppedIsGarbage(h, u, s); }
  }

  /** Cleanup does not always make progress.  In every run, a cycle drops something exactly when some garbage lies at
      most a thousand sequences above where its scan starts. */
  lemma ProgressIff(dense: bool, actions: seq<Action>)
    ensures var h := Run(Init(dense), actions).half;
            FullCycle(h).stored != h.stored <==> GarbageBelow(h, Min(ScanStart(h) + PACKET_CLEANUP_PER_CYCLE, h.next))
  {
    var u := RunKeepsInv(dense, actions);
    DropsIff(Run(Init(dense), actions).half, u);
  }

  /** Without aborted cycles everything released is still stored. */
  lemma ReleasedStored(dense: bool, actions: seq<Action>)
    requires Abort !in actions
    ensures var h := Run(Init(dense), actions).half; Released(h) <= h.stored
  {
    var u := RunKeepsInv(dense, actions);
    ErrorFreeWatermark(dense, actions);
  }

  /** And the same holds of the thousand sequences above the watermark. */
  lemma ErrorFreeProgressIff(dense: bool, actions: seq<Action>)
    requires Abort !in actions
    ensures var h := Run(Init(dense), actions).half;
            FullCycle(h).stored != h.stored <==> GarbageBelow(h, Min(h.watermark + PACKET_CLEANUP_PER_CYCLE, h.next))
  {
    var t := Run(Init(dense), actions);
    var h := t.half;
    var u := RunKeepsInv(dense, actions);
    ReleasedStored(dense, actions);
    CycleDrops(h);
    assert Released(h) * h.stored == Released(h);
    if s: nat :| Garbage(h, s) && s < Min(h.watermark + PACKET_CLEANUP_PER_CYCLE, h.next) {
      if Released(h) == {} {
        assert s in Scanned(h);
      }
    }
    if s :| s in Released(h) + Scanned(h) {
      var d := if Released(h) == {} then s else MaxOr(Released(h), 0);
      assert Garbage(h, d);
    }
  }

  // ----- Stalls -----

  /** A cycle with nothing to release and nothing to drop leaves the next one nothing either. */
  lemma IdleStaysIdle(h: Half)
    requires Released(h) == {} && FullCycle(h).stored == h.stored
    ensures var h' := FullCycle(h); Released(h') == {} && FullCycle(h').stored == h'.stored
  {
    CycleDrops(h);
    var h' := FullCycle(h);
    assert ScanStart(h') == ScanStart(h) == h.watermark;
    assert Scanned(h') == Scanned(h);
    CycleDrops(h');
  }

  lemma {:induction false} IdleForever(h: Half, n: nat)
    requires Released(h) == {} && FullCycle(h).stored == h.stored
    ensures Cycles(h, n).stored == h.stored
    decreases n
  {
    if n > 0 {
      IdleStaysIdle(h);
      IdleForever(FullCycle(h), n - 1);
    }
  }

  /** However often cleanup runs, it drops nothing until something is released or stored. */
  ghost predicate Stalled(h: Half) { forall n: nat :: Cycles(h, n).stored == h.stored }

  /** Cleanup has stalled exactly when two cycles in a row drop nothing. */
  lemma StallsIff(h: Half)
    ensures Stalled(h) <==> FullCycle(h).stored == h.stored && FullCycle(FullCycle(h)).stored == h.stored
  {
    hide FullCycle;
    var h' := FullCycle(h);
    assert Cycles(h, 1) == h';
    assert Cycles(h, 2) == FullCycle(h') by { assert Cycles(h', 1) == FullCycle(h'); }
    NothingReleased(h);
    if h'.stored == h.stored && FullCycle(h').stored == h.stored {
      forall n: nat ensures Cycles(h, n).stored == h.stored {
        if n > 0 { IdleForever(h', n - 1); }
      }
    }
  }

  lemma NothingReleased(h: Half)
    ensures Released(FullCycle(h)) == {}
  {
  }

  /** Where the scan of the cycle after the next one ends. */
  ghost function SecondScanEnd(h: Half): nat {
    Min(Max(ScanStart(h), h.watermark) + PACKET_CLEANUP_PER_CYCLE, h.next)
  }

  /** After a cycle that drops nothing the scan starts at the watermark it leaves. */
  lemma AfterIdle(h: Half)
    requires FullCycle(h).stored == h.stored
    ensures ScanStart(FullCycle(h)) == Max(ScanStart(h), h.watermark)
    ensures ScanEnd(FullCycle(h)) == SecondScanEnd(h)
    ensures forall s :: Garbage(FullCycle(h), s) <==> Garbage(h, s)
  {
    CycleDrops(h);
    NothingReleased(h);
    assert Scanned(h) == {};
  }

  lemma CoveredStallsIff(h: Half, u: nat)
    requires Covered(h, u)
    ensures Stalled(h) <==> !GarbageBelow(h, SecondScanEnd(h))
  {
    StallsIff(h);
    DropsIff(h, u);
    CycleKeepsCovered(h, u);
    DropsIff(FullCycle(h), NextFrontier(h, u));
    assert ScanEnd(h) <= SecondScanEnd(h);
    hide FullCycle, Stalled, Covered, ScanEnd, SecondScanEnd, Garbage;
    if FullCycle(h).stored == h.stored { AfterIdle(h); }
  }

  /** In every run, aborted cycles included: cleanup has stalled exactly when no garbage lies at most a thousand sequences
      above the greater of the watermark and where its next scan starts. */
  lemma RunStallsIff(dense: bool, actions: seq<Action>)
    ensures var h := Run(Init(dense), actions).half;
            Stalled(h)
            <==> !GarbageBelow(h, Min(Max(ScanStart(h), h.watermark) + PACKET_CLEANUP_PER_CYCLE, h.next))
  {
    var u := RunKeepsInv(dense, actions);
    var h := Run(Init(dense), actions).half;
    hide Stalled, GarbageBelow;
    CoveredStallsIff(h, u);
  }

  /** Without aborted cycles, the watermark alone will do. */
  lemma ErrorFreeStallsIff(dense: bool, actions: seq<Action>)
    requires Abort !in actions
    ensures var h := Run(Init(dense), actions).half;
            Stalled(h) <==> !GarbageBelow(h, Min(h.watermark + PACKET_CLEANUP_PER_CYCLE, h.next))
  {
    var h := Run(Init(dense), actions).half;
    RunStallsIff(dense, actions);
    ErrorFreeProgressIff(dense, actions);
    ReleasedStored(dense, actions);
    CycleDrops(h);
    if FullCycle(h).stored == h.stored {
      assert Released(h) * h.stored == Released(h);
      assert Released(h) == {};
    } else {
      var s: nat :| Garbage(h, s) && s < Min(h.watermark + PACKET_CLEANUP_PER_CYCLE, h.next);
      assert s < Min(Max(ScanStart(h), h.watermark) + PACKET_CLEANUP_PER_CYCLE, h.next);
    }
  }

  function Sends(m: nat): seq<Action> { seq(m, _ => Append) }

  ghost function AllLive(m: nat): Half { Half(Between(0, m + 1), Between(0, m + 1), {}, 0, m + 1) }

  lemma SendOne(removed: set<nat>, m: nat)
    ensures Act(Tracked(AllLive(m), removed, true), Append) == Tracked(AllLive(m + 1), removed, true)
  {
    assert Between(0, m + 2) == Between(0, m + 1) + {m + 1};
  }

  lemma NoneLive()
    ensures Init(true) == Tracked(AllLive(0), {}, true)
  {
    assert Between(0, 1) == {};
  }

  lemma {:induction false} AfterSends(m: nat)
    ensures Run(Init(true), Sends(m)) == Tracked(AllLive(m), {}, true)
    decreases m
  {
    hide Act, AllLive, Init;
    if m == 0 {
      NoneLive();
    } else {
      AfterSends(m - 1);
      assert Sends(m)[..m - 1] == Sends(m - 1);
      SendOne({}, m - 1);
    }
  }

  /** Such a run: of at least 1001 packets only the 1001st is settled.  It is never cleaned up while the others wait. */
  lemma StalledRun(m: nat)
    requires m >= PACKET_CLEANUP_PER_CYCLE
    ensures var h := Run(Init(true), Sends(m) + [Release(PACKET_CLEANUP_PER_CYCLE)]).half;
            Garbage(h, PACKET_CLEANUP_PER_CYCLE) && Stalled(h)
  {
    var actions := Sends(m) + [Release(PACKET_CLEANUP_PER_CYCLE)];
    assert actions[..|actions| - 1] == Sends(m);
    AfterSends(m);
    var h := Run(Init(true), actions).half;
    assert Released(h) == {};
    assert Window(h) <= h.live;
    assert Scanned(h) == {};
    CycleDrops(h);
    forall n: nat ensures Cycles(h, n).stored == h.stored { IdleForever(h, n); }
  }

  // ----- Acknowledgements written later -----

  /** A packet received in order whose acknowledgement is not written yet: stored, but not live. */
  ghost function Unacknowledged(h: Half): Half {
    h.(stored := h.stored + {h.next}, next := h.next + 1)
  }

  /** Cleanup is safe for synchronous acknowledgements only.  If a cycle runs before the acknowledgement is written,
      the received packet survives it exactly when more than a thousand sequences separate it from where the scan
      starts. */
  lemma LateAckKeepsPacketIff(actions: seq<Action>)
    ensures var h := Run(Init(true), actions).half;
            h.next in FullCycle(Unacknowledged(h)).stored <==> ScanStart(h) + 1000 < h.next
  {
    var t := Run(Init(true), actions);
    var u := RunKeepsInv(true, actions);
    DenseStays(Init(true), actions);
    var h, late := t.half, Unacknowledged(t.half);
    assert h.next !in Between(0, h.next);
    assert h.next !in h.pending;
    assert Released(late) == Released(h);
    assert h.next in Scanned(late) <==> h.next in Window(late);
  }
}
