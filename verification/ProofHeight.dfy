/** The search for a client height at which a packet can be proved. */
module ProofHeight {
  import opened Common

  /** What the sink answers during one search: the timestamp of the consensus state it has for a client height, if
      any, and whether it recorded when and where it applied an update of that height.  `proofHeight` is the source's
      map from a block height to the height whose header proves it. */
  datatype Sink = Sink(timestamp: nat -> Option<nat>, hasUpdate: nat -> bool, proofHeight: nat -> nat)

  /** Both answers needed for a proof at `h` are there. */
  predicate Usable(sink: Sink, h: nat) {
    sink.timestamp(h).Some? && sink.hasUpdate(sink.proofHeight(h))
  }

  /** There is a consensus state at `h` that is no earlier than `target`, and an update of its proof height. */
  ghost predicate LateEnough(sink: Sink, target: nat, h: nat) {
    exists t :: sink.timestamp(h) == Some(t) && target <= t && sink.hasUpdate(sink.proofHeight(h))
  }

  /** The timestamp of the consensus state at `h`. */
  function Time(sink: Sink, h: nat): nat {
    if sink.timestamp(h).Some? then sink.timestamp(h).value else 0
  }

  predicate Qualifies(sink: Sink, target: nat, h: nat) {
    Usable(sink, h) && Time(sink, h) >= target
  }

  /** A height can be used with any timestamp exactly when it is late enough for zero. */
  lemma QualifiesMeans(sink: Sink, target: nat, h: nat)
    ensures Qualifies(sink, target, h) <==> LateEnough(sink, target, h)
    ensures Usable(sink, h) <==> LateEnough(sink, 0, h)
  {
  }

  // ----- Without a timestamp: linear search -----

  /** The least usable height in a range. */
  function FirstUsable(sink: Sink, start: nat, latest: nat): (r: Option<nat>)
    ensures r.Some? ==> start <= r.value <= latest && Usable(sink, r.value)
    ensures forall h :: start <= h <= latest && Usable(sink, h) ==> r.Some? && r.value <= h
    decreases latest + 1 - start
  {
    if start > latest then None
    else if Usable(sink, start) then Some(start)
    else FirstUsable(sink, start + 1, latest)
  }

  method LinearSearch(sink: Sink, start: nat, latest: nat) returns (r: Option<nat>)
    ensures r == FirstUsable(sink, start, latest)
  {
    var height := start;
    while height <= latest
      invariant start <= height
      invariant FirstUsable(sink, start, latest) == FirstUsable(sink, height, latest)
      decreases latest + 1 - height
    {
      if sink.timestamp(height).Some? {
        if sink.hasUpdate(sink.proofHeight(height)) {
          return Some(height);
        }
      }
      height := height + 1;
    }
    return None;
  }

  // ----- With a timestamp: binary search over a history that may have gaps -----

  /** The rest of the search on the interval from `start` to `end`; `last` is the last qualifying height seen.  The end
      of the interval itself is looked at only when `start` reaches it. */
  function Narrow(sink: Sink, target: nat, start: nat, end: nat, last: Option<nat>): Option<nat>
    requires start <= end
    decreases end - start
  {
    if end - start > 1 then
      var mid := (end + start) / 2;
      if !Usable(sink, mid) then Narrow(sink, target, start + 1, end, last)
      else if Time(sink, mid) < target then Narrow(sink, target, mid + 1, end, last)
      else Narrow(sink, target, start, mid, Some(mid))
    else if Qualifies(sink, target, start) then Some(start)
    else last
  }

  method BinarySearch(sink: Sink, target: nat, from: nat, latest: nat) returns (r: Option<nat>)
    ensures r == if from > latest then None else Narrow(sink, target, from, latest, None)
  {
    var start, end, lastKnown := from, latest, None;
    if start > end {
      return None;
    }
    while end - start > 1
      invariant start <= end
      invariant Narrow(sink, target, start, end, lastKnown) == Narrow(sink, target, from, latest, None)
      decreases end - start
    {
      var mid := (end + start) / 2;
      var consensus := sink.timestamp(mid);
      if consensus.None? {
        start := start + 1;
      } else if !sink.hasUpdate(sink.proofHeight(mid)) {
        start := start + 1;
      } else if consensus.value < target {
        start := mid + 1;
      } else {
        lastKnown := Some(mid);
        end := mid;
      }
    }
    if sink.timestamp(start).Some? {
      if sink.timestamp(start).value >= target {
        if sink.hasUpdate(sink.proofHeight(start)) {
          return Some(start);
        }
      }
    }
    return lastKnown;
  }

  method FindSuitableProofHeight(sink: Sink, start: nat, timestamp: Option<nat>, latest: nat) returns (r: Option<nat>)
    ensures timestamp.None? ==> r == FirstUsable(sink, start, latest)
    ensures timestamp.Some? ==>
              r == if start > latest then None else Narrow(sink, timestamp.value, start, latest, None)
  {
    if timestamp.None? {
      r := LinearSearch(sink, start, latest);
    } else {
      r := BinarySearch(sink, timestamp.value, start, latest);
    }
  }

  // ----- With arbitrary gaps: what is found is right -----

  lemma {:induction false} NarrowSound(sink: Sink, target: nat, lo: nat, hi: nat, start: nat, end: nat, last: Option<nat>)
    requires lo <= start <= end <= hi
    requires last.Some? ==> lo <= last.value <= hi && Qualifies(sink, target, last.value)
    ensures var r := Narrow(sink, target, start, end, last);
            r.Some? ==> lo <= r.value <= hi && Qualifies(sink, target, r.value)
    decreases end - start
  {
    if end - start > 1 {
      var mid := (end + start) / 2;
      if !Usable(sink, mid) { NarrowSound(sink, target, lo, hi, start + 1, end, last); }
      else if Time(sink, mid) < target { NarrowSound(sink, target, lo, hi, mid + 1, end, last); }
      else { NarrowSound(sink, target, lo, hi, start, mid, Some(mid)); }
    }
  }

  /** Whatever the gaps, a height found lies in the range, has a consensus state that is late enough, and has update
      metadata at its proof height. */
  lemma FoundHeightQualifies(sink: Sink, target: nat, start: nat, latest: nat)
    requires start <= latest
    ensures var r := Narrow(sink, target, start, latest, None);
            r.Some? ==> start <= r.value <= latest && LateEnough(sink, target, r.value)
  {
    NarrowSound(sink, target, start, latest, start, latest, None);
  }

  // ----- With gaps: when the first match is found -----

  /** `m` is the first qualifying height from `lo` on, and so is every height from `m` to `hi`. */
  ghost predicate FirstRun(sink: Sink, target: nat, lo: nat, m: nat, hi: nat) {
    && (forall k :: lo <= k < m ==> !Qualifies(sink, target, k))
    && (forall k :: m <= k <= hi ==> Qualifies(sink, target, k))
  }

  /** Once the end of the interval is known to qualify, the search finds the first match. */
  lemma {:induction false} NarrowToKnownEnd(sink: Sink, target: nat, start: nat, end: nat, m: nat)
    requires start <= m <= end && FirstRun(sink, target, start, m, (m + end) / 2) && Qualifies(sink, target, end)
    ensures Narrow(sink, target, start, end, Some(end)) == Some(m)
    decreases end - start
  {
    if end - start > 1 {
      var mid := (end + start) / 2;
      if m <= mid {
        assert Qualifies(sink, target, mid);
        NarrowToKnownEnd(sink, target, start, mid, m);
      } else {
        assert !Qualifies(sink, target, mid);
        NarrowToKnownEnd(sink, target, if Usable(sink, mid) then mid + 1 else start + 1, end, m);
      }
    }
  }

  /** Whatever the gaps and the timestamps before the first match, and whatever comes later than halfway from it to the
      latest height: if all heights up to there qualify, the first match is found. */
  lemma {:induction false} NarrowFindsFirst(sink: Sink, target: nat, start: nat, latest: nat, m: nat)
    requires start <= m < latest && FirstRun(sink, target, start, m, (m + latest) / 2)
    ensures Narrow(sink, target, start, latest, None) == Some(m)
    decreases latest - start
  {
    if latest - start > 1 {
      var mid := (latest + start) / 2;
      if m <= mid {
        assert Qualifies(sink, target, mid);
        NarrowToKnownEnd(sink, target, start, mid, m);
      } else {
        assert !Qualifies(sink, target, mid);
        NarrowFindsFirst(sink, target, if Usable(sink, mid) then mid + 1 else start + 1, latest, m);
      }
    }
  }

  /** So, where usable heights after the first match qualify too, only a gap can hide it, and only one that is no later
      than halfway to the latest height. */
  lemma MissNeedsGap(sink: Sink, target: nat, start: nat, latest: nat, m: nat)
    requires start <= m < latest && FirstRun(sink, target, start, m, m)
    requires forall k :: m <= k < latest && Usable(sink, k) ==> Qualifies(sink, target, k)
    requires Narrow(sink, target, start, latest, None) != Some(m)
    ensures exists gap :: m < gap <= (m + latest) / 2 && !Usable(sink, gap)
  {
    if forall k :: m < k <= (m + latest) / 2 ==> Usable(sink, k) {
      assert FirstRun(sink, target, start, m, (m + latest) / 2);
      NarrowFindsFirst(sink, target, start, latest, m);
    }
  }

  function Pow2(k: nat): (p: nat)
    ensures p > 0
  {
    if k == 0 then 1 else 2 * Pow2(k - 1)
  }

  lemma MultipleIsFar(k: int, d: nat)
    ensures k >= 1 ==> k * d >= d
    ensures k <= -1 ==> k * d <= 0 - d
  {
  }

  lemma QuotientIs(w: nat, d: nat, q: nat, r: nat)
    requires r < d && w == q * d + r
    ensures w / d == q
  {
    var k := w / d - q;
    assert w == w / d * d + w % d;
    assert k * d == w / d * d - q * d;
    MultipleIsFar(k, d);
  }

  lemma DivideTwice(w: nat, p: nat)
    requires p > 0
    ensures w / (2 * p) == w / 2 / p
  {
    var h := w / 2;
    var q, r := h / p, h % p;
    assert h == q * p + r;
    assert 2 * (q * p) == q * (2 * p);
    QuotientIs(w, 2 * p, q, 2 * r + w % 2);
  }

  /** A width halved `k` times. */
  function Halved(width: nat, k: nat): nat { Quotient(width, Pow2(k)) }

  function Quotient(w: nat, d: nat): nat
    requires d > 0
  {
    w / d
  }

  lemma HalvedOnce(width: nat, k: nat)
    ensures Halved(width, 0) == width
    ensures Halved(width, k + 1) == Halved(width / 2, k)
    ensures width <= 1 && k > 0 ==> Halved(width, k) == 0
  {
    DivideTwice(width, Pow2(k));
    assert Pow2(k + 1) == 2 * Pow2(k);
    if width <= 1 && k > 0 { QuotientIs(width, Pow2(k), 0, width); }
  }

  /** The heights looked at while the range from `m`, `width` wide, is halved towards `m`. */
  ghost predicate ProbesUsable(sink: Sink, m: nat, width: nat) {
    forall k: nat :: k > 0 && Halved(width, k) > 0 ==> Usable(sink, m + Halved(width, k))
  }

  lemma ProbesHalve(sink: Sink, m: nat, width: nat)
    requires width > 1
    ensures ProbesUsable(sink, m, width) <==> Usable(sink, m + width / 2) && ProbesUsable(sink, m, width / 2)
  {
    hide Halved;
    HalvedOnce(width, 0);
    HalvedOnce(width / 2, 0);
    if ProbesUsable(sink, m, width) {
      assert Usable(sink, m + Halved(width, 1));
      forall k: nat | k > 0 && Halved(width / 2, k) > 0 ensures Usable(sink, m + Halved(width / 2, k)) {
        HalvedOnce(width, k);
      }
    }
    if Usable(sink, m + width / 2) && ProbesUsable(sink, m, width / 2) {
      forall k: nat | k > 0 && Halved(width, k) > 0 ensures Usable(sink, m + Halved(width, k)) {
        HalvedOnce(width, k - 1);
      }
    }
  }

  lemma NothingToProbe(sink: Sink, m: nat, width: nat)
    requires width <= 1
    ensures ProbesUsable(sink, m, width)
  {
    forall k: nat | k > 0 ensures Halved(width, k) == 0 { HalvedOnce(width, k); }
  }

  lemma {:induction false} NarrowFromMatch(sink: Sink, target: nat, m: nat, end: nat, last: Option<nat>)
    requires m < end && Qualifies(sink, target, m)
    requires forall k :: m <= k < end && Usable(sink, k) ==> Qualifies(sink, target, k)
    requires last.Some? ==> last.value == end && Qualifies(sink, target, end)
    ensures Narrow(sink, target, m, end, last) == Some(m) <==> ProbesUsable(sink, m, end - m)
    decreases end
  {
    if end - m > 1 {
      var mid := (end + m) / 2;
      assert mid == m + (end - m) / 2;
      ProbesHalve(sink, m, end - m);
      if Usable(sink, mid) {
        assert Qualifies(sink, target, mid);
        NarrowFromMatch(sink, target, m, mid, Some(mid));
      } else {
        NarrowSound(sink, target, m + 1, end, m + 1, end, last);
      }
    } else {
      NothingToProbe(sink, m, end - m);
    }
  }

  /** And exactly when a gap does hide a match at the start of the range: when it is at one of the heights that halving
      the range towards the start looks at, which are the start plus the width of the range divided by 2, 4, 8 and so
      on. */
  lemma MatchAtStartIff(sink: Sink, target: nat, start: nat, latest: nat)
    requires start < latest && Qualifies(sink, target, start)
    requires forall k :: start <= k < latest && Usable(sink, k) ==> Qualifies(sink, target, k)
    ensures Narrow(sink, target, start, latest, None) == Some(start) <==> ProbesUsable(sink, start, latest - start)
  {
    NarrowFromMatch(sink, target, start, latest, None);
  }

  // ----- How the probes climb over gaps -----

  lemma {:induction false} NarrowKeeps(sink: Sink, target: nat, start: nat, end: nat, last: nat)
    requires start <= end
    ensures Narrow(sink, target, start, end, Some(last)).Some?
    decreases end - start
  {
    if end - start > 1 {
      var mid := (end + start) / 2;
      if !Usable(sink, mid) { NarrowKeeps(sink, target, start + 1, end, last); }
      else if Time(sink, mid) < target { NarrowKeeps(sink, target, mid + 1, end, last); }
      else { NarrowKeeps(sink, target, start, mid, mid); }
    }
  }

  /** From the middle of the range upwards a match behind nothing but gaps is not missed: each gap moves the probe by at
      most one height. */
  lemma {:induction false} ClimbsOverGaps(sink: Sink, target: nat, start: nat, latest: nat, m: nat)
    requires start + 1 < latest && (start + latest) / 2 <= m < latest && Qualifies(sink, target, m)
    requires forall k :: (start + latest) / 2 <= k < m ==> !Usable(sink, k)
    ensures var r := Narrow(sink, target, start, latest, None); r.Some? && start <= r.value <= m
    decreases latest - start
  {
    var mid := (latest + start) / 2;
    if mid == m {
      NarrowKeeps(sink, target, start, m, m);
      NarrowSound(sink, target, start, m, start, m, Some(m));
    } else {
      ClimbsOverGaps(sink, target, start + 1, latest, m);
    }
  }

  lemma {:induction false} NothingUsable(sink: Sink, target: nat, start: nat, latest: nat)
    requires start < latest && forall k :: start <= k < latest ==> !Usable(sink, k)
    ensures Narrow(sink, target, start, latest, None) == None
    decreases latest - start
  {
    if latest - start > 1 { NothingUsable(sink, target, start + 1, latest); }
  }

  lemma {:induction false} MatchBelowMiddle(sink: Sink, target: nat, start: nat, latest: nat, m: nat)
    requires start + 1 < latest && start <= m < (start + latest) / 2
    requires forall k :: start <= k < latest && k != m ==> !Usable(sink, k)
    ensures Narrow(sink, target, start, latest, None) == None
    decreases latest - start
  {
    assert !Usable(sink, (latest + start) / 2);
    if m == start {
      NothingUsable(sink, target, start + 1, latest);
    } else {
      MatchBelowMiddle(sink, target, start + 1, latest, m);
    }
  }

  /** So where a single height before the latest is usable, it is found exactly when it is not below the middle of the
      range. */
  lemma OnlyMatch(sink: Sink, target: nat, start: nat, latest: nat, m: nat)
    requires start + 1 < latest && start <= m < latest && Qualifies(sink, target, m)
    requires forall k :: start <= k < latest && k != m ==> !Usable(sink, k)
    ensures Narrow(sink, target, start, latest, None) == if (start + latest) / 2 <= m then Some(m) else None
  {
    if (start + latest) / 2 <= m {
      ClimbsOverGaps(sink, target, start, latest, m);
      NarrowSound(sink, target, start, latest, start, latest, None);
    } else {
      MatchBelowMiddle(sink, target, start, latest, m);
    }
  }

  /** A hidden match can mean that nothing is found at all. */
  lemma GapsHideGoodHeights()
    ensures var sink := Sink(h => if h == 0 || h == 3 then Some(10) else None, h => true, h => h);
            Qualifies(sink, 10, 0) && Qualifies(sink, 10, 3) && Narrow(sink, 10, 0, 3, None) == None
  {
    var sink := Sink(h => if h == 0 || h == 3 then Some(10) else None, h => true, h => h);
    calc {
      Narrow(sink, 10, 0, 3, None);
      Narrow(sink, 10, 1, 3, None);
      Narrow(sink, 10, 2, 3, None);
      None;
    }
  }

  // ----- Without gaps: exactly when the first match is found -----

  ghost predicate GapFree(sink: Sink, lo: nat, hi: nat) {
    forall h :: lo <= h <= hi ==> Usable(sink, h)
  }

  ghost predicate NonDecreasing(sink: Sink, lo: nat, hi: nat) {
    forall h, k :: lo <= h <= k <= hi ==> Time(sink, h) <= Time(sink, k)
  }

  /** `r` is the first qualifying height of the range, or nothing when there is none. */
  ghost predicate IsFirst(sink: Sink, target: nat, lo: nat, hi: nat, r: Option<nat>) {
    match r
    case Some(h) => lo <= h <= hi && Qualifies(sink, target, h) && forall k :: lo <= k < h ==> !Qualifies(sink, target, k)
    case None => forall k :: lo <= k <= hi ==> !Qualifies(sink, target, k)
  }

  /** Whether halving an interval of this width, always to the right, stops one short of its end. */
  predicate StopsShort(width: nat) {
    if width <= 1 then width == 1 else StopsShort((width - 1) / 2)
  }

  /** If only the end qualifies, every probe moves right, and whether the end is reached depends on the width alone. */
  lemma {:induction false} NarrowToUnknownEnd(sink: Sink, target: nat, start: nat, end: nat)
    requires start <= end && GapFree(sink, start, end)
    requires forall k :: start <= k < end ==> !Qualifies(sink, target, k)
    ensures Narrow(sink, target, start, end, None)
            == if Qualifies(sink, target, end) && !StopsShort(end - start) then Some(end) else None
    decreases end - start
  {
    if end - start > 1 {
      var mid := (end + start) / 2;
      assert !Qualifies(sink, target, mid);
      assert end - (mid + 1) == (end - start - 1) / 2;
      NarrowToUnknownEnd(sink, target, mid + 1, end);
    }
  }

  lemma {:induction false} FirstMatch(sink: Sink, target: nat, lo: nat, h: nat) returns (m: nat)
    requires lo <= h && Qualifies(sink, target, h)
    ensures lo <= m <= h && Qualifies(sink, target, m) && forall k :: lo <= k < m ==> !Qualifies(sink, target, k)
    decreases h - lo
  {
    if Qualifies(sink, target, lo) { m := lo; } else { m := FirstMatch(sink, target, lo + 1, h); }
  }

  lemma NarrowFindsInside(sink: Sink, target: nat, start: nat, end: nat, h: nat)
    requires start <= h < end && GapFree(sink, start, end) && NonDecreasing(sink, start, end)
    requires Qualifies(sink, target, h)
    ensures IsFirst(sink, target, start, end, Narrow(sink, target, start, end, None))
  {
    var m := FirstMatch(sink, target, start, h);
    assert forall k :: m <= k <= end ==> Usable(sink, k) && Time(sink, m) <= Time(sink, k);
    NarrowFindsFirst(sink, target, start, end, m);
  }

  /** On a gap-free history with non-decreasing timestamps the search returns the first match of the whole range, or
      correctly nothing, unless the only match is the latest height and the width of the range makes the halving stop
      one short of it. */
  lemma FirstMatchIff(sink: Sink, target: nat, start: nat, latest: nat)
    requires start <= latest && GapFree(sink, start, latest) && NonDecreasing(sink, start, latest)
    ensures IsFirst(sink, target, start, latest, Narrow(sink, target, start, latest, None))
            <==> !(&& Qualifies(sink, target, latest)
                   && (start < latest ==> !Qualifies(sink, target, latest - 1))
                   && StopsShort(latest - start))
  {
    if start < latest && Qualifies(sink, target, latest - 1) {
      NarrowFindsInside(sink, target, start, latest, latest - 1);
    } else {
      assert start < latest ==> Usable(sink, latest - 1);
      assert forall k :: start <= k < latest ==> Time(sink, k) <= Time(sink, latest - 1);
      NarrowToUnknownEnd(sink, target, start, latest);
    }
  }

  /** Two heights, of which only the second is late enough: nothing is found. */
  lemma LatestCanBeMissed()
    ensures var sink := Sink(h => Some(h), h => true, h => h);
            && GapFree(sink, 0, 1) && NonDecreasing(sink, 0, 1)
            && Qualifies(sink, 1, 1) && Narrow(sink, 1, 0, 1, None) == None
  {
  }

  /** In every case a height found is the first match, and nothing found means nothing before the latest matches. */
  lemma FoundIsFirst(sink: Sink, target: nat, start: nat, latest: nat)
    requires start <= latest && GapFree(sink, start, latest) && NonDecreasing(sink, start, latest)
    ensures var r := Narrow(sink, target, start, latest, None);
            && (r.Some? ==> IsFirst(sink, target, start, latest, r))
            && (r.None? ==> forall k :: start <= k < latest ==> !Qualifies(sink, target, k))
  {
    if start < latest && Qualifies(sink, target, latest - 1) {
      NarrowFindsInside(sink, target, start, latest, latest - 1);
    } else {
      assert start < latest ==> Usable(sink, latest - 1);
      assert forall k :: start <= k < latest ==> Time(sink, k) <= Time(sink, latest - 1);
      NarrowToUnknownEnd(sink, target, start, latest);
    }
  }

  /** The number of heights in the range has the binary digits 10 in front. */
  ghost predicate LeadsWithTwo(width: nat, k: nat) { 2 * Pow2(k) <= width + 1 < 3 * Pow2(k) }

  /** The widths that stop short, without the recursion: the binary numeral of the size of the range starts with 10. */
  lemma {:induction false} StopsShortIff(width: nat)
    ensures StopsShort(width) <==> exists k :: LeadsWithTwo(width, k)
    decreases width
  {
    if width == 1 {
      assert LeadsWithTwo(width, 0);
    } else if width > 1 {
      var half := (width - 1) / 2;
      StopsShortIff(half);
      if k: nat :| LeadsWithTwo(half, k) {
        assert LeadsWithTwo(width, k + 1);
      }
      if k: nat :| LeadsWithTwo(width, k) {
        assert k > 0;
        assert LeadsWithTwo(half, k - 1);
      }
    }
  }
}
