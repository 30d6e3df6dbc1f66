/** Submitting messages in batches that fit into a block. */
module MessageQueue {
  import opened Common

  /** How many chunks an overweight batch is meant to be split into, by how often it exceeds the block. */
  function ChunkCount(ratio: nat): nat { if ratio == 1 then ratio * 2 else ratio + 2 }

  function ChunkSize(n: nat, ratio: nat): (size: nat)
    ensures size > 0
  {
    Max(n / ChunkCount(ratio), 1)
  }

  /** How often a weight exceeds the block maximum. */
  function Ratio(weight: nat, blockMax: nat): nat
    requires blockMax > 0
  {
    weight / blockMax
  }

  lemma SizeOfChunks(n: nat, ratio: nat, size: nat)
    requires size == Max(n / (if ratio == 1 then ratio * 2 else ratio + 2), 1)
    ensures size == ChunkSize(n, ratio)
  {
  }

  /** Consecutive pieces of at most `size` messages. */
  function Chunks<M>(msgs: seq<M>, size: nat): seq<seq<M>>
    requires size > 0
  {
    if |msgs| == 0 then []
    else if |msgs| <= size then [msgs]
    else [msgs[..size]] + Chunks(msgs[size..], size)
  }

  /** The batches to submit for messages of a given weight. */
  function Plan<M>(msgs: seq<M>, weight: nat, blockMax: nat): seq<seq<M>>
    requires blockMax > 0
  {
    var ratio := Ratio(weight, blockMax);
    if ratio == 0 then [msgs] else Chunks(msgs, ChunkSize(|msgs|, ratio))
  }

  /** `weight` is the sink's estimate, if it can make one, and `accepts(k)` whether its `k`-th submission succeeds;
      `submitted` are the batches it accepted. */
  method FlushMessageBatch<M>(msgs: seq<M>, weight: Option<nat>, blockMax: nat, accepts: nat -> bool)
    returns (submitted: seq<seq<M>>, ok: bool)
    requires blockMax > 0
    ensures weight.None? ==> submitted == [] && !ok
    ensures weight.Some? ==>
              var plan := Plan(msgs, weight.value, blockMax);
              && submitted <= plan
              && (ok <==> submitted == plan)
              && (forall k: nat :: k < |submitted| ==> accepts(k))
              && (!ok ==> !accepts(|submitted|))
  {
    hide ChunkSize, ChunkCount;
    submitted, ok := [], false;
    if weight.None? {
      return;
    }
    var ratio := weight.value / blockMax;
    if ratio == 0 {
      if accepts(0) {
        submitted, ok := [msgs], true;
      }
      return;
    }
    var chunk := if ratio == 1 then ratio * 2 else ratio + 2;
    var size := Max(|msgs| / chunk, 1);
    SizeOfChunks(|msgs|, ratio, size);
    ghost var plan := Plan(msgs, weight.value, blockMax);
    var rest := msgs;
    while rest != []
      invariant plan == submitted + Chunks(rest, size)
      invariant forall k: nat :: k < |submitted| ==> accepts(k)
      decreases |rest|
    {
      var batch := if |rest| <= size then rest else rest[..size];
      if !accepts(|submitted|) {
        return;
      }
      submitted := submitted + [batch];
      rest := if |rest| <= size then [] else rest[size..];
    }
    ok := true;
  }

  // ----- Nothing is lost, duplicated or reordered -----

  function Concat<M>(batches: seq<seq<M>>): seq<M> {
    if batches == [] then [] else batches[0] + Concat(batches[1..])
  }

  lemma {:induction false} ChunksConcat<M>(msgs: seq<M>, size: nat)
    requires size > 0
    ensures Concat(Chunks(msgs, size)) == msgs
    decreases |msgs|
  {
    if |msgs| > size {
      ChunksConcat(msgs[size..], size);
      assert msgs == msgs[..size] + msgs[size..];
    } else if |msgs| > 0 {
      assert Chunks(msgs, size)[1..] == [];
    }
  }

  lemma {:induction false} ConcatPrefix<M>(part: seq<seq<M>>, whole: seq<seq<M>>)
    requires part <= whole
    ensures Concat(part) <= Concat(whole)
  {
    if part != [] { ConcatPrefix(part[1..], whole[1..]); }
  }

  /** All batches together are the messages, and the accepted ones are a prefix of them. */
  lemma BatchesAreMessages<M>(msgs: seq<M>, weight: nat, blockMax: nat, submitted: seq<seq<M>>)
    requires blockMax > 0 && submitted <= Plan(msgs, weight, blockMax)
    ensures Concat(Plan(msgs, weight, blockMax)) == msgs
    ensures Concat(submitted) <= msgs
  {
    if weight / blockMax != 0 {
      ChunksConcat(msgs, ChunkSize(|msgs|, weight / blockMax));
    } else {
      assert Concat([msgs]) == msgs + Concat([]);
    }
    ConcatPrefix(submitted, Plan(msgs, weight, blockMax));
  }

  // ----- How many batches -----

  lemma {:induction false} ChunksBound<M>(msgs: seq<M>, size: nat, k: nat)
    requires size > 0 && |msgs| <= k * size
    ensures |Chunks(msgs, size)| <= k
    decreases k
  {
    if |msgs| > size {
      assert k > 1;
      assert (k - 1) * size == k * size - size;
      ChunksBound(msgs[size..], size, k - 1);
    } else if |msgs| > 0 {
      assert k > 0;
    }
  }

  lemma Distribute(a: nat, b: nat, c: nat)
    ensures (a + b) * c == a * c + b * c
  {
  }

  lemma SizeTimesBound(n: nat, chunk: nat, q: nat, r: nat)
    requires chunk > 0 && n == q * chunk + r && r < chunk
    ensures n <= (2 * chunk - 1) * Max(q, 1)
  {
    if q >= 1 {
      MulMonotone(1, q, chunk - 1);
      Distribute(chunk, chunk - 1, q);
      assert chunk * q == q * chunk && (chunk - 1) * q == q * (chunk - 1);
    }
  }

  /** Splitting makes fewer than twice the intended number of chunks. */
  lemma FewBatches<M>(msgs: seq<M>, weight: nat, blockMax: nat)
    requires blockMax > 0 && weight / blockMax != 0
    ensures |Plan(msgs, weight, blockMax)| <= 2 * ChunkCount(weight / blockMax) - 1
  {
    var chunk := ChunkCount(weight / blockMax);
    assert |msgs| == |msgs| / chunk * chunk + |msgs| % chunk;
    SizeTimesBound(|msgs|, chunk, |msgs| / chunk, |msgs| % chunk);
    ChunksBound(msgs, ChunkSize(|msgs|, weight / blockMax), 2 * chunk - 1);
  }

  lemma {:induction false} ChunksSplit<M>(msgs: seq<M>, size: nat, k: nat)
    requires size > 0 && |msgs| == k * size
    ensures |Chunks(msgs, size)| == k
    ensures forall i :: 0 <= i < k ==> |Chunks(msgs, size)[i]| == size
    decreases k
  {
    if k > 0 {
      assert |msgs| == (k - 1) * size + size;
      if k > 1 {
        assert (k - 1) * size >= size;
        ChunksSplit(msgs[size..], size, k - 1);
      }
    }
  }

  /** A batch that exceeds the block once is split in two, and one that exceeds it `r` times, for `r` of two or more, into
      `r + 2` batches, of equal length if that divides the number of messages. */
  lemma SplitsEvenly<M>(msgs: seq<M>, weight: nat, blockMax: nat, size: nat)
    requires blockMax > 0 && weight >= blockMax && size > 0
    requires |msgs| == (if weight / blockMax == 1 then 2 else weight / blockMax + 2) * size
    ensures var plan := Plan(msgs, weight, blockMax);
            && |plan| == (if weight / blockMax == 1 then 2 else weight / blockMax + 2)
            && forall i :: 0 <= i < |plan| ==> |plan[i]| == size
  {
    var ratio := weight / blockMax;
    assert ratio >= 1;
    var chunk := ChunkCount(ratio);
    assert |msgs| == chunk * size;
    QuotientOfProduct(chunk, size);
    assert ChunkSize(|msgs|, ratio) == size;
    ChunksSplit(msgs, size, chunk);
  }

  lemma QuotientOfProduct(a: nat, b: nat)
    requires a > 0
    ensures a * b / a == b
  {
    var q := a * b / a;
    assert a * b == q * a + (a * b) % a;
    if q < b { MulMonotone(q + 1, b, a); }
    if b < q { MulMonotone(b + 1, q, a); }
  }

  // ----- Each batch fits -----

  lemma {:induction false} ChunkLengths<M>(msgs: seq<M>, size: nat, i: nat)
    requires size > 0 && i < |Chunks(msgs, size)|
    ensures |Chunks(msgs, size)[i]| <= size
    decreases |msgs|
  {
    if i > 0 { ChunkLengths(msgs[size..], size, i - 1); }
  }

  lemma MulMonotone(a: nat, b: nat, c: nat)
    requires a <= b
    ensures a * c <= b * c
  {
    assert (b - a) * c >= 0;
    assert b * c == a * c + (b - a) * c;
  }

  lemma MulCancel(a: nat, b: nat, c: nat)
    requires a * c <= b * c && c > 0
    ensures a <= b
  {
    if a > b { MulMonotone(b + 1, a, c); }
  }

  lemma ShareFits(n: nat, each: nat, blockMax: nat, ratio: nat, chunk: nat, q: nat)
    requires q * chunk <= n && n * each < (ratio + 1) * blockMax && ratio + 1 <= chunk
    ensures q * each <= blockMax
  {
    calc {
      (q * each) * chunk;
    ==
      (q * chunk) * each;
    <=  { MulMonotone(q * chunk, n, each); }
      n * each;
    <=
      (ratio + 1) * blockMax;
    <=  { MulMonotone(ratio + 1, chunk, blockMax); }
      chunk * blockMax;
    ==
      blockMax * chunk;
    }
    MulCancel(q * each, blockMax, chunk);
  }

  /** A chunk of equally heavy messages weighs at most a block. */
  lemma ChunkFits(n: nat, each: nat, blockMax: nat, weight: nat)
    requires blockMax > 0 && each <= blockMax && weight == n * each && weight / blockMax != 0
    ensures ChunkSize(n, weight / blockMax) * each <= blockMax
  {
    var ratio := weight / blockMax;
    var chunk := ChunkCount(ratio);
    var q := n / chunk;
    if q > 1 {
      assert weight == ratio * blockMax + weight % blockMax;
      Distribute(ratio, 1, blockMax);
      assert n == q * chunk + n % chunk;
      ShareFits(n, each, blockMax, ratio, chunk, q);
    }
  }

  /** The weights of some messages together. */
  function TotalWeight<M>(msgs: seq<M>, weigh: M -> nat): nat {
    if msgs == [] then 0 else weigh(msgs[0]) + TotalWeight(msgs[1..], weigh)
  }

  /** Every batch submitted is within the block maximum, where a batch weighs `base` and what its messages weigh. */
  ghost predicate AllFit<M>(msgs: seq<M>, weigh: M -> nat, base: nat, blockMax: nat)
    requires blockMax > 0
  {
    var plan := Plan(msgs, base + TotalWeight(msgs, weigh), blockMax);
    forall i :: 0 <= i < |plan| ==> base + TotalWeight(plan[i], weigh) <= blockMax
  }

  // ----- The heaviest messages -----

  ghost predicate HeavyToLight<M>(msgs: seq<M>, weigh: M -> nat) {
    forall i, j :: 0 <= i < j < |msgs| ==> weigh(msgs[i]) >= weigh(msgs[j])
  }

  lemma HeadFirst<M>(head: M, tail: seq<M>, weigh: M -> nat)
    requires HeavyToLight(tail, weigh)
    requires forall i :: 0 <= i < |tail| ==> weigh(head) >= weigh(tail[i])
    ensures HeavyToLight([head] + tail, weigh)
  {
  }

  lemma TailLighter<M(!new)>(msgs: seq<M>, m: M, rest: seq<M>, weigh: M -> nat)
    requires HeavyToLight(msgs, weigh) && msgs != [] && weigh(m) <= weigh(msgs[0])
    requires HeavyToLight(rest, weigh) && multiset(rest) == multiset(msgs[1..]) + multiset{m}
    ensures HeavyToLight([msgs[0]] + rest, weigh)
    ensures multiset([msgs[0]] + rest) == multiset(msgs) + multiset{m}
  {
    assert msgs == [msgs[0]] + msgs[1..];
    forall i | 0 <= i < |rest| ensures weigh(msgs[0]) >= weigh(rest[i]) {
      assert rest[i] in multiset(rest);
      assert rest[i] == m || rest[i] in msgs[1..];
    }
    HeadFirst(msgs[0], rest, weigh);
  }

  function InsertByWeight<M(!new)>(msgs: seq<M>, m: M, weigh: M -> nat): (r: seq<M>)
    requires HeavyToLight(msgs, weigh)
    ensures HeavyToLight(r, weigh) && multiset(r) == multiset(msgs) + multiset{m}
  {
    if msgs == [] || weigh(m) >= weigh(msgs[0]) then
      HeadFirst(m, msgs, weigh);
      [m] + msgs
    else
      var rest := InsertByWeight(msgs[1..], m, weigh);
      TailLighter(msgs, m, rest, weigh);
      [msgs[0]] + rest
  }

  /** The messages from the heaviest to the lightest. */
  function ByWeight<M(!new)>(msgs: seq<M>, weigh: M -> nat): (r: seq<M>)
    ensures HeavyToLight(r, weigh) && multiset(r) == multiset(msgs) && |r| == |msgs|
  {
    if msgs == [] then []
    else
      assert msgs == [msgs[0]] + msgs[1..];
      var r := InsertByWeight(ByWeight(msgs[1..], weigh), msgs[0], weigh);
      assert |multiset(r)| == |multiset(msgs)|;
      r
  }

  function Without<M>(msgs: seq<M>, i: nat): seq<M>
    requires i < |msgs|
  {
    msgs[..i] + msgs[i + 1..]
  }

  lemma {:induction false} WithoutWeight<M>(msgs: seq<M>, i: nat, weigh: M -> nat)
    requires i < |msgs|
    ensures TotalWeight(msgs, weigh) == weigh(msgs[i]) + TotalWeight(Without(msgs, i), weigh)
    ensures multiset(msgs) == multiset(Without(msgs, i)) + multiset{msgs[i]} && |Without(msgs, i)| == |msgs| - 1
    decreases i
  {
    assert msgs == [msgs[0]] + msgs[1..];
    if i > 0 {
      WithoutWeight(msgs[1..], i - 1, weigh);
      assert Without(msgs, i) == [msgs[0]] + Without(msgs[1..], i - 1);
      assert Without(msgs, i)[1..] == Without(msgs[1..], i - 1);
    } else {
      assert Without(msgs, 0) == msgs[1..];
    }
  }

  lemma PartWithoutTop<M(!new)>(part: multiset<M>, whole: multiset<M>, x: M, top: M)
    requires part + multiset{x} <= whole + multiset{top}
    requires x == top || top !in part + multiset{x}
    ensures part <= whole
  {
    forall m ensures part[m] <= whole[m] {
      assert (part + multiset{x})[m] <= (whole + multiset{top})[m];
    }
  }

  lemma FirstIsHeaviest<M>(sorted: seq<M>, weigh: M -> nat)
    requires HeavyToLight(sorted, weigh)
    ensures forall m :: m in multiset(sorted) ==> weigh(m) <= weigh(sorted[0])
    ensures sorted != [] ==> HeavyToLight(sorted[1..], weigh) && multiset(sorted) == multiset(sorted[1..]) + multiset{sorted[0]}
  {
    if sorted != [] { assert sorted == [sorted[0]] + sorted[1..]; }
  }

  lemma FirstOrMissing<M>(some: seq<M>, top: M) returns (i: nat)
    requires some != []
    ensures i < |some| && (some[i] == top || top !in some)
  {
    if top in some { i :| i < |some| && some[i] == top; } else { i := 0; }
  }

  /** Taking the heaviest message off both lists, or another one off the shorter where it does not have the heaviest. */
  lemma TakeHeaviest<M(!new)>(some: seq<M>, sorted: seq<M>, weigh: M -> nat) returns (less: seq<M>)
    requires HeavyToLight(sorted, weigh) && multiset(some) <= multiset(sorted) && some != [] && sorted != []
    ensures HeavyToLight(sorted[1..], weigh) && multiset(less) <= multiset(sorted[1..]) && |less| == |some| - 1
    ensures TotalWeight(some, weigh) <= weigh(sorted[0]) + TotalWeight(less, weigh)
  {
    hide HeavyToLight, Without, TotalWeight;
    FirstIsHeaviest(sorted, weigh);
    var i := FirstOrMissing(some, sorted[0]);
    less := Without(some, i);
    WithoutWeight(some, i, weigh);
    PartWithoutTop(multiset(less), multiset(sorted[1..]), some[i], sorted[0]);
    assert some[i] in multiset(some);
  }

  /** No `k` of the messages weigh more than the first `k` from the heaviest on. */
  lemma {:induction false} HeaviestWeighMost<M(!new)>(some: seq<M>, sorted: seq<M>, k: nat, weigh: M -> nat)
    requires HeavyToLight(sorted, weigh) && multiset(some) <= multiset(sorted) && |some| <= k <= |sorted|
    ensures TotalWeight(some, weigh) <= TotalWeight(sorted[..k], weigh)
    decreases |sorted|
  {
    hide HeavyToLight;
    if some != [] {
      var less := TakeHeaviest(some, sorted, weigh);
      HeaviestWeighMost(less, sorted[1..], k - 1, weigh);
      assert sorted[..k][1..] == sorted[1..][..k - 1];
    }
  }

  /** The weight of a batch does not depend on the order of its messages. */
  lemma SameWeight<M(!new)>(a: seq<M>, b: seq<M>, weigh: M -> nat)
    requires multiset(a) == multiset(b)
    ensures |a| == |b| && TotalWeight(a, weigh) == TotalWeight(b, weigh)
  {
    assert |a| == |multiset(a)| == |multiset(b)| == |b|;
    var s := ByWeight(a, weigh);
    SameAsSorted(a, s, weigh);
    SameAsSorted(b, s, weigh);
  }

  lemma {:induction false} SameAsSorted<M(!new)>(a: seq<M>, b: seq<M>, weigh: M -> nat)
    requires multiset(a) == multiset(b) && |a| == |b|
    ensures TotalWeight(a, weigh) == TotalWeight(b, weigh)
    decreases |a|
  {
    if a != [] {
      assert a[0] in multiset(a);
      assert a[0] in b;
      var i: nat :| i < |b| && b[i] == a[0];
      assert a == [a[0]] + a[1..];
      WithoutWeight(b, i, weigh);
      PartWithoutTop(multiset(a[1..]), multiset(Without(b, i)), a[0], a[0]);
      PartWithoutTop(multiset(Without(b, i)), multiset(a[1..]), a[0], a[0]);
      SameAsSorted(a[1..], Without(b, i), weigh);
    }
  }

  lemma {:induction false} ChunkIsPart<M>(msgs: seq<M>, size: nat, i: nat)
    requires size > 0 && i < |Chunks(msgs, size)|
    ensures multiset(Chunks(msgs, size)[i]) <= multiset(msgs)
    decreases |msgs|
  {
    if |msgs| > size {
      assert msgs == msgs[..size] + msgs[size..];
      if i > 0 { ChunkIsPart(msgs[size..], size, i - 1); }
    }
  }

  // ----- Exactly when every order of the messages makes batches that fit -----

  /** Everything goes into one batch, or the heaviest messages, as many as go into one batch, fit into a block
      together. */
  predicate HeaviestFit<M(!new)>(msgs: seq<M>, weigh: M -> nat, base: nat, blockMax: nat)
    requires blockMax > 0
  {
    var ratio := Ratio(base + TotalWeight(msgs, weigh), blockMax);
    || ratio == 0
    || |msgs| == 0
    || base + TotalWeight(ByWeight(msgs, weigh)[..Min(ChunkSize(|msgs|, ratio), |msgs|)], weigh) <= blockMax
  }

  lemma PartIsShorter<M>(part: seq<M>, whole: seq<M>)
    requires multiset(part) <= multiset(whole)
    ensures |part| <= |whole|
  {
    assert multiset(whole) == multiset(part) + (multiset(whole) - multiset(part));
    assert |multiset(part)| == |part| && |multiset(whole)| == |whole|;
  }

  lemma ChunkWeight<M(!new)>(msgs: seq<M>, size: nat, i: nat, weigh: M -> nat)
    requires size > 0 && i < |Chunks(msgs, size)|
    ensures TotalWeight(Chunks(msgs, size)[i], weigh) <= TotalWeight(ByWeight(msgs, weigh)[..Min(size, |msgs|)], weigh)
  {
    hide Chunks, ByWeight, TotalWeight;
    ChunkLengths(msgs, size, i);
    ChunkIsPart(msgs, size, i);
    PartIsShorter(Chunks(msgs, size)[i], msgs);
    HeaviestWeighMost(Chunks(msgs, size)[i], ByWeight(msgs, weigh), Min(size, |msgs|), weigh);
  }

  lemma HeaviestFitSuffices<M(!new)>(msgs: seq<M>, weigh: M -> nat, base: nat, blockMax: nat)
    requires blockMax > 0 && HeaviestFit(msgs, weigh, base, blockMax)
    ensures AllFit(msgs, weigh, base, blockMax)
  {
    hide ByWeight, TotalWeight, ChunkSize;
    var weight := base + TotalWeight(msgs, weigh);
    if Ratio(weight, blockMax) == 0 {
      assert weight == weight / blockMax * blockMax + weight % blockMax;
    } else if |msgs| > 0 {
      hide Chunks;
      var size := ChunkSize(|msgs|, Ratio(weight, blockMax));
      var plan := Chunks(msgs, size);
      forall i: nat | i < |plan| ensures base + TotalWeight(plan[i], weigh) <= blockMax {
        ChunkWeight(msgs, size, i, weigh);
      }
    }
  }

  lemma FirstChunk<M>(msgs: seq<M>, size: nat)
    requires size > 0 && |msgs| > 0
    ensures Chunks(msgs, size) != [] && Chunks(msgs, size)[0] == msgs[..Min(size, |msgs|)]
  {
  }

  lemma FirstOfPlan<M>(msgs: seq<M>, weight: nat, blockMax: nat, ratio: nat)
    requires blockMax > 0 && |msgs| > 0 && ratio == Ratio(weight, blockMax) && ratio != 0
    ensures var plan := Plan(msgs, weight, blockMax);
            |plan| > 0 && plan[0] == msgs[..Min(ChunkSize(|msgs|, ratio), |msgs|)]
  {
    hide ChunkSize, Chunks, Ratio;
    FirstChunk(msgs, ChunkSize(|msgs|, ratio));
  }

  lemma FirstBatch<M>(msgs: seq<M>, weigh: M -> nat, base: nat, blockMax: nat, ratio: nat)
    requires blockMax > 0 && |msgs| > 0 && AllFit(msgs, weigh, base, blockMax)
    requires ratio == Ratio(base + TotalWeight(msgs, weigh), blockMax) && ratio != 0
    ensures base + TotalWeight(msgs[..Min(ChunkSize(|msgs|, ratio), |msgs|)], weigh) <= blockMax
  {
    hide TotalWeight, ChunkSize, Plan, Ratio;
    FirstOfPlan(msgs, base + TotalWeight(msgs, weigh), blockMax, ratio);
  }

  lemma HeaviestFitNeeded<M(!new)>(msgs: seq<M>, weigh: M -> nat, base: nat, blockMax: nat)
    requires blockMax > 0 && !HeaviestFit(msgs, weigh, base, blockMax)
    ensures !AllFit(ByWeight(msgs, weigh), weigh, base, blockMax)
  {
    hide TotalWeight, ByWeight, ChunkSize, AllFit, Ratio;
    var sorted := ByWeight(msgs, weigh);
    SameWeight(sorted, msgs, weigh);
    if AllFit(sorted, weigh, base, blockMax) {
      FirstBatch(sorted, weigh, base, blockMax, Ratio(base + TotalWeight(sorted, weigh), blockMax));
    }
  }

  /** Whatever the order of the messages, every batch is within the block maximum, if and only if they make a single
      batch or the heaviest of them, as many as go into one batch, are within it. */
  lemma EveryOrderFitsIff<M(!new)>(msgs: seq<M>, weigh: M -> nat, base: nat, blockMax: nat)
    requires blockMax > 0
    ensures (forall order: seq<M> :: multiset(order) == multiset(msgs) ==> AllFit(order, weigh, base, blockMax))
            <==> HeaviestFit(msgs, weigh, base, blockMax)
  {
    hide AllFit, HeaviestFit, HeavyToLight;
    var sorted := ByWeight(msgs, weigh);
    if HeaviestFit(msgs, weigh, base, blockMax) {
      forall order: seq<M> | multiset(order) == multiset(msgs) ensures AllFit(order, weigh, base, blockMax) {
        SameHeaviest(order, msgs, weigh, base, blockMax);
        HeaviestFitSuffices(order, weigh, base, blockMax);
      }
    } else {
      HeaviestFitNeeded(msgs, weigh, base, blockMax);
      assert multiset(sorted) == multiset(msgs);
    }
  }

  lemma SameHeaviest<M(!new)>(a: seq<M>, b: seq<M>, weigh: M -> nat, base: nat, blockMax: nat)
    requires blockMax > 0 && multiset(a) == multiset(b) && HeaviestFit(b, weigh, base, blockMax)
    ensures HeaviestFit(a, weigh, base, blockMax)
  {
    hide TotalWeight, ByWeight, ChunkSize, HeavyToLight, Ratio;
    SameWeight(a, b, weigh);
    var ratio := Ratio(base + TotalWeight(a, weigh), blockMax);
    if ratio != 0 && |a| > 0 {
      var k := Min(ChunkSize(|a|, ratio), |a|);
      var s := ByWeight(a, weigh);
      assert s == s[..k] + s[k..];
      HeaviestWeighMost(s[..k], ByWeight(b, weigh), k, weigh);
    }
  }

  // ----- Simpler conditions -----

  lemma {:induction false} WeightBound<M>(msgs: seq<M>, weigh: M -> nat, heaviest: nat)
    requires forall i :: 0 <= i < |msgs| ==> weigh(msgs[i]) <= heaviest
    ensures TotalWeight(msgs, weigh) <= |msgs| * heaviest
  {
    if msgs != [] {
      WeightBound(msgs[1..], weigh, heaviest);
      Distribute(1, |msgs| - 1, heaviest);
    }
  }

  lemma TopBound<M(!new)>(msgs: seq<M>, weigh: M -> nat, k: nat, heaviest: nat)
    requires k <= |msgs| && forall m :: m in msgs ==> weigh(m) <= heaviest
    ensures TotalWeight(ByWeight(msgs, weigh)[..k], weigh) <= k * heaviest
  {
    hide HeavyToLight, TotalWeight, ByWeight;
    var s := ByWeight(msgs, weigh);
    forall i | 0 <= i < k ensures weigh(s[..k][i]) <= heaviest {
      assert s[i] in multiset(s);
      assert s[i] in msgs;
    }
    WeightBound(s[..k], weigh, heaviest);
  }

  /** It is enough that a full batch of messages as heavy as the heaviest one would fit. */
  lemma HeaviestBound<M(!new)>(msgs: seq<M>, weigh: M -> nat, base: nat, blockMax: nat, heaviest: nat)
    requires blockMax > 0 && forall m :: m in msgs ==> weigh(m) <= heaviest
    requires var ratio := Ratio(base + TotalWeight(msgs, weigh), blockMax);
             ratio == 0 || base + Min(ChunkSize(|msgs|, ratio), |msgs|) * heaviest <= blockMax
    ensures AllFit(msgs, weigh, base, blockMax)
  {
    hide HeavyToLight, TotalWeight, ByWeight, ChunkSize, AllFit, Ratio;
    var ratio := Ratio(base + TotalWeight(msgs, weigh), blockMax);
    TopBound(msgs, weigh, Min(ChunkSize(|msgs|, ratio), |msgs|), heaviest);
    HeaviestFitSuffices(msgs, weigh, base, blockMax);
  }

  lemma {:induction false} EvenWeight<M>(msgs: seq<M>, weigh: M -> nat, each: nat)
    requires forall i :: 0 <= i < |msgs| ==> weigh(msgs[i]) == each
    ensures TotalWeight(msgs, weigh) == |msgs| * each
  {
    if msgs != [] {
      EvenWeight(msgs[1..], weigh, each);
      Distribute(1, |msgs| - 1, each);
    }
  }

  /** For equally heavy messages that is exact. */
  lemma EvenFitsIff<M(!new)>(msgs: seq<M>, weigh: M -> nat, base: nat, each: nat, blockMax: nat)
    requires blockMax > 0 && msgs != [] && forall m :: m in msgs ==> weigh(m) == each
    ensures var ratio := Ratio(base + |msgs| * each, blockMax);
            AllFit(msgs, weigh, base, blockMax)
            <==> ratio == 0 || base + Min(ChunkSize(|msgs|, ratio), |msgs|) * each <= blockMax
  {
    hide TotalWeight, ChunkSize, AllFit, Ratio;
    EvenWeight(msgs, weigh, each);
    var ratio := Ratio(base + |msgs| * each, blockMax);
    var k := Min(ChunkSize(|msgs|, ratio), |msgs|);
    if ratio == 0 || base + k * each <= blockMax {
      HeaviestBound(msgs, weigh, base, blockMax, each);
    } else {
      EvenWeight(msgs[..k], weigh, each);
      if AllFit(msgs, weigh, base, blockMax) { FirstBatch(msgs, weigh, base, blockMax, ratio); }
    }
  }

  /** So where a batch weighs no more than its messages, equally heavy messages that fit a block one by one always make
      batches within the block maximum. */
  lemma BatchesFit<M(!new)>(msgs: seq<M>, weigh: M -> nat, each: nat, blockMax: nat)
    requires blockMax > 0 && each <= blockMax && forall m :: m in msgs ==> weigh(m) == each
    ensures AllFit(msgs, weigh, 0, blockMax)
  {
    hide ChunkSize, AllFit;
    EvenWeight(msgs, weigh, each);
    var ratio := Ratio(TotalWeight(msgs, weigh), blockMax);
    if ratio != 0 {
      ChunkFits(|msgs|, each, blockMax, TotalWeight(msgs, weigh));
      MulMonotone(Min(ChunkSize(|msgs|, ratio), |msgs|), ChunkSize(|msgs|, ratio), each);
    }
    HeaviestBound(msgs, weigh, 0, blockMax, each);
  }

  /** Messages of different weight need not: two heavy ones can end up in one batch. */
  lemma UnevenBatchTooHeavy()
    ensures var weights: seq<nat> := [9, 9, 0, 0];
            (forall w :: w in weights ==> w <= 10) && !AllFit(weights, (w: nat) => w, 0, 10)
  {
    var weights: seq<nat> := [9, 9, 0, 0];
    var weigh := (w: nat) => w;
    assert TotalWeight(weights[3..], weigh) == 0;
    assert TotalWeight(weights[2..], weigh) == 0;
    assert TotalWeight(weights[1..], weigh) == 9;
    assert TotalWeight(weights, weigh) == 18;
    var both: seq<nat> := [9, 9];
    assert TotalWeight(both[1..], weigh) == 9;
    assert weights[..2] == both;
    assert Plan(weights, 18, 10)[0] == both;
  }
}
