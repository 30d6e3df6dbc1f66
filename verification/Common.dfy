/** Small vocabulary shared by every model: results, and facts about finite sets of numbers. */
module Common {

  datatype Option<+T> = None | Some(value: T)

  datatype Result<+T, +E> = Ok(value: T) | Err(error: E)

  newtype Byte = x: int | 0 <= x < 256

  type Bytes = seq<Byte>

  function Min(a: int, b: int): int { if a <= b then a else b }

  function Max(a: int, b: int): int { if a <= b then b else a }

  ghost predicate IsGreatest(m: nat, s: set<nat>) { m in s && forall x :: x in s ==> x <= m }

  lemma {:induction false} GreatestExists(s: set<nat>)
    requires s != {}
    ensures exists m :: IsGreatest(m, s)
    decreases s
  {
    var x :| x in s;
    if s == {x} {
      assert IsGreatest(x, s);
    } else {
      GreatestExists(s - {x});
      var y :| IsGreatest(y, s - {x});
      assert forall z :: z in s ==> z == x || z in s - {x};
      assert IsGreatest(if x <= y then y else x, s);
    }
  }

  /** The greatest member of `s`, or `default` when there is none. */
  ghost function MaxOr(s: set<nat>, default: nat): (m: nat)
    ensures if s == {} then m == default else IsGreatest(m, s)
  {
    if s == {} then default
    else
      GreatestExists(s);
      var m :| IsGreatest(m, s);
      m
  }

  /** The cardinality of `s`, counted from the top; `SizeIsCardinality` says so. */
  ghost function Size(s: set<nat>): nat {
    if s == {} then 0 else 1 + Size(s - {MaxOr(s, 0)})
  }

  lemma {:induction false} SizeIsCardinality(s: set<nat>)
    ensures Size(s) == |s|
  {
    if s != {} { SizeIsCardinality(s - {MaxOr(s, 0)}); }
  }

  lemma SizeOnTop(s: set<nat>, x: nat)
    requires forall y :: y in s ==> y < x
    ensures MaxOr(s + {x}, 0) == x && Size(s + {x}) == Size(s) + 1
  {
    assert IsGreatest(x, s + {x});
    assert s + {x} - {x} == s;
  }

  predicate Inside(a: nat, s: nat, b: nat) { a < s < b }

  /** Members of the open interval between `a` and `b`. */
  ghost function Between(a: nat, b: nat): set<nat> {
    set s: nat | s < b && Inside(a, s, b)
  }

  lemma {:induction false} BetweenSize(a: nat, b: nat)
    ensures |Between(a, b)| == if a < b then b - a - 1 else 0
    decreases b
  {
    if a + 1 < b {
      assert Between(a, b) == Between(a, b - 1) + {b - 1};
      BetweenSize(a, b - 1);
    } else {
      assert Between(a, b) == {};
    }
  }

  predicate IsLeast(m: nat, s: set<nat>) { m in s && forall x :: x in s ==> m <= x }

  /** Ordered iteration over a set visits its least member first. */
  lemma {:induction false} LeastExists(s: set<nat>)
    requires s != {}
    ensures exists m :: m in s && IsLeast(m, s)
    decreases s
  {
    var x :| x in s;
    if s == {x} {
      assert IsLeast(x, s);
    } else {
      LeastExists(s - {x});
      var y :| y in s - {x} && IsLeast(y, s - {x});
      assert forall z :: z in s ==> z == x || z in s - {x};
      assert IsLeast(if x <= y then x else y, s);
    }
  }

  lemma MinusTwice<V>(m: map<nat, V>, a: set<nat>, b: set<nat>)
    ensures m - a - b == m - (a + b)
  {
  }

  lemma MinusNothing<V>(m: map<nat, V>)
    ensures m - {} == m
  {
  }

  lemma EmptyOrInhabited<T(!new)>(xs: seq<T>)
    ensures xs == [] || exists x :: x in xs
  {
    if xs != [] { assert xs[0] in xs; }
  }

  lemma SubsetSize<T>(a: set<T>, b: set<T>)
    requires a <= b
    ensures |a| <= |b| && (|a| == |b| <==> a == b)
  {
    assert b == a + (b - a);
    assert |b| == |a| + |b - a|;
  }

  ghost function Elements<T>(xs: seq<T>): set<T> { set x | x in xs }

  /** A height of a chain, with the number of the revision it belongs to. */
  datatype Height = Height(revision: nat, height: nat)

  // ----- Ordered sets, kept as their ascending iteration order -----

  ghost predicate StrictOrder<T(!new)>(less: (T, T) -> bool) {
    && (forall a :: !less(a, a))
    && (forall a, b, c :: less(a, b) && less(b, c) ==> less(a, c))
  }

  ghost predicate Ascending<T(!new)>(xs: seq<T>, less: (T, T) -> bool) {
    forall i, j :: 0 <= i < j < |xs| ==> less(xs[i], xs[j])
  }

  lemma AscendingTail<T(!new)>(xs: seq<T>, less: (T, T) -> bool)
    requires Ascending(xs, less) && xs != []
    ensures Ascending(xs[1..], less) && forall y :: y in xs[1..] ==> less(xs[0], y)
    ensures forall y :: y in xs <==> y == xs[0] || y in xs[1..]
  {
    assert xs == [xs[0]] + xs[1..];
    forall y | y in xs[1..] ensures less(xs[0], y) {
      var k :| 0 <= k < |xs[1..]| && xs[1..][k] == y;
      assert less(xs[0], xs[k + 1]);
    }
  }

  lemma AscendingFrom<T(!new)>(x: T, xs: seq<T>, less: (T, T) -> bool)
    requires Ascending(xs, less) && forall y :: y in xs ==> less(x, y)
    ensures Ascending([x] + xs, less)
    ensures forall y :: y in [x] + xs <==> y == x || y in xs
  {
    forall i, j | 0 <= i < j < |xs| + 1 ensures less(([x] + xs)[i], ([x] + xs)[j]) {
      assert ([x] + xs)[j] == xs[j - 1] && xs[j - 1] in xs;
    }
  }

  /** `x` at its place, unless it is there already. */
  function InsertSorted<T(!new)>(xs: seq<T>, x: T, less: (T, T) -> bool): (r: seq<T>)
    requires StrictOrder(less) && Ascending(xs, less)
    requires forall y :: y in xs ==> less(x, y) || x == y || less(y, x)
    ensures Ascending(r, less)
    ensures forall y :: y in r <==> y == x || y in xs
    ensures |r| == if x in xs then |xs| else |xs| + 1
  {
    if xs == [] then [x]
    else
      AscendingTail(xs, less);
      if less(x, xs[0]) then
        AscendingFrom(x, xs, less);
        [x] + xs
      else if !less(xs[0], x) then xs
      else
        var rest := InsertSorted(xs[1..], x, less);
        AscendingFrom(xs[0], rest, less);
        [xs[0]] + rest
  }
}
