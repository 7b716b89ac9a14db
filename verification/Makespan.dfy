/** How long a dispatch takes: workers that each take the next item in launch order when they become
    free, against the best assignment of items to workers. */
module Makespan {
  import opened BoundedAsync

  // -- Loads ------------------------------------------------------------------------------------

  /** The time worker `w` spends on the first `n` items, item `j` taking `p[j]` on worker `a[j]`. */
  function Load(p: seq<real>, a: seq<nat>, n: nat, w: nat): real
    requires n <= |p| && n <= |a|
  {
    if n == 0 then 0.0 else Load(p, a, n - 1, w) + if a[n - 1] == w then p[n - 1] else 0.0
  }

  /** How many of the first `n` items worker `w` gets. */
  function Count(a: seq<nat>, n: nat, w: nat): nat
    requires n <= |a|
  {
    if n == 0 then 0 else Count(a, n - 1, w) + if a[n - 1] == w then 1 else 0
  }

  function Work(p: seq<real>, n: nat): real
    requires n <= |p|
  {
    if n == 0 then 0.0 else Work(p, n - 1) + p[n - 1]
  }

  predicate Assigns(a: seq<nat>, m: nat) {
    forall i :: 0 <= i < |a| ==> a[i] < m
  }

  predicate NonNegative(p: seq<real>) {
    forall i :: 0 <= i < |p| ==> p[i] >= 0.0
  }

  /** Every worker is done by `t`. */
  predicate DoneBy(p: seq<real>, a: seq<nat>, m: nat, t: real)
    requires |p| == |a|
  {
    forall w: nat :: w < m ==> Load(p, a, |p|, w) <= t
  }

  /** Each item goes to a worker that is free no later than any other. */
  predicate Greedy(p: seq<real>, a: seq<nat>, m: nat)
    requires |p| == |a|
  {
    forall i: nat :: i < |a| ==> GoesToFreest(p, a, m, i)
  }

  predicate GoesToFreest(p: seq<real>, a: seq<nat>, m: nat, i: nat)
    requires i < |a| && i < |p|
  {
    var start := Load(p, a, i, a[i]);
    forall w: nat :: w < m ==> start <= Load(p, a, i, w)
  }

  /** The longest item first. */
  predicate Descending(p: seq<real>) {
    forall i, j :: 0 <= i <= j < |p| ==> p[j] <= p[i]
  }

  // -- Sums over the workers --------------------------------------------------------------------

  ghost function LoadSum(p: seq<real>, a: seq<nat>, n: nat, m: nat): real
    requires n <= |p| && n <= |a|
  {
    if m == 0 then 0.0 else LoadSum(p, a, n, m - 1) + Load(p, a, n, m - 1)
  }

  ghost function CountSum(a: seq<nat>, n: nat, m: nat): nat
    requires n <= |a|
  {
    if m == 0 then 0 else CountSum(a, n, m - 1) + Count(a, n, m - 1)
  }

  lemma {:induction false} LoadSumStep(p: seq<real>, a: seq<nat>, n: nat, m: nat)
    requires n < |p| && n < |a|
    ensures LoadSum(p, a, n + 1, m) == LoadSum(p, a, n, m) + if a[n] < m then p[n] else 0.0
  {
    if m > 0 { LoadSumStep(p, a, n, m - 1); }
  }

  lemma {:induction false} LoadSumEmpty(p: seq<real>, a: seq<nat>, m: nat)
    ensures LoadSum(p, a, 0, m) == 0.0
  {
    if m > 0 { LoadSumEmpty(p, a, m - 1); }
  }

  /** The workers together do all the work. */
  lemma {:induction false} LoadsAddUp(p: seq<real>, a: seq<nat>, n: nat, m: nat)
    requires n <= |p| && n <= |a| && Assigns(a, m)
    ensures LoadSum(p, a, n, m) == Work(p, n)
  {
    if n == 0 {
      LoadSumEmpty(p, a, m);
    } else {
      LoadsAddUp(p, a, n - 1, m);
      LoadSumStep(p, a, n - 1, m);
    }
  }

  lemma {:induction false} CountSumStep(a: seq<nat>, n: nat, m: nat)
    requires n < |a|
    ensures CountSum(a, n + 1, m) == CountSum(a, n, m) + if a[n] < m then 1 else 0
  {
    if m > 0 { CountSumStep(a, n, m - 1); }
  }

  lemma {:induction false} CountSumEmpty(a: seq<nat>, m: nat)
    ensures CountSum(a, 0, m) == 0
  {
    if m > 0 { CountSumEmpty(a, m - 1); }
  }

  lemma {:induction false} CountsAddUp(a: seq<nat>, n: nat, m: nat)
    requires n <= |a| && Assigns(a, m)
    ensures CountSum(a, n, m) == n
  {
    if n == 0 {
      CountSumEmpty(a, m);
    } else {
      CountsAddUp(a, n - 1, m);
      CountSumStep(a, n - 1, m);
    }
  }

  /** `m` times `x`. */
  ghost function Times(x: real, m: nat): real {
    if m == 0 then 0.0 else Times(x, m - 1) + x
  }

  lemma {:induction false} TimesIs(x: real, m: nat)
    ensures Times(x, m) == x * (m as real)
  {
    if m > 0 {
      TimesIs(x, m - 1);
      var k := (m - 1) as real;
      assert m as real == k + 1.0;
      assert x * (k + 1.0) == x * k + x;
    }
  }

  lemma {:induction false} SumAtLeast(p: seq<real>, a: seq<nat>, n: nat, m: nat, s: real)
    requires n <= |p| && n <= |a| && forall w: nat :: w < m ==> s <= Load(p, a, n, w)
    ensures Times(s, m) <= LoadSum(p, a, n, m)
  {
    if m > 0 { SumAtLeast(p, a, n, m - 1, s); }
  }

  lemma {:induction false} SumAtMost(p: seq<real>, a: seq<nat>, n: nat, m: nat, t: real)
    requires n <= |p| && n <= |a| && forall w: nat :: w < m ==> Load(p, a, n, w) <= t
    ensures LoadSum(p, a, n, m) <= Times(t, m)
  {
    if m > 0 { SumAtMost(p, a, n, m - 1, t); }
  }

  /** Pairs of counts that sum to two or more everywhere sum to at least two a worker. */
  lemma {:induction false} PairsAtLeast(a: seq<nat>, k: nat, n: nat, m: nat)
    requires k <= |a| && n <= |a| && forall w: nat :: w < m ==> Count(a, n, w) + Count(a, k, w) >= 2
    ensures CountSum(a, n, m) + CountSum(a, k, m) >= 2 * m
  {
    if m > 0 { PairsAtLeast(a, k, n, m - 1); }
  }

  lemma {:induction false} PairsAtMost(a: seq<nat>, k: nat, n: nat, m: nat)
    requires k <= |a| && n <= |a| && forall w: nat :: w < m ==> Count(a, n, w) + Count(a, k, w) <= 2
    ensures CountSum(a, n, m) + CountSum(a, k, m) <= 2 * m
  {
    if m > 0 { PairsAtMost(a, k, n, m - 1); }
  }

  // -- One worker's load ------------------------------------------------------------------------

  lemma {:induction false} LoadGrows(p: seq<real>, a: seq<nat>, i: nat, n: nat, w: nat)
    requires NonNegative(p) && i <= n <= |p| && n <= |a|
    ensures 0.0 <= Load(p, a, i, w) <= Load(p, a, n, w)
  {
    if i < n { LoadGrows(p, a, i, n - 1, w); }
    else if n > 0 { LoadGrows(p, a, i - 1, n - 1, w); }
  }

  /** Items of at least `q` each. */
  lemma {:induction false} LoadAtLeast(p: seq<real>, a: seq<nat>, n: nat, w: nat, q: real)
    requires n <= |p| && n <= |a| && 0.0 <= q && forall j :: 0 <= j < n ==> q <= p[j]
    ensures 0.0 <= Load(p, a, n, w)
    ensures Count(a, n, w) >= 1 ==> q <= Load(p, a, n, w)
    ensures Count(a, n, w) >= 2 ==> 2.0 * q <= Load(p, a, n, w)
    ensures Count(a, n, w) >= 3 ==> 3.0 * q <= Load(p, a, n, w)
  {
    if n > 0 { LoadAtLeast(p, a, n - 1, w, q); }
  }

  /** Of two items or more, one of them among the first `k`. */
  lemma {:induction false} LoadOfPair(p: seq<real>, a: seq<nat>, k: nat, n: nat, w: nat, q: real, r: real)
    requires k <= n <= |p| && n <= |a| && 0.0 <= r <= q
    requires (forall j :: 0 <= j < k ==> q <= p[j]) && forall j :: 0 <= j < n ==> r <= p[j]
    requires Count(a, k, w) >= 1
    ensures Count(a, n, w) >= Count(a, k, w) && q <= Load(p, a, n, w)
    ensures Count(a, n, w) >= 2 ==> q + r <= Load(p, a, n, w)
  {
    if n == k { LoadAtLeast(p, a, k, w, q); }
    else { LoadOfPair(p, a, k, n - 1, w, q, r); }
  }

  /** At most one item, and that not among the first `k`. */
  lemma {:induction false} LoadOfLateItem(p: seq<real>, a: seq<nat>, k: nat, n: nat, w: nat, q: real)
    requires k <= n <= |p| && n <= |a| && 0.0 <= q
    requires forall j :: k <= j < n ==> p[j] <= q
    requires Count(a, k, w) == 0 && Count(a, n, w) <= 1
    ensures Load(p, a, n, w) <= if Count(a, n, w) == 0 then 0.0 else q
  {
    if n == k { NoItems(p, a, n, w); }
    else { LoadOfLateItem(p, a, k, n - 1, w, q); }
  }

  lemma {:induction false} NoItems(p: seq<real>, a: seq<nat>, n: nat, w: nat)
    requires n <= |p| && n <= |a| && Count(a, n, w) == 0
    ensures Load(p, a, n, w) == 0.0
  {
    if n > 0 { NoItems(p, a, n - 1, w); }
  }

  // -- The last item of the busiest worker ------------------------------------------------------

  /** The last item a worker runs, which it starts when it has done the rest. */
  lemma {:induction false} LastItem(p: seq<real>, a: seq<nat>, n: nat, w: nat) returns (last: nat)
    requires n <= |p| && n <= |a| && Load(p, a, n, w) > 0.0
    ensures last < n && a[last] == w && Load(p, a, n, w) == Load(p, a, last, w) + p[last]
  {
    if a[n - 1] == w { last := n - 1; } else { last := LastItem(p, a, n - 1, w); }
  }

  lemma {:induction false} WorkGrows(p: seq<real>, i: nat, n: nat)
    requires NonNegative(p) && i <= n <= |p|
    ensures Work(p, i) <= Work(p, n)
  {
    if i < n { WorkGrows(p, i, n - 1); }
  }

  /** An item starts no later than the average load before it, so that with the item itself the
      workers' time holds `m` times its start. */
  lemma StartBound(p: seq<real>, a: seq<nat>, b: seq<nat>, m: nat, t: real, last: nat)
    requires |p| == |a| == |b| && NonNegative(p) && Assigns(a, m) && Assigns(b, m) && Greedy(p, a, m)
    requires DoneBy(p, b, m, t) && last < |p|
    ensures Times(Load(p, a, last, a[last]), m) + p[last] <= Times(t, m)
  {
    assert GoesToFreest(p, a, m, last);
    SumAtLeast(p, a, last, m, Load(p, a, last, a[last]));
    LoadsAddUp(p, a, last, m);
    WorkBound(p, b, m, t);
    WorkGrows(p, last + 1, |p|);
  }

  lemma WorkBound(p: seq<real>, b: seq<nat>, m: nat, t: real)
    requires |p| == |b| && Assigns(b, m) && DoneBy(p, b, m, t)
    ensures Work(p, |p|) <= Times(t, m)
  {
    SumAtMost(p, b, |p|, m, t);
    LoadsAddUp(p, b, |p|, m);
  }

  lemma ItemFits(p: seq<real>, b: seq<nat>, m: nat, t: real, i: nat)
    requires |p| == |b| && NonNegative(p) && Assigns(b, m) && DoneBy(p, b, m, t) && i < |p|
    ensures p[i] <= t
  {
    LoadGrows(p, b, i, i, b[i]);
    LoadGrows(p, b, i + 1, |p|, b[i]);
  }

  /** From the start bound: the finishing time, given how the last item compares with `t`. */
  lemma FinishBound(start: real, item: real, t: real, m: nat)
    requires m > 0 && 0.0 <= item && Times(start, m) + item <= Times(t, m)
    ensures item <= t ==> TwiceBound(start + item, t, m as real)
    ensures 3.0 * item <= t ==> ThirdBound(start + item, t, m as real)
  {
    TimesIs(start, m);
    TimesIs(t, m);
    FinishArithmetic(start, item, t, m as real);
  }

  /** `x` is at most `2 - 1/m` times `t`. */
  ghost predicate TwiceBound(x: real, t: real, m: real) {
    x * m <= (2.0 * m - 1.0) * t
  }

  /** `x` is at most `4/3 - 1/(3m)` times `t`. */
  ghost predicate ThirdBound(x: real, t: real, m: real) {
    3.0 * m * x <= (4.0 * m - 1.0) * t
  }

  lemma FinishArithmetic(start: real, item: real, t: real, m: real)
    requires m >= 1.0 && 0.0 <= item && start * m + item <= t * m
    ensures item <= t ==> TwiceBound(start + item, t, m)
    ensures 3.0 * item <= t ==> ThirdBound(start + item, t, m)
  {
    assert (start + item) * m == start * m + item * m;
    assert item * m - item == (m - 1.0) * item;
    if item <= t { Scaled(m - 1.0, item, t); }
    if 3.0 * item <= t { Scaled(m - 1.0, 3.0 * item, t); }
  }

  lemma Scaled(c: real, x: real, y: real)
    requires c >= 0.0 && x <= y
    ensures c * x <= c * y
  {}

  /** Whatever the launch order, a dispatch on `m` workers takes at most `2 - 1/m` times the time of
      any assignment of the same items. */
  lemma AnyOrderBound(p: seq<real>, a: seq<nat>, b: seq<nat>, m: nat, t: real, w: nat)
    requires |p| == |a| == |b| && NonNegative(p) && Assigns(a, m) && Assigns(b, m) && Greedy(p, a, m)
    requires DoneBy(p, b, m, t) && w < m
    ensures TwiceBound(Load(p, a, |p|, w), t, m as real)
  {
    LoadGrows(p, b, 0, |p|, w);
    LoadGrows(p, a, 0, |p|, w);
    if Load(p, a, |p|, w) > 0.0 {
      var last := LastItem(p, a, |p|, w);
      StartBound(p, a, b, m, t, last);
      ItemFits(p, b, m, t, last);
      FinishBound(Load(p, a, last, w), p[last], t, m);
    } else {
      NothingToDo(t, m as real);
    }
  }

  lemma NothingToDo(t: real, m: real)
    requires 0.0 <= t && m >= 1.0
    ensures TwiceBound(0.0, t, m)
  {
    Scaled(2.0 * m - 1.0, 0.0, t);
  }

  // -- Longest first ----------------------------------------------------------------------------

  /** With items longer than a third of `t`, no worker of `b` has three of them. */
  lemma AtMostTwo(p: seq<real>, b: seq<nat>, m: nat, t: real, last: nat, w: nat)
    requires |p| == |b| && NonNegative(p) && Descending(p) && DoneBy(p, b, m, t)
    requires last < |p| && 3.0 * p[last] > t && w < m
    ensures Count(b, last + 1, w) <= 2
  {
    LoadAtLeast(p, b, last + 1, w, p[last]);
    LoadGrows(p, b, last + 1, |p|, w);
  }

  /** The item that, among the last `2m` places, pairs with `last` fits beside it. */
  lemma PairFits(p: seq<real>, b: seq<nat>, m: nat, t: real, k: nat, last: nat)
    requires |p| == |b| && NonNegative(p) && Descending(p) && Assigns(b, m) && DoneBy(p, b, m, t)
    requires last < |p| && 3.0 * p[last] > t && k <= last && k + last == 2 * m - 1
    ensures p[k] + p[last] <= t
  {
    if p[k] + p[last] > t {
      var i, n := k + 1, last + 1;
      forall w: nat | w < m ensures Count(b, n, w) + Count(b, i, w) <= 2 {
        AtMostTwo(p, b, m, t, last, w);
        if Count(b, i, w) >= 1 {
          LoadOfPair(p, b, i, n, w, p[k], p[last]);
          LoadGrows(p, b, n, |p|, w);
        }
      }
      PairsAtMost(b, i, n, m);
      CountsAddUp(b, n, m);
      CountsAddUp(b, i, m);
    }
  }

  /** Before `last` starts, some worker has done no more than the one item that pairs with it. */
  lemma SomeWorkerIsEarly(p: seq<real>, a: seq<nat>, m: nat, k: nat, last: nat) returns (w: nat)
    requires |p| == |a| && NonNegative(p) && Descending(p) && Assigns(a, m)
    requires last < |p| && k <= last && k + last == 2 * m - 1
    ensures w < m && Load(p, a, last, w) <= p[k]
  {
    if forall v: nat :: v < m ==> Count(a, last, v) + Count(a, k, v) >= 2 {
      PairsAtLeast(a, k, last, m);
      CountsAddUp(a, last, m);
      CountsAddUp(a, k, m);
      assert false;
    }
    w :| w < m && Count(a, last, w) + Count(a, k, w) < 2;
    CountGrows(a, k, last, w);
    LoadOfLateItem(p, a, k, last, w, p[k]);
  }

  lemma {:induction false} CountGrows(a: seq<nat>, k: nat, n: nat, w: nat)
    requires k <= n <= |a|
    ensures Count(a, k, w) <= Count(a, n, w)
  {
    if k < n { CountGrows(a, k, n - 1, w); }
  }

  /** With fewer items before it than workers, an item starts at once. */
  lemma SomeWorkerIsFree(p: seq<real>, a: seq<nat>, m: nat, last: nat) returns (w: nat)
    requires |p| == |a| && Assigns(a, m) && last < |p| && last < m
    ensures w < m && Load(p, a, last, w) == 0.0
  {
    if forall v: nat :: v < m ==> Count(a, last, v) >= 1 {
      CountsAtLeast(a, last, m);
      CountsAddUp(a, last, m);
      assert false;
    }
    w :| w < m && Count(a, last, w) == 0;
    NoItems(p, a, last, w);
  }

  lemma {:induction false} CountsAtLeast(a: seq<nat>, n: nat, m: nat)
    requires n <= |a| && forall w: nat :: w < m ==> Count(a, n, w) >= 1
    ensures CountSum(a, n, m) >= m
  {
    if m > 0 { CountsAtLeast(a, n, m - 1); }
  }

  lemma {:induction false} CountsAtMost(a: seq<nat>, n: nat, m: nat)
    requires n <= |a| && forall w: nat :: w < m ==> Count(a, n, w) <= 2
    ensures CountSum(a, n, m) <= 2 * m
  {
    if m > 0 { CountsAtMost(a, n, m - 1); }
  }

  /** A last item longer than a third of `t` is done by `t`. */
  lemma LongLastItem(p: seq<real>, a: seq<nat>, b: seq<nat>, m: nat, t: real, last: nat)
    requires |p| == |a| == |b| && NonNegative(p) && Descending(p) && Assigns(a, m) && Assigns(b, m)
    requires Greedy(p, a, m) && DoneBy(p, b, m, t) && last < |p| && 3.0 * p[last] > t
    ensures Load(p, a, last, a[last]) + p[last] <= t
  {
    if last < m {
      var w := SomeWorkerIsFree(p, a, m, last);
      assert GoesToFreest(p, a, m, last);
      ItemFits(p, b, m, t, last);
    } else {
      var n := last + 1;
      forall w: nat | w < m ensures Count(b, n, w) <= 2 { AtMostTwo(p, b, m, t, last, w); }
      CountsAtMost(b, n, m);
      CountsAddUp(b, n, m);
      var k := 2 * m - 1 - last;
      PairFits(p, b, m, t, k, last);
      var w := SomeWorkerIsEarly(p, a, m, k, last);
      assert GoesToFreest(p, a, m, last);
    }
  }

  /** Longest first, a dispatch on `m` workers takes at most `4/3 - 1/(3m)` times the time of any
      assignment of the same items. */
  lemma LongestFirstBound(p: seq<real>, a: seq<nat>, b: seq<nat>, m: nat, t: real, w: nat)
    requires |p| == |a| == |b| && NonNegative(p) && Descending(p) && Assigns(a, m) && Assigns(b, m)
    requires Greedy(p, a, m) && DoneBy(p, b, m, t) && w < m
    ensures ThirdBound(Load(p, a, |p|, w), t, m as real)
  {
    LoadGrows(p, b, 0, |p|, w);
    LoadGrows(p, a, 0, |p|, w);
    if Load(p, a, |p|, w) > 0.0 {
      var last := LastItem(p, a, |p|, w);
      LastItemBound(p, a, b, m, t, last);
    } else {
      WithinThird(0.0, t, m as real);
    }
  }

  lemma LastItemBound(p: seq<real>, a: seq<nat>, b: seq<nat>, m: nat, t: real, last: nat)
    requires |p| == |a| == |b| && NonNegative(p) && Descending(p) && Assigns(a, m) && Assigns(b, m)
    requires Greedy(p, a, m) && DoneBy(p, b, m, t) && last < |p| && 0.0 <= t
    ensures ThirdBound(Load(p, a, last, a[last]) + p[last], t, m as real)
  {
    var start := Load(p, a, last, a[last]);
    LoadGrows(p, a, 0, last, a[last]);
    assert m > 0;
    if 3.0 * p[last] <= t {
      StartBound(p, a, b, m, t, last);
      FinishBound(start, p[last], t, m);
    } else {
      LongLastItem(p, a, b, m, t, last);
      WithinThird(start + p[last], t, m as real);
    }
  }

  lemma WithinThird(x: real, t: real, m: real)
    requires 0.0 <= x <= t && m >= 1.0
    ensures ThirdBound(x, t, m)
  {
    Scaled(3.0 * m, x, t);
    Scaled(t, 3.0 * m, 4.0 * m - 1.0);
  }

  // -- Items and launch orders ------------------------------------------------------------------

  /** The values of `f` along a list of items. */
  ghost function SumAlong(items: seq<nat>, f: nat -> real): real {
    if items == [] then 0.0 else SumAlong(items[..|items| - 1], f) + f(items[|items| - 1])
  }

  lemma {:induction false} SumWithout(items: seq<nat>, i: nat, f: nat -> real)
    requires i < |items|
    ensures SumAlong(items, f) == SumAlong(items[..i] + items[i + 1..], f) + f(items[i])
  {
    var n := |items| - 1;
    if i == n {
      assert items[..i] + items[i + 1..] == items[..n];
    } else {
      var shorter := items[..n];
      SumWithout(shorter, i, f);
      var rest := items[..i] + items[i + 1..];
      assert rest[..|rest| - 1] == shorter[..i] + shorter[i + 1..];
    }
  }

  /** A sum over the items does not depend on the order they are taken in. */
  lemma LargestAt(order: seq<nat>, n: nat) returns (i: nat)
    requires n > 0 && IsPermutation(order, n)
    ensures |order| == n && i < n && order[i] == n - 1
  {
    PermutationCovers(order, n);
    assert n - 1 in order;
    i :| i < n && order[i] == n - 1;
  }

  lemma {:induction false} SumPermutes(order: seq<nat>, n: nat, f: nat -> real)
    requires IsPermutation(order, n)
    ensures SumAlong(order, f) == SumAlong(Indices(n), f)
  {
    if n > 0 {
      var i := LargestAt(order, n);
      SumWithout(order, i, f);
      WithoutLargest(order, n, i);
      SumPermutes(order[..i] + order[i + 1..], n - 1, f);
      assert Indices(n)[..n - 1] == Indices(n - 1);
    }
  }

  lemma WithoutLargest(order: seq<nat>, n: nat, i: nat)
    requires n > 0 && IsPermutation(order, n) && i < n && order[i] == n - 1
    ensures IsPermutation(order[..i] + order[i + 1..], n - 1)
  {
    var rest := order[..i] + order[i + 1..];
    forall j | 0 <= j < |rest| ensures rest[j] == order[if j < i then j else j + 1] {}
    forall x | x in rest ensures x < n - 1 {
      var j :| 0 <= j < |rest| && rest[j] == x;
      assert order[if j < i then j else j + 1] in order;
    }
  }

  /** Durations and workers of items, in launch order. */
  function Along<T>(values: seq<T>, order: seq<nat>): seq<T>
    requires forall i :: i in order ==> i < |values|
  {
    seq(|order|, i requires 0 <= i < |order| => assert order[i] in order; values[order[i]])
  }

  ghost function Share(d: seq<real>, who: seq<nat>, w: nat): nat -> real
    requires |d| == |who|
  {
    (x: nat) => if x < |d| && who[x] == w then d[x] else 0.0
  }

  lemma {:induction false} LoadAlong(d: seq<real>, who: seq<nat>, order: seq<nat>, n: nat, w: nat)
    requires |d| == |who| && (forall i :: i in order ==> i < |d|) && n <= |order|
    ensures Load(Along(d, order), Along(who, order), n, w) == SumAlong(order[..n], Share(d, who, w))
  {
    if n > 0 {
      LoadAlong(d, who, order, n - 1, w);
      assert order[n - 1] in order && order[..n][..n - 1] == order[..n - 1];
    }
  }

  /** A worker's load is the same whichever order its items are listed in. */
  lemma LoadPermutes(d: seq<real>, who: seq<nat>, order: seq<nat>, w: nat)
    requires |d| == |who| && IsPermutation(order, |d|)
    ensures Load(Along(d, order), Along(who, order), |d|, w) == Load(d, who, |d|, w)
  {
    var id := Indices(|d|);
    IndicesPermute(|d|);
    LoadAlong(d, who, order, |d|, w);
    LoadAlong(d, who, id, |d|, w);
    SumPermutes(order, |d|, Share(d, who, w));
    assert order[..|d|] == order && id[..|d|] == id;
    assert Along(d, id) == d && Along(who, id) == who;
  }

  lemma AlongFits(d: seq<real>, best: seq<nat>, order: seq<nat>, m: nat, t: real)
    requires |d| == |best| && NonNegative(d) && Assigns(best, m)
    requires IsPermutation(order, |d|) && DoneBy(d, best, m, t)
    ensures NonNegative(Along(d, order)) && Assigns(Along(best, order), m)
    ensures DoneBy(Along(d, order), Along(best, order), m, t)
  {
    assert forall i :: 0 <= i < |order| ==> order[i] in order;
    forall v: nat | v < m ensures Load(Along(d, order), Along(best, order), |d|, v) <= t { LoadPermutes(d, best, order, v); }
  }

  /** An estimate at least as high means a duration at least as long. */
  predicate Ranks(costs: seq<real>, d: seq<real>) {
    |costs| == |d| && forall i, j :: 0 <= i < |d| && 0 <= j < |d| && costs[i] >= costs[j] ==> d[i] >= d[j]
  }

  lemma RankedDescends(d: seq<real>, costs: seq<real>, order: seq<nat>)
    requires IsPermutation(order, |d|) && LongestFirst(costs, order) && Ranks(costs, d)
    ensures Descending(Along(d, order))
  {
    var p := Along(d, order);
    forall i, j | 0 <= i <= j < |p| ensures p[j] <= p[i] {
      assert order[i] in order && order[j] in order;
      assert i < j ==> GoesBefore(costs, order[i], order[j]);
    }
  }
}
