/** When the items of a dispatch start and finish: a window of places, launches that wait for results,
    and workers that take the next queued item as soon as they are free. Dispatch itself takes no time. */
module Schedules {
  import opened BoundedAsync
  import opened Dispatch
  import opened Makespan

  /** For each item in launch order: when it is queued, when it starts, and on which worker. */
  datatype Schedule = Schedule(launch: seq<real>, start: seq<real>, who: seq<nat>)

  predicate Fits(p: seq<real>, s: Schedule) {
    |s.launch| == |s.start| == |s.who| == |p|
  }

  function Finish(p: seq<real>, s: Schedule, i: nat): real
    requires Fits(p, s) && i < |p|
  {
    s.start[i] + p[i]
  }

  /** When a worker has done what it has of the first `n` items. */
  function FreeAt(p: seq<real>, s: Schedule, n: nat, w: nat): real
    requires Fits(p, s) && n <= |p|
  {
    if n == 0 then 0.0 else if s.who[n - 1] == w then Finish(p, s, n - 1) else FreeAt(p, s, n - 1, w)
  }

  /** How many of the first `n` items are finished by `t`. */
  function FinishedBy(p: seq<real>, s: Schedule, n: nat, t: real): nat
    requires Fits(p, s) && n <= |p|
  {
    if n == 0 then 0 else FinishedBy(p, s, n - 1, t) + if Finish(p, s, n - 1) <= t then 1 else 0
  }

  function PreviousLaunch(s: Schedule, i: nat): real
    requires i <= |s.launch|
  {
    if i == 0 then 0.0 else s.launch[i - 1]
  }

  /** Before slot `i` the launch loop has collected as many results as make one place in the window
      (`Dispatch.RunsCollectInStep`); it launches as soon as it has. */
  ghost predicate LaunchedInTime(p: seq<real>, s: Schedule, window: nat, i: nat)
    requires Fits(p, s) && i < |p|
  {
    && PreviousLaunch(s, i) <= s.launch[i]
    && FinishedBy(p, s, i, s.launch[i]) >= CollectedBefore(window, i)
    && forall t: real :: PreviousLaunch(s, i) <= t < s.launch[i] ==> FinishedBy(p, s, i, t) < CollectedBefore(window, i)
  }

  /** A queued item starts as soon as some worker is free, on a free worker. Items are queued, and so
      taken, in launch order. */
  predicate StartedInTime(p: seq<real>, s: Schedule, m: nat, i: nat)
    requires Fits(p, s) && i < |p|
  {
    && s.who[i] < m && s.launch[i] <= s.start[i] && FreeAt(p, s, i, s.who[i]) <= s.start[i]
    && forall w: nat :: w < m ==> s.start[i] <= s.launch[i] || s.start[i] <= FreeAt(p, s, i, w)
  }

  ghost predicate IsSchedule(p: seq<real>, s: Schedule, m: nat, window: nat) {
    Fits(p, s) && forall i: nat :: i < |p| ==> LaunchedInTime(p, s, window, i) && StartedInTime(p, s, m, i)
  }

  // -- A window as wide as the pool -------------------------------------------------------------

  /** Item `i` starts when the first worker comes free. */
  predicate StartsWhenFree(p: seq<real>, s: Schedule, m: nat, i: nat)
    requires Fits(p, s) && i < |p|
  {
    s.start[i] == FreeAt(p, s, i, s.who[i]) && forall w: nat :: w < m ==> s.start[i] <= FreeAt(p, s, i, w)
  }

  lemma {:induction false} FreeAtGrows(p: seq<real>, s: Schedule, m: nat, window: nat, i: nat, n: nat, w: nat)
    requires IsSchedule(p, s, m, window) && NonNegative(p) && i <= n <= |p|
    ensures 0.0 <= FreeAt(p, s, i, w) <= FreeAt(p, s, n, w)
  {
    if i < n {
      FreeAtGrows(p, s, m, window, i, n - 1, w);
      assert StartedInTime(p, s, m, n - 1);
    } else if n > 0 {
      FreeAtGrows(p, s, m, window, i - 1, n - 1, w);
      assert StartedInTime(p, s, m, n - 1);
    }
  }

  /** How many of worker `w`'s first items finish after `t`. */
  function Late(p: seq<real>, s: Schedule, n: nat, w: nat, t: real): nat
    requires Fits(p, s) && n <= |p|
  {
    if n == 0 then 0 else Late(p, s, n - 1, w, t) + if s.who[n - 1] == w && Finish(p, s, n - 1) > t then 1 else 0
  }

  function LateSum(p: seq<real>, s: Schedule, n: nat, m: nat, t: real): nat
    requires Fits(p, s) && n <= |p|
  {
    if m == 0 then 0 else LateSum(p, s, n, m - 1, t) + Late(p, s, n, m - 1, t)
  }

  lemma {:induction false} LateSumStep(p: seq<real>, s: Schedule, n: nat, m: nat, t: real)
    requires Fits(p, s) && n < |p|
    ensures LateSum(p, s, n + 1, m, t) == LateSum(p, s, n, m, t) + if s.who[n] < m && Finish(p, s, n) > t then 1 else 0
  {
    if m > 0 { LateSumStep(p, s, n, m - 1, t); }
  }

  lemma {:induction false} LateSumEmpty(p: seq<real>, s: Schedule, m: nat, t: real)
    requires Fits(p, s)
    ensures LateSum(p, s, 0, m, t) == 0
  {
    if m > 0 { LateSumEmpty(p, s, m - 1, t); }
  }

  /** Every item is finished or late. */
  lemma {:induction false} FinishedOrLate(p: seq<real>, s: Schedule, n: nat, m: nat, t: real)
    requires Fits(p, s) && n <= |p| && Assigns(s.who, m)
    ensures FinishedBy(p, s, n, t) + LateSum(p, s, n, m, t) == n
  {
    if n == 0 {
      LateSumEmpty(p, s, m, t);
    } else {
      FinishedOrLate(p, s, n - 1, m, t);
      LateSumStep(p, s, n - 1, m, t);
    }
  }

  /** Once its items have all started, a worker has at most the last of them before it. */
  lemma {:induction false} LateAtMostOne(p: seq<real>, s: Schedule, m: nat, window: nat, n: nat, w: nat, t: real)
    requires IsSchedule(p, s, m, window) && n <= |p| && forall j: nat :: j < n ==> s.start[j] <= t
    ensures Late(p, s, n, w, t) <= if n > 0 && FreeAt(p, s, n, w) > t then 1 else 0
  {
    if n > 0 {
      LateAtMostOne(p, s, m, window, n - 1, w, t);
      assert StartedInTime(p, s, m, n - 1);
    }
  }

  lemma {:induction false} LateSumBound(p: seq<real>, s: Schedule, n: nat, m: nat, t: real, free: nat)
    requires Fits(p, s) && n <= |p| && forall w: nat :: w < m ==> Late(p, s, n, w, t) <= if w == free then 0 else 1
    ensures LateSum(p, s, n, m, t) <= if free < m then m - 1 else m
  {
    if m > 0 { LateSumBound(p, s, n, m - 1, t, free); }
  }

  /** At the time a worker comes free, at most the others' items are unfinished. */
  lemma PlaceWhenFree(p: seq<real>, s: Schedule, m: nat, window: nat, i: nat, free: nat)
    requires IsSchedule(p, s, m, window) && NonNegative(p) && m <= window && i <= |p| && free < m
    requires forall j: nat :: j < i ==> StartsWhenFree(p, s, m, j)
    ensures FinishedBy(p, s, i, FreeAt(p, s, i, free)) >= CollectedBefore(window, i)
  {
    var t := FreeAt(p, s, i, free);
    assert Assigns(s.who, m) by {
      forall j | 0 <= j < |s.who| ensures s.who[j] < m { assert StartedInTime(p, s, m, j); }
    }
    forall j: nat | j < i ensures s.start[j] <= t {
      assert StartsWhenFree(p, s, m, j);
      FreeAtGrows(p, s, m, window, j, i, free);
    }
    forall w: nat | w < m ensures Late(p, s, i, w, t) <= if w == free then 0 else 1 { LateAtMostOne(p, s, m, window, i, w, t); }
    LateSumBound(p, s, i, m, t, free);
    FinishedOrLate(p, s, i, m, t);
  }

  lemma LaunchBeforeFree(p: seq<real>, s: Schedule, m: nat, window: nat, i: nat, w: nat)
    requires IsSchedule(p, s, m, window) && NonNegative(p) && m <= window && i < |p| && w < m
    requires forall j: nat :: j < i ==> StartsWhenFree(p, s, m, j)
    ensures s.launch[i] <= FreeAt(p, s, i, w)
  {
    var t := FreeAt(p, s, i, w);
    PlaceWhenFree(p, s, m, window, i, w);
    FreeAtGrows(p, s, m, window, 0, i, w);
    if i > 0 {
      assert StartsWhenFree(p, s, m, i - 1) && StartedInTime(p, s, m, i - 1);
      FreeAtGrows(p, s, m, window, i - 1, i, w);
    }
    assert LaunchedInTime(p, s, window, i);
  }

  /** With a place in the window for every worker, no worker waits for a launch: each item starts when
      the first worker comes free. */
  lemma {:induction false} WindowFeedsWorkers(p: seq<real>, s: Schedule, m: nat, window: nat, i: nat)
    requires IsSchedule(p, s, m, window) && NonNegative(p) && m <= window && i <= |p|
    ensures forall j: nat :: j < i ==> StartsWhenFree(p, s, m, j)
  {
    if i > 0 {
      var n := i - 1;
      WindowFeedsWorkers(p, s, m, window, n);
      assert StartedInTime(p, s, m, n);
      forall w: nat | w < m ensures s.start[n] <= FreeAt(p, s, n, w) { LaunchBeforeFree(p, s, m, window, n, w); }
    }
  }

  lemma {:induction false} FreeIsLoad(p: seq<real>, s: Schedule, m: nat, n: nat, w: nat)
    requires Fits(p, s) && n <= |p| && forall j: nat :: j < |p| ==> StartsWhenFree(p, s, m, j)
    ensures FreeAt(p, s, n, w) == Load(p, s.who, n, w)
  {
    if n > 0 {
      FreeIsLoad(p, s, m, n - 1, w);
      assert StartsWhenFree(p, s, m, n - 1);
    }
  }

  /** So the pool does what list scheduling does: every item goes to a worker that is free no later
      than any other, and finishes when its worker has done its share. */
  lemma WindowGivesGreedy(p: seq<real>, s: Schedule, m: nat, window: nat)
    requires IsSchedule(p, s, m, window) && NonNegative(p) && m <= window
    ensures Assigns(s.who, m) && Greedy(p, s.who, m)
    ensures forall i: nat :: i < |p| ==> Finish(p, s, i) == Load(p, s.who, i + 1, s.who[i])
  {
    WindowFeedsWorkers(p, s, m, window, |p|);
    forall i: nat | i < |p| ensures s.who[i] < m { assert StartedInTime(p, s, m, i); }
    forall i: nat | i < |p|
      ensures GoesToFreest(p, s.who, m, i) && Finish(p, s, i) == Load(p, s.who, i + 1, s.who[i])
    {
      assert StartsWhenFree(p, s, m, i);
      forall w: nat ensures FreeAt(p, s, i, w) == Load(p, s.who, i, w) { FreeIsLoad(p, s, m, i, w); }
    }
  }

  // -- The bounds, and the window they need -----------------------------------------------------

  /** Every dispatch through this window finishes within `2 - 1/m` of any assignment. */
  ghost predicate AnyOrderHolds(m: nat, window: nat) {
    forall p: seq<real>, s: Schedule, best: seq<nat>, t: real, i: nat
      | NonNegative(p) && IsSchedule(p, s, m, window) && |best| == |p| && Assigns(best, m) && DoneBy(p, best, m, t) && i < |p|
      :: TwiceBound(Finish(p, s, i), t, m as real)
  }

  /** Every dispatch of the longest item first finishes within `4/3 - 1/(3m)` of any assignment. */
  ghost predicate LongestFirstHolds(m: nat, window: nat) {
    forall p: seq<real>, s: Schedule, best: seq<nat>, t: real, i: nat
      | NonNegative(p) && Descending(p) && IsSchedule(p, s, m, window) && |best| == |p| && Assigns(best, m)
        && DoneBy(p, best, m, t) && i < |p|
      :: ThirdBound(Finish(p, s, i), t, m as real)
  }

  lemma AnyOrderBounded(p: seq<real>, s: Schedule, best: seq<nat>, m: nat, window: nat, t: real, i: nat)
    requires NonNegative(p) && IsSchedule(p, s, m, window) && m <= window
    requires |best| == |p| && Assigns(best, m) && DoneBy(p, best, m, t) && i < |p|
    ensures TwiceBound(Finish(p, s, i), t, m as real)
    ensures Descending(p) ==> ThirdBound(Finish(p, s, i), t, m as real)
  {
    WindowGivesGreedy(p, s, m, window);
    var w := s.who[i];
    LoadGrows(p, s.who, i + 1, |p|, w);
    AnyOrderBound(p, s.who, best, m, t, w);
    BoundsShrink(Finish(p, s, i), Load(p, s.who, |p|, w), t, m as real);
    if Descending(p) { LongestFirstBound(p, s.who, best, m, t, w); }
  }

  lemma BoundsShrink(x: real, y: real, t: real, m: real)
    requires x <= y && m >= 1.0
    ensures TwiceBound(y, t, m) ==> TwiceBound(x, t, m)
    ensures ThirdBound(y, t, m) ==> ThirdBound(x, t, m)
  {
    Scaled(m, x, y);
    Scaled(3.0 * m, x, y);
  }

  /** One item more than the window has places, each of unit length, each to a worker of its own. */
  function Units(n: nat): seq<real> { seq(n, i => 1.0) }

  function Queued(window: nat): Schedule {
    var times := seq(window + 1, i => if i < window then 0.0 else 1.0);
    Schedule(times, times, seq(window + 1, (i: nat) => i))
  }

  lemma {:induction false} QueuedFinishedBy(window: nat, n: nat, t: real)
    requires n <= window
    ensures FinishedBy(Units(window + 1), Queued(window), n, t) == if t >= 1.0 then n else 0
  {
    if n > 0 { QueuedFinishedBy(window, n - 1, t); }
  }

  lemma {:induction false} QueuedFreeAt(window: nat, n: nat, w: nat)
    requires n <= w <= window
    ensures FreeAt(Units(window + 1), Queued(window), n, w) == 0.0
  {
    if n > 0 { QueuedFreeAt(window, n - 1, w); }
  }

  /** A narrow window leaves a worker without an item: the last one waits for a result. */
  lemma QueuedIsSchedule(window: nat, m: nat)
    requires 1 <= window < m
    ensures IsSchedule(Units(window + 1), Queued(window), m, window)
  {
    var p, s := Units(window + 1), Queued(window);
    forall i: nat | i < |p| ensures LaunchedInTime(p, s, window, i) && StartedInTime(p, s, m, i) {
      QueuedFreeAt(window, i, i);
      forall t: real ensures FinishedBy(p, s, i, t) == if t >= 1.0 then i else 0 { QueuedFinishedBy(window, i, t); }
    }
  }

  lemma {:induction false} UnitLoad(window: nat, n: nat, w: nat)
    requires n <= window + 1
    ensures Load(Units(window + 1), Queued(window).who, n, w) == if w < n then 1.0 else 0.0
  {
    if n > 0 { UnitLoad(window, n - 1, w); }
  }

  lemma NarrowWindowFails(m: nat, window: nat)
    requires 1 <= window < m
    ensures !AnyOrderHolds(m, window) && !LongestFirstHolds(m, window)
  {
    var p, s := Units(window + 1), Queued(window);
    QueuedIsSchedule(window, m);
    assert Assigns(s.who, m);
    forall w: nat | w < m ensures Load(p, s.who, |p|, w) <= 1.0 { UnitLoad(window, |p|, w); }
    assert DoneBy(p, s.who, m, 1.0);
    assert Finish(p, s, window) == 2.0;
    assert !TwiceBound(Finish(p, s, window), 1.0, m as real) && !ThirdBound(Finish(p, s, window), 1.0, m as real);
  }

  /** Both bounds hold of every dispatch exactly when the window has a place for every worker. */
  lemma BoundsNeedWindow(c: Config, m: nat)
    requires m >= 1
    ensures AnyOrderHolds(m, Window(c)) <==> m == 1 || c.maxInFlight >= m
    ensures LongestFirstHolds(m, Window(c)) <==> m == 1 || c.maxInFlight >= m
  {
    var window := Window(c);
    if window >= m { WideWindowHolds(m, window); } else { NarrowWindowFails(m, window); }
  }

  lemma WideWindowHolds(m: nat, window: nat)
    requires window >= m
    ensures AnyOrderHolds(m, window) && LongestFirstHolds(m, window)
  {
    forall p: seq<real>, s: Schedule, best: seq<nat>, t: real, i: nat
      | NonNegative(p) && IsSchedule(p, s, m, window) && |best| == |p| && Assigns(best, m) && DoneBy(p, best, m, t) && i < |p|
      ensures TwiceBound(Finish(p, s, i), t, m as real)
      ensures Descending(p) ==> ThirdBound(Finish(p, s, i), t, m as real)
    {
      AnyOrderBounded(p, s, best, m, window, t, i);
    }
  }

  /** A dispatch of items of durations `d` through a window of a place a worker or more, launched in
      `order` as `DispatchHistories.ItemsStartInOrder` has it: in the order given, or that of the indices.
      It finishes within `2 - 1/m` of every assignment of the items to workers, and within `4/3 - 1/(3m)`
      where the order given is that of estimates that rank the durations. */
  lemma CostOrderBound(c: Config, order: seq<nat>, d: seq<real>, costs: seq<real>, s: Schedule, best: seq<nat>, m: nat,
                       t: real, i: nat)
    requires ValidConfig(c) && c.n == |d| == |best| && NonNegative(d) && Assigns(best, m) && DoneBy(d, best, m, t)
    requires |order| == c.n && forall k: nat :: k < c.n ==> order[k] == if c.order != [] then c.order[k] else k
    requires IsPermutation(order, |d|)   // as it always is: `GivenPermutes`
    requires IsSchedule(Along(d, order), s, m, Window(c)) && Window(c) >= m && i < |d|
    ensures TwiceBound(Finish(Along(d, order), s, i), t, m as real)
    ensures c.order != [] && |costs| == |d| && LongestFirst(costs, c.order) && Ranks(costs, d) ==>
              ThirdBound(Finish(Along(d, order), s, i), t, m as real)
  {
    AlongFits(d, best, order, m, t);
    AnyOrderBounded(Along(d, order), s, Along(best, order), m, Window(c), t, i);
    if c.order != [] && |costs| == |d| && LongestFirst(costs, c.order) && Ranks(costs, d) {
      assert order == c.order;
      RankedDescends(d, costs, order);
    }
  }

  lemma GivenPermutes(c: Config, order: seq<nat>)
    requires ValidConfig(c)
    requires |order| == c.n && forall k: nat :: k < c.n ==> order[k] == if c.order != [] then c.order[k] else k
    ensures IsPermutation(order, c.n)
  {
    if c.order != [] { assert order == c.order; } else { assert forall i :: i in order ==> i < c.n; }
  }

  // -- A schedule for every dispatch ------------------------------------------------------------

  /** The first `n` items of a schedule. */
  function Prefix(s: Schedule, n: nat): Schedule
    requires n <= |s.launch| && n <= |s.start| && n <= |s.who|
  {
    Schedule(s.launch[..n], s.start[..n], s.who[..n])
  }

  lemma {:induction false} PrefixReads(p: seq<real>, s: Schedule, k: nat, n: nat, w: nat, t: real)
    requires Fits(p, s) && n <= k <= |p|
    ensures FreeAt(p[..k], Prefix(s, k), n, w) == FreeAt(p, s, n, w)
    ensures FinishedBy(p[..k], Prefix(s, k), n, t) == FinishedBy(p, s, n, t)
  {
    if n > 0 { PrefixReads(p, s, k, n - 1, w, t); }
  }

  /** The time by which `k` of the first `n` items are finished, and no sooner. */
  ghost predicate IsKthFinish(p: seq<real>, s: Schedule, n: nat, k: nat, t: real)
    requires Fits(p, s) && n <= |p|
  {
    forall u: real :: FinishedBy(p, s, n, u) >= k <==> t <= u
  }

  lemma {:induction false} FinishedBounds(p: seq<real>, s: Schedule, n: nat, t: real)
    requires Fits(p, s) && n <= |p|
    ensures FinishedBy(p, s, n, t) <= n
  {
    if n > 0 { FinishedBounds(p, s, n - 1, t); }
  }

  lemma {:induction false} KthFinish(p: seq<real>, s: Schedule, n: nat, k: nat) returns (t: real)
    requires Fits(p, s) && 1 <= k <= n <= |p|
    ensures IsKthFinish(p, s, n, k, t)
  {
    var last := Finish(p, s, n - 1);
    var i := n - 1;
    forall u: real ensures FinishedBy(p, s, i, u) <= i { FinishedBounds(p, s, i, u); }
    if k == 1 && n == 1 {
      t := last;
    } else if k == 1 {
      var rest := KthFinish(p, s, n - 1, 1);
      t := if rest <= last then rest else last;
      assert IsKthFinish(p, s, n - 1, 1, rest);
    } else {
      var before := KthFinish(p, s, n - 1, k - 1);
      var with := if before <= last then last else before;
      if k == n {
        t := with;
      } else {
        var rest := KthFinish(p, s, n - 1, k);
        t := if rest <= with then rest else with;
      }
    }
  }

  lemma {:induction false} Freest(p: seq<real>, s: Schedule, n: nat, m: nat) returns (w: nat)
    requires Fits(p, s) && n <= |p| && m >= 1
    ensures w < m && forall v: nat :: v < m ==> FreeAt(p, s, n, w) <= FreeAt(p, s, n, v)
  {
    w := 0;
    if m > 1 {
      w := Freest(p, s, n, m - 1);
      if FreeAt(p, s, n, m - 1) < FreeAt(p, s, n, w) { w := m - 1; }
    }
  }

  lemma PrefixInTime(p: seq<real>, s: Schedule, m: nat, window: nat, k: nat, i: nat)
    requires Fits(p, s) && i < k <= |p|
    requires LaunchedInTime(p[..k], Prefix(s, k), window, i) && StartedInTime(p[..k], Prefix(s, k), m, i)
    ensures LaunchedInTime(p, s, window, i) && StartedInTime(p, s, m, i)
  {
    forall t: real ensures FinishedBy(p[..k], Prefix(s, k), i, t) == FinishedBy(p, s, i, t) { PrefixReads(p, s, k, i, 0, t); }
    forall w: nat ensures FreeAt(p[..k], Prefix(s, k), i, w) == FreeAt(p, s, i, w) { PrefixReads(p, s, k, i, w, 0.0); }
  }

  /** When the next item is launched and started, given the schedule of those before it. */
  lemma NextItem(p: seq<real>, s: Schedule, m: nat, window: nat) returns (launch: real, start: real, w: nat)
    requires Fits(p, s) && m >= 1 && window >= 1
    ensures PreviousLaunch(s, |p|) <= launch && FinishedBy(p, s, |p|, launch) >= CollectedBefore(window, |p|)
    ensures forall t: real :: PreviousLaunch(s, |p|) <= t < launch ==> FinishedBy(p, s, |p|, t) < CollectedBefore(window, |p|)
    ensures w < m && launch <= start && FreeAt(p, s, |p|, w) <= start
    ensures forall v: nat :: v < m ==> start <= launch || start <= FreeAt(p, s, |p|, v)
  {
    var n, floor := |p|, PreviousLaunch(s, |p|);
    launch := floor;
    if n + 1 > window {
      var t := KthFinish(p, s, n, n + 1 - window);
      if t > floor { launch := t; }
      assert FinishedBy(p, s, n, launch) >= n + 1 - window <==> t <= launch;
    }
    w := Freest(p, s, n, m);
    var free := FreeAt(p, s, n, w);
    start := if launch <= free then free else launch;
  }

  /** Any items can be dispatched, on any number of workers through any window. */
  lemma {:induction false} ScheduleExists(p: seq<real>, m: nat, window: nat) returns (s: Schedule)
    requires m >= 1 && window >= 1
    ensures IsSchedule(p, s, m, window)
    decreases |p|
  {
    if p == [] {
      s := Schedule([], [], []);
    } else {
      var n := |p| - 1;
      var before := ScheduleExists(p[..n], m, window);
      var launch, start, w := NextItem(p[..n], before, m, window);
      s := Schedule(before.launch + [launch], before.start + [start], before.who + [w]);
      assert Prefix(s, n) == before;
      forall i: nat | i < n ensures LaunchedInTime(p, s, window, i) && StartedInTime(p, s, m, i) {
        PrefixInTime(p, s, m, window, n, i);
      }
      forall t: real ensures FinishedBy(p[..n], before, n, t) == FinishedBy(p, s, n, t) { PrefixReads(p, s, n, n, 0, t); }
      forall v: nat ensures FreeAt(p[..n], before, n, v) == FreeAt(p, s, n, v) { PrefixReads(p, s, n, n, v, 0.0); }
      assert LaunchedInTime(p, s, window, n) && StartedInTime(p, s, m, n);
    }
  }
}
