/** The results of a dispatch on their way back, and the permutations it may launch by. */
module BoundedAsync {
  import opened Sequences
  import opened Wrappers

  datatype Entry<+T> = Entry(index: nat, value: Option<T>)
  {
    /** A task that threw carries no value. */
    predicate Failed() { value.None? }
  }

  /** Results waiting to be collected, and a count of those still to come. Every method is one critical
      section of the original's mutex. */
  class CompletionQueue<T> {
    var done: seq<Entry<T>>
    var outstanding: nat

    constructor ()
      ensures done == [] && outstanding == 0
    {
      done, outstanding := [], 0;
    }

    function InFlight(): (n: nat)
      reads this
    {
      outstanding + |done|
    }

    method Raise()
      modifies this`outstanding
      ensures outstanding == old(outstanding) + 1
    {
      outstanding := outstanding + 1;
    }

    /** A submission that threw. */
    method Lower()
      requires outstanding > 0
      modifies this`outstanding
      ensures outstanding == old(outstanding) - 1
    {
      outstanding := outstanding - 1;
    }

    /** Reporting a result leaves the number in flight as it was. */
    method Push(entry: Entry<T>)
      requires outstanding > 0
      modifies this
      ensures done == old(done) + [entry] && outstanding == old(outstanding) - 1
      ensures InFlight() == old(InFlight())
    {
      done := done + [entry];
      outstanding := outstanding - 1;
    }

    /** The dispatcher takes the result that has waited longest. */
    method Pop() returns (entry: Entry<T>)
      requires done != []
      modifies this`done
      ensures old(done) == [entry] + done
      ensures InFlight() == old(InFlight()) - 1
    {
      entry := done[0];
      done := done[1..];
    }
  }

  // -- Launch orders ----------------------------------------------------------------------------

  predicate IsPermutation(order: seq<nat>, n: nat) {
    |order| == n && Distinct(order) && forall i :: i in order ==> i < n
  }

  function Indices(n: nat): seq<nat> {
    seq(n, (i: nat) => i)
  }

  /** What the launch loop walks: the given order, or the items as they come. */
  function Launches(order: seq<nat>, n: nat): seq<nat> {
    if order == [] then Indices(n) else order
  }

  function Range(n: nat): (r: set<nat>)
    ensures |r| == n && forall i: nat :: i in r <==> i < n
  {
    if n == 0 then {} else Range(n - 1) + {n - 1}
  }

  function Members(s: seq<nat>): set<nat> {
    set x | x in s
  }

  lemma {:induction false} DistinctSize(s: seq<nat>)
    requires Distinct(s)
    ensures |Members(s)| == |s|
  {
    if s != [] {
      var n := |s| - 1;
      DistinctSize(s[..n]);
      assert s == s[..n] + [s[n]];
      assert s[n] !in s[..n];
      assert Members(s) == Members(s[..n]) + {s[n]};
    }
  }

  /** Nothing is launched twice and nothing is left out. */
  lemma PermutationCovers(order: seq<nat>, n: nat)
    requires IsPermutation(order, n)
    ensures forall i: nat :: i in order <==> i < n
    ensures multiset(order) == multiset(Range(n))
  {
    DistinctSize(order);
    assert Members(order) == Range(n) by { SubsetOfSameSize(Members(order), Range(n)); }
    forall i: nat ensures i in order <==> i < n {
      assert i in Members(order) <==> i in Range(n);
    }
    forall x: nat ensures multiset(order)[x] == multiset(Range(n))[x] {
      OccursOnce(order, x);
    }
  }

  lemma SubsetOfSameSize(a: set<nat>, b: set<nat>)
    requires a <= b && |a| == |b|
    ensures a == b
  {
    assert b == a + (b - a);
  }

  lemma {:induction false} OccursOnce(s: seq<nat>, x: nat)
    requires Distinct(s)
    ensures multiset(s)[x] == if x in s then 1 else 0
  {
    if s != [] {
      var n := |s| - 1;
      OccursOnce(s[..n], x);
      assert s == s[..n] + [s[n]];
      assert s[n] !in s[..n];
    }
  }

  lemma IndicesPermute(n: nat)
    ensures IsPermutation(Indices(n), n)
  {}

  /** The checks made on a launch order accept it exactly when it is empty or a permutation. */
  method AssertPermutation(order: seq<nat>, n: nat) returns (ok: bool)
    ensures ok <==> order == [] || IsPermutation(order, n)
  {
    if order == [] {
      return true;
    }
    if |order| != n {
      return false;
    }
    var seen := new bool[n](_ => false);
    for k := 0 to n
      invariant Distinct(order[..k]) && forall i :: i in order[..k] ==> i < n
      invariant forall i :: 0 <= i < n ==> (seen[i] <==> i in order[..k])
    {
      var i := order[k];
      assert order[..k + 1] == order[..k] + [i];
      if i >= n || seen[i] {
        if i < n {
          var j :| 0 <= j < k && order[..k][j] == i;
          assert order[j] == order[k];
        }
        assert i in order;
        return false;
      }
      seen[i] := true;
    }
    assert order[..n] == order;
    ok := true;
  }

  // -- Longest first ----------------------------------------------------------------------------

  /** The dearer of two items goes first, and of equals the lower-numbered. */
  predicate GoesBefore(costs: seq<real>, i: nat, j: nat)
    requires i < |costs| && j < |costs|
  {
    costs[i] > costs[j] || (costs[i] == costs[j] && i < j)
  }

  predicate LongestFirst(costs: seq<real>, order: seq<nat>) {
    forall a, b :: 0 <= a < b < |order| && order[a] < |costs| && order[b] < |costs| ==> GoesBefore(costs, order[a], order[b])
  }

  method CostOrderedIndices(n: nat, estimateCost: nat -> real) returns (order: seq<nat>)
    ensures IsPermutation(order, n)
    ensures LongestFirst(seq(n, (i: nat) => estimateCost(i)), order)
    ensures forall a, b :: 0 <= a < b < |order| ==>
              var x, y := order[a], order[b];
              estimateCost(x) > estimateCost(y) || (estimateCost(x) == estimateCost(y) && x < y)
  {
    var costs := seq(n, (i: nat) => estimateCost(i));
    order := [];
    for k := 0 to n
      invariant IsPermutation(order, k) && LongestFirst(costs, order)
    {
      order := Insert(costs, order, k);
    }
    forall a, b | 0 <= a < b < |order|
      ensures var x, y := order[a], order[b];
        estimateCost(x) > estimateCost(y) || (estimateCost(x) == estimateCost(y) && x < y)
    {
      assert order[a] in order && order[b] in order;
      assert GoesBefore(costs, order[a], order[b]);
    }
  }

  /** Puts index `k` behind every index that goes before it. */
  method Insert(costs: seq<real>, order: seq<nat>, k: nat) returns (longer: seq<nat>)
    requires k < |costs| && IsPermutation(order, k) && LongestFirst(costs, order)
    ensures IsPermutation(longer, k + 1) && LongestFirst(costs, longer)
  {
    var at := 0;
    assert forall i :: 0 <= i < |order| ==> order[i] in order;
    while at < |order| && GoesBefore(costs, order[at], k)
      invariant at <= |order|
      invariant forall i :: 0 <= i < at ==> GoesBefore(costs, order[i], k)
    {
      at := at + 1;
    }
    longer := order[..at] + [k] + order[at..];
    InsertedOrder(costs, order, k, at);
  }

  lemma InsertedOrder(costs: seq<real>, order: seq<nat>, k: nat, at: nat)
    requires k < |costs| && IsPermutation(order, k) && LongestFirst(costs, order) && at <= |order|
    requires forall i :: 0 <= i < |order| ==> order[i] < k
    requires forall i :: 0 <= i < at ==> GoesBefore(costs, order[i], k)
    requires at < |order| ==> !GoesBefore(costs, order[at], k)
    ensures IsPermutation(order[..at] + [k] + order[at..], k + 1)
    ensures LongestFirst(costs, order[..at] + [k] + order[at..])
  {
    var longer := order[..at] + [k] + order[at..];
    forall i | 0 <= i < |longer|
      ensures longer[i] == if i < at then order[i] else if i == at then k else order[i - 1]
    {}
    forall a, b | 0 <= a < b < |longer| ensures longer[a] != longer[b] && GoesBefore(costs, longer[a], longer[b]) {
      if a == at {
        assert order[at] == order[b - 1] || GoesBefore(costs, order[at], order[b - 1]);
      } else if b == at {
        assert GoesBefore(costs, order[a], k);
      } else {
        assert GoesBefore(costs, order[if a < at then a else a - 1], order[if b < at then b else b - 1]);
      }
    }
  }

  /** Estimates that compare alike give one permutation, whatever their sizes. */
  lemma LongestFirstIsUnique(costs: seq<real>, costs': seq<real>, order: seq<nat>, order': seq<nat>)
    requires |costs| == |costs'| && IsPermutation(order, |costs|) && IsPermutation(order', |costs|)
    requires forall i, j :: 0 <= i < |costs| && 0 <= j < |costs| ==> (costs[i] > costs[j] <==> costs'[i] > costs'[j])
    requires LongestFirst(costs, order) && LongestFirst(costs', order')
    ensures order == order'
  {
    for k := 0 to |order|
      invariant order[..k] == order'[..k]
    {
      NextAgrees(costs, costs', order, order', k);
      assert order[..k + 1] == order[..k] + [order[k]] && order'[..k + 1] == order'[..k] + [order'[k]];
    }
    assert order[..|order|] == order && order'[..|order|] == order';
  }

  lemma NextAgrees(costs: seq<real>, costs': seq<real>, order: seq<nat>, order': seq<nat>, k: nat)
    requires |costs| == |costs'| && IsPermutation(order, |costs|) && IsPermutation(order', |costs|) && k < |costs|
    requires forall i, j :: 0 <= i < |costs| && 0 <= j < |costs| ==> (costs[i] > costs[j] <==> costs'[i] > costs'[j])
    requires LongestFirst(costs, order) && LongestFirst(costs', order')
    requires order[..k] == order'[..k]
    ensures order[k] == order'[k]
  {
    var x, y := order[k], order'[k];
    assert x in order && y in order';
    if x != y {
      LaterOrEqual(costs', order', order, k);
      LaterOrEqual(costs, order, order', k);
    }
  }

  /** Past a common prefix, the next of one order does not come before the next of the other. */
  lemma LaterOrEqual(costs: seq<real>, order: seq<nat>, order': seq<nat>, k: nat)
    requires IsPermutation(order, |costs|) && IsPermutation(order', |costs|) && k < |costs|
    requires LongestFirst(costs, order) && order[..k] == order'[..k]
    ensures order[k] < |costs| && order'[k] < |costs|
    ensures order'[k] == order[k] || GoesBefore(costs, order[k], order'[k])
  {
    PermutationCovers(order, |costs|);
    assert forall i :: 0 <= i < k ==> order[..k][i] == order[i] && order'[..k][i] == order'[i];
    assert order[k] in order && order'[k] in order' && order'[k] in order;
    var j :| 0 <= j < |order| && order[j] == order'[k];
    assert j >= k;
  }
}
