/** The maximal specifications of a growing set, carried forward from cut to cut. */
module Maximality {
  import opened Quotients
  import opened Wrappers

  /** `below(a, b)`: `b` dominates `a`, or the two are equivalent. */
  type Order = (string, string) -> bool

  ghost predicate Maximal(below: Order, all: set<string>, x: string) {
    x in all && forall y :: y in all && below(x, y) ==> below(y, x)
  }

  ghost predicate Represented(below: Order, reps: set<string>, x: string) {
    exists r :: r in reps && Equivalent(below, x, r)
  }

  /** `reps` holds exactly one member of every maximal class of `all`, and nothing else. */
  ghost predicate Represents(below: Order, reps: set<string>, all: set<string>) {
    && (forall r :: r in reps ==> Maximal(below, all, r))
    && (forall x :: Maximal(below, all, x) ==> Represented(below, reps, x))
    && (forall r, s :: r in reps && s in reps && Equivalent(below, r, s) ==> r == s)
  }

  ghost function Above(below: Order, all: set<string>, x: string): set<string> {
    set y | y in all && below(x, y)
  }

  /** In a finite set everything is below something maximal. */
  lemma {:induction false} SomeMaximalAbove(below: Order, all: set<string>, x: string) returns (top: string)
    requires Preorder(below) && x in all
    ensures below(x, top) && Maximal(below, all, top)
    decreases |Above(below, all, x)|
  {
    if Maximal(below, all, x) {
      top := x;
    } else {
      var y :| y in all && below(x, y) && !below(y, x);
      assert Above(below, all, y) < Above(below, all, x) by {
        assert x in Above(below, all, x) && x !in Above(below, all, y);
      }
      SmallerSet(Above(below, all, y), Above(below, all, x));
      top := SomeMaximalAbove(below, all, y);
    }
  }

  lemma SmallerSet(a: set<string>, b: set<string>)
    requires a < b
    ensures |a| < |b|
  {
    assert b == a + (b - a);
  }

  /** And so below a representative. */
  lemma SomeRepresentativeAbove(below: Order, reps: set<string>, all: set<string>, x: string) returns (r: string)
    requires Preorder(below) && Represents(below, reps, all) && x in all
    ensures r in reps && below(x, r)
  {
    var top := SomeMaximalAbove(below, all, x);
    assert Represented(below, reps, top);
    r :| r in reps && Equivalent(below, top, r);
  }

  // -- Carrying representatives forward ---------------------------------------------------------

  /** Representatives of the old representatives and the new arrivals represent the whole. */
  lemma CarriedForward(below: Order, earlier: set<string>, reps: set<string>, arrivals: set<string>, next: set<string>)
    requires Preorder(below) && Represents(below, reps, earlier) && Represents(below, next, reps + arrivals)
    ensures Represents(below, next, earlier + arrivals)
  {
    forall r | r in next ensures Maximal(below, earlier + arrivals, r) {
      StaysMaximal(below, earlier, reps, arrivals, r);
    }
    forall x | Maximal(below, earlier + arrivals, x) ensures Represented(below, next, x) {
      StaysRepresented(below, earlier, reps, arrivals, next, x);
    }
  }

  /** What a representative may have lost sight of cannot dominate it. */
  lemma StaysMaximal(below: Order, earlier: set<string>, reps: set<string>, arrivals: set<string>, r: string)
    requires Preorder(below) && Represents(below, reps, earlier) && Maximal(below, reps + arrivals, r)
    ensures Maximal(below, earlier + arrivals, r)
  {
    forall y | y in earlier + arrivals && below(r, y) ensures below(y, r) {
      if y !in reps + arrivals {
        var s := SomeRepresentativeAbove(below, reps, earlier, y);
        assert below(r, s) && below(s, r);
      }
    }
  }

  lemma StaysRepresented(below: Order, earlier: set<string>, reps: set<string>, arrivals: set<string>,
                         next: set<string>, x: string)
    requires Preorder(below) && Represents(below, reps, earlier) && Represents(below, next, reps + arrivals)
    requires Maximal(below, earlier + arrivals, x)
    ensures Represented(below, next, x)
  {
    var s := x;
    if x !in arrivals {
      assert Maximal(below, earlier, x) && Represented(below, reps, x);
      s :| s in reps && Equivalent(below, x, s);
    }
    EquivalentIsMaximal(below, earlier + arrivals, reps + arrivals, x, s);
    assert Represented(below, next, s);
    var r :| r in next && Equivalent(below, s, r);
    assert Equivalent(below, x, r);
  }

  lemma EquivalentIsMaximal(below: Order, all: set<string>, part: set<string>, x: string, s: string)
    requires Preorder(below) && Maximal(below, all, x) && Equivalent(below, x, s) && s in part
    requires forall y :: y in part ==> y in all
    ensures Maximal(below, part, s)
  {
    forall y | y in part && below(s, y) ensures below(y, s) {
      assert below(x, y) && below(y, x);
    }
  }

  // -- Counts do not depend on the representatives ----------------------------------------------

  /** Every member of `a` is equivalent to a member of `b`. */
  ghost predicate Covers(below: Order, a: set<string>, b: set<string>) {
    forall x :: x in a ==> Represented(below, b, x)
  }

  ghost predicate Inequivalent(below: Order, a: set<string>) {
    forall x, y :: x in a && y in a && Equivalent(below, x, y) ==> x == y
  }

  lemma {:induction false} CoveredIsNoLarger(below: Order, a: set<string>, b: set<string>)
    requires Preorder(below) && Covers(below, a, b) && Inequivalent(below, a)
    ensures |a| <= |b|
    decreases |a|
  {
    if a != {} {
      var x :| x in a;
      assert Represented(below, b, x);
      var y :| y in b && Equivalent(below, x, y);
      var a', b' := a - {x}, b - {y};
      forall z | z in a' ensures Represented(below, b', z) {
        assert Represented(below, b, z);
        var w :| w in b && Equivalent(below, z, w);
        assert w == y ==> Equivalent(below, z, x);
        assert w in b';
      }
      CoveredIsNoLarger(below, a', b');
    }
  }

  /** Equivalent specifications imply the same ideals. */
  ghost predicate ClassInvariant(below: Order, implying: set<string>) {
    forall x, y :: x in implying && Equivalent(below, x, y) ==> y in implying
  }

  /** No choice of representatives is larger than another, and none has more in an invariant set. */
  lemma NoneIsLarger(below: Order, all: set<string>, reps: set<string>, others: set<string>)
    requires Preorder(below) && Represents(below, reps, all) && Represents(below, others, all)
    ensures |reps| <= |others|
  {
    CoveredIsNoLarger(below, reps, others);
  }

  lemma NoneHasMore(below: Order, all: set<string>, reps: set<string>, others: set<string>, implying: set<string>)
    requires Preorder(below) && Represents(below, reps, all) && Represents(below, others, all) && ClassInvariant(below, implying)
    ensures |reps * implying| <= |others * implying|
  {
    CoversWithin(below, all, reps, others, implying);
    CoveredIsNoLarger(below, reps * implying, others * implying);
  }

  /** Any two ways of representing a set give equal counts, of all classes and of those in an invariant
      set. */
  lemma CountsAgree(below: Order, all: set<string>, reps: set<string>, others: set<string>, implying: set<string>)
    requires Preorder(below) && Represents(below, reps, all) && Represents(below, others, all)
    ensures |reps| == |others|
    ensures ClassInvariant(below, implying) ==> |reps * implying| == |others * implying|
  {
    hide Represents, Preorder, ClassInvariant;
    NoneIsLarger(below, all, reps, others);
    NoneIsLarger(below, all, others, reps);
    if ClassInvariant(below, implying) {
      NoneHasMore(below, all, reps, others, implying);
      NoneHasMore(below, all, others, reps, implying);
    }
  }

  lemma CoversWithin(below: Order, all: set<string>, reps: set<string>, others: set<string>, implying: set<string>)
    requires Represents(below, reps, all) && Represents(below, others, all) && ClassInvariant(below, implying)
    ensures Covers(below, reps * implying, others * implying)
  {
    forall x | x in reps * implying ensures Represented(below, others * implying, x) {
      assert Represented(below, others, x);
      var y :| y in others && Equivalent(below, x, y);
      assert y in others * implying;
    }
  }

  // -- The cuts ---------------------------------------------------------------------------------

  /** A specification file and when it was found. */
  datatype Found = Found(name: string, time: real)

  predicate ByTime(found: seq<Found>) {
    forall i, j :: 0 <= i <= j < |found| ==> found[i].time <= found[j].time
  }

  /** How many files a cut takes in; they are the first ones in time order. */
  function PrefixLength(found: seq<Found>, cut: real): (n: nat)
    ensures n <= |found|
    ensures forall i :: 0 <= i < n ==> found[i].time <= cut
    ensures n < |found| ==> cut < found[n].time
  {
    if found == [] || cut < found[0].time then 0
    else
      var rest := found[1..];
      assert forall i :: 0 < i < |found| ==> found[i] == rest[i - 1];
      PrefixLength(rest, cut) + 1
  }

  function Names(found: seq<Found>, n: nat): set<string>
    requires n <= |found|
  {
    set i: nat | i < n :: found[i].name
  }

  /** Everything found by a cut. */
  function Prefix(found: seq<Found>, cut: real): set<string> {
    Names(found, PrefixLength(found, cut))
  }

  /** Everything found by a cut, in whatever order it is listed. */
  function FoundBy(index: seq<Found>, cut: real): set<string> {
    set f | f in index && f.time <= cut :: f.name
  }

  lemma {:induction false} PrefixHoldsAll(found: seq<Found>, cut: real, i: nat)
    requires ByTime(found) && i < |found| && found[i].time <= cut
    ensures i < PrefixLength(found, cut)
  {
    assert found[0].time <= found[i].time;
    if i > 0 { PrefixHoldsAll(found[1..], cut, i - 1); }
  }

  lemma PrefixIsFoundBy(found: seq<Found>, cut: real)
    requires ByTime(found)
    ensures Prefix(found, cut) == FoundBy(found, cut)
  {
    var n := PrefixLength(found, cut);
    forall x | x in FoundBy(found, cut) ensures x in Prefix(found, cut) {
      var f :| f in found && f.time <= cut && f.name == x;
      var i: nat :| i < |found| && found[i] == f;
      PrefixHoldsAll(found, cut, i);
      assert found[i].name == x;
    }
    forall x | x in Prefix(found, cut) ensures x in FoundBy(found, cut) {
      var i: nat :| i < n && found[i].name == x;
      assert found[i] in found;
    }
  }

  /** Puts a file behind every file found no later. */
  function InsertByTime(f: Found, sorted: seq<Found>): (longer: seq<Found>)
    ensures forall g :: g in longer <==> g in sorted || g == f
  {
    if sorted == [] || f.time < sorted[0].time then [f] + sorted
    else [sorted[0]] + InsertByTime(f, sorted[1..])
  }

  lemma {:induction false} InsertKeepsTime(f: Found, sorted: seq<Found>)
    requires ByTime(sorted)
    ensures ByTime(InsertByTime(f, sorted))
  {
    if sorted == [] || f.time < sorted[0].time {
      EarliestFirst(f, sorted);
    } else {
      var rest := InsertByTime(f, sorted[1..]);
      InsertKeepsTime(f, sorted[1..]);
      forall g | g in rest ensures sorted[0].time <= g.time {
        if g in sorted[1..] { var i: nat :| i < |sorted| - 1 && sorted[1..][i] == g; assert sorted[i + 1] == g; }
      }
      EarliestFirst(sorted[0], rest);
    }
  }

  lemma EarliestFirst(f: Found, rest: seq<Found>)
    requires ByTime(rest) && (rest == [] || f.time <= rest[0].time || forall g :: g in rest ==> f.time <= g.time)
    ensures ByTime([f] + rest)
  {
    if rest != [] { assert rest[0] in rest && f.time <= rest[0].time; }
  }

  method SortedByTime(index: seq<Found>) returns (found: seq<Found>)
    ensures ByTime(found) && forall f :: f in found <==> f in index
  {
    found := [];
    for n := 0 to |index|
      invariant ByTime(found) && forall f :: f in found <==> f in index[..n]
    {
      assert index[..n + 1] == index[..n] + [index[n]];
      InsertKeepsTime(index[n], found);
      found := InsertByTime(index[n], found);
    }
    assert index[..|index|] == index;
  }

  lemma {:induction false} PrefixGrows(found: seq<Found>, cut: real, later: real)
    requires cut <= later
    ensures PrefixLength(found, cut) <= PrefixLength(found, later)
  {
    if found != [] { PrefixGrows(found[1..], cut, later); }
  }

  lemma NamesSplit(found: seq<Found>, n: nat, m: nat)
    requires n <= m <= |found|
    ensures Names(found, m) == Names(found, n) + Members(Arrivals(found, n, m))
  {
    var arrivals := Arrivals(found, n, m);
    forall x | x in Names(found, m) ensures x in Names(found, n) + Members(arrivals) {
      var i: nat :| i < m && found[i].name == x;
      if n <= i { assert arrivals[i - n] == x; }
    }
    forall x | x in Members(arrivals) ensures x in Names(found, m) {
      var k: nat :| k < |arrivals| && arrivals[k] == x;
      assert found[n + k].name == x;
    }
  }

  /** The files found from place `n` on, before place `m`. */
  function Arrivals(found: seq<Found>, n: nat, m: nat): seq<string>
    requires n <= m <= |found|
  {
    seq(m - n, (i: nat) requires i < m - n => found[n + i].name)
  }

  datatype Row = Row(cut: real, solutions: nat, idealSolutions: Option<nat>)

  /** A row holds the counts a fresh computation on everything found by its cut would give. */
  ghost predicate Recomputed(below: Order, all: set<string>, implying: Option<set<string>>, row: Row) {
    && (forall reps :: Represents(below, reps, all) ==> row.solutions == |reps|)
    && row.idealSolutions.Some? == implying.Some?
    && (implying.Some? && ClassInvariant(below, implying.value) ==>
          forall reps :: Represents(below, reps, all) ==> row.idealSolutions.value == |reps * implying.value|)
  }

  /** The filter: representatives of the maximal classes of a batch of files, or no answer. */
  ghost predicate FiltersTo(below: Order, maximalOver: seq<string> -> Option<set<string>>) {
    forall batch :: maximalOver(batch).Some? ==> Represents(below, maximalOver(batch).value, Members(batch))
  }

  function Members(s: seq<string>): set<string> {
    set x | x in s
  }

  /** The members of a set, in no particular order. */
  method Listed(s: set<string>) returns (q: seq<string>)
    ensures Members(q) == s
  {
    q := [];
    var rest := s;
    while rest != {}
      invariant rest <= s && Members(q) == s - rest
      decreases rest
    {
      var x :| x in rest;
      MembersJoin(q, [x]);
      q, rest := q + [x], rest - {x};
    }
  }

  /** The loop's state: the survivors represent everything consumed. */
  ghost predicate Carrying(below: Order, found: seq<Found>, survivors: set<string>, consumed: nat) {
    consumed <= |found| && Represents(below, survivors, Names(found, consumed))
  }

  /** The state of the loop after the first `n` cuts. */
  ghost predicate Progress(below: Order, found: seq<Found>, cuts: seq<real>, implying: Option<set<string>>, n: nat,
                           survivors: set<string>, consumed: nat, seenPrefix: int, rows: seq<Row>)
    requires n <= |cuts|
  {
    && Carrying(below, found, survivors, consumed)
    && (if n == 0 then seenPrefix == -1 && consumed == 0 && rows == []
        else consumed == PrefixLength(found, cuts[n - 1]) && seenPrefix == consumed
             && rows != [] && PrefixLength(found, rows[|rows| - 1].cut) == consumed)
    && GoodRows(below, found, cuts, implying, rows)
    && AllAnswered(found, rows, cuts[..n])
    && Rising(found, rows)
  }

  /** Each row takes in more files than those before it. */
  ghost predicate Rising(found: seq<Found>, rows: seq<Row>) {
    forall i, j :: 0 <= i < j < |rows| ==> PrefixLength(found, rows[i].cut) < PrefixLength(found, rows[j].cut)
  }

  lemma RisesBy(found: seq<Found>, rows: seq<Row>, row: Row)
    requires Rising(found, rows)
    requires rows != [] ==> PrefixLength(found, rows[|rows| - 1].cut) < PrefixLength(found, row.cut)
    ensures Rising(found, rows + [row])
  {
    hide PrefixLength;
    var after := rows + [row];
    forall i, j | 0 <= i < j < |after| ensures PrefixLength(found, after[i].cut) < PrefixLength(found, after[j].cut) {
      if j == |rows| && i < j - 1 {
        assert PrefixLength(found, rows[i].cut) < PrefixLength(found, rows[|rows| - 1].cut);
      }
    }
  }

  predicate FoundBetween(index: seq<Found>, cut: real, later: real) {
    cut < later && exists f :: f in index && cut < f.time <= later
  }

  /** Of two rows the later is of a later cut, with a file found between the two. */
  lemma RisingCuts(index: seq<Found>, found: seq<Found>, rows: seq<Row>)
    requires Rising(found, rows) && forall f :: f in found <==> f in index
    ensures forall i, j :: 0 <= i < j < |rows| ==> FoundBetween(index, rows[i].cut, rows[j].cut)
  {
    forall i, j | 0 <= i < j < |rows| ensures FoundBetween(index, rows[i].cut, rows[j].cut) {
      var n := PrefixLength(found, rows[i].cut);
      assert n < PrefixLength(found, rows[j].cut);
      assert found[n] in found && rows[i].cut < found[n].time <= rows[j].cut;
    }
  }

  ghost predicate GoodRows(below: Order, found: seq<Found>, cuts: seq<real>, implying: Option<set<string>>,
                           rows: seq<Row>) {
    forall i :: 0 <= i < |rows| ==> rows[i].cut in cuts && Recomputed(below, Prefix(found, rows[i].cut), implying, rows[i])
  }

  ghost predicate AllAnswered(found: seq<Found>, rows: seq<Row>, cuts: seq<real>) {
    forall c :: c in cuts ==> Answered(found, rows, c)
  }

  lemma ProgressStarts(below: Order, found: seq<Found>, cuts: seq<real>, implying: Option<set<string>>)
    ensures Progress(below, found, cuts, implying, 0, {}, 0, -1, [])
  {
    assert Names(found, 0) == {};
  }

  lemma ProgressGives(below: Order, found: seq<Found>, cuts: seq<real>, implying: Option<set<string>>, n: nat,
                      survivors: set<string>, consumed: nat, seenPrefix: int, rows: seq<Row>)
    requires n <= |cuts| && Progress(below, found, cuts, implying, n, survivors, consumed, seenPrefix, rows)
    ensures consumed <= |found| && (if n == 0 then consumed == 0 else consumed == PrefixLength(found, cuts[n - 1]))
    ensures GoodRows(below, found, cuts, implying, rows) && Rising(found, rows)
    ensures n == |cuts| ==> AllAnswered(found, rows, cuts)
  {
    assert cuts[..|cuts|] == cuts;
  }

  /** Every row is of one of the first `n` cuts. */
  predicate FromCuts(rows: seq<Row>, cuts: seq<real>, n: nat) {
    forall i :: 0 <= i < |rows| ==> IsCut(cuts, n, rows[i].cut)
  }

  predicate IsCut(cuts: seq<real>, n: nat, c: real) {
    exists j :: 0 <= j < n && j < |cuts| && cuts[j] == c
  }

  /** A deadline that has expired at a cut stops the rows before it. */
  ghost predicate InTime(cuts: seq<real>, expired: nat -> bool, rows: seq<Row>, complete: bool) {
    forall n: nat :: n < |cuts| && expired(n) ==> !complete && FromCuts(rows, cuts, n)
  }

  lemma InTimeSoFar(cuts: seq<real>, expired: nat -> bool, rows: seq<Row>, n: nat)
    requires n <= |cuts| && FromCuts(rows, cuts, n) && forall j :: 0 <= j < n ==> !expired(j)
    ensures InTime(cuts, expired, rows, false) && (n == |cuts| ==> InTime(cuts, expired, rows, true))
    ensures FromCuts(rows, cuts, n + 1)
  {
    hide FromCuts;
    forall k: nat | n <= k ensures FromCuts(rows, cuts, k) { MoreCuts(rows, cuts, n, k); }
  }

  lemma MoreCuts(rows: seq<Row>, cuts: seq<real>, n: nat, k: nat)
    requires n <= k && FromCuts(rows, cuts, n)
    ensures FromCuts(rows, cuts, k)
  {
    forall i | 0 <= i < |rows| ensures IsCut(cuts, k, rows[i].cut) { assert IsCut(cuts, n, rows[i].cut); }
  }

  lemma NoneYet(rows: seq<Row>, cuts: seq<real>)
    requires rows == []
    ensures FromCuts(rows, cuts, 0)
  {}

  lemma FromNext(rows: seq<Row>, cuts: seq<real>, n: nat, row: Row)
    requires n < |cuts| && FromCuts(rows, cuts, n) && row.cut == cuts[n]
    ensures FromCuts(rows + [row], cuts, n + 1)
  {
    forall i | 0 <= i < |rows + [row]| ensures IsCut(cuts, n + 1, (rows + [row])[i].cut) {
      if i < |rows| { assert IsCut(cuts, n, rows[i].cut); } else { assert cuts[n] == row.cut; }
    }
  }

  /** Over files in time order. */
  method RowsOverCuts(found: seq<Found>, cuts: seq<real>, implying: Option<set<string>>,
                      maximalOver: seq<string> -> Option<set<string>>, expired: nat -> bool, ghost below: Order)
    returns (rows: seq<Row>, complete: bool)
    requires ByTime(found) && forall i, j :: 0 <= i <= j < |cuts| ==> cuts[i] <= cuts[j]
    requires Preorder(below) && FiltersTo(below, maximalOver)
    ensures GoodRows(below, found, cuts, implying, rows) && Rising(found, rows)
    ensures complete ==> AllAnswered(found, rows, cuts)
    ensures complete || (exists n :: expired(n)) || (exists batch :: maximalOver(batch).None?)
    ensures InTime(cuts, expired, rows, complete)
  {
    hide Progress, GoodRows, AllAnswered, Rising, FromCuts, InTime;
    rows, complete := [], true;
    var survivors: set<string> := {};
    var seenPrefix: int := -1;
    var consumed := 0;
    ProgressStarts(below, found, cuts, implying);
    NoneYet(rows, cuts);
    for n := 0 to |cuts|
      invariant Progress(below, found, cuts, implying, n, survivors, consumed, seenPrefix, rows)
      invariant complete && FromCuts(rows, cuts, n) && forall j :: 0 <= j < n ==> !expired(j)
    {
      InTimeSoFar(cuts, expired, rows, n);
      var cut := cuts[n];
      ProgressGives(below, found, cuts, implying, n, survivors, consumed, seenPrefix, rows);
      if expired(n) {
        return rows, false;
      }
      var length := PrefixLength(found, cut);
      if length == seenPrefix {
        SkipStep(below, found, cuts, implying, n, survivors, consumed, seenPrefix, rows);
        continue;
      }
      if n > 0 { PrefixGrows(found, cuts[n - 1], cut); }
      var carried := Listed(survivors);
      var batch := carried + Arrivals(found, consumed, length);
      var answer := maximalOver(batch);
      if answer.None? {
        return rows, false;
      }
      var row := Row(cut, |answer.value|, if implying.None? then None else Some(|answer.value * implying.value|));
      RowStep(below, found, cuts, implying, n, survivors, consumed, seenPrefix, rows, carried, answer.value, row);
      seenPrefix := length;
      survivors := answer.value;
      consumed := length;
      FromNext(rows, cuts, n, row);
      rows := rows + [row];
    }
    ProgressGives(below, found, cuts, implying, |cuts|, survivors, consumed, seenPrefix, rows);
    InTimeSoFar(cuts, expired, rows, |cuts|);
  }

  /** Some row is over the prefix of cut `c`. */
  ghost predicate Answered(found: seq<Found>, rows: seq<Row>, c: real) {
    exists i :: 0 <= i < |rows| && PrefixLength(found, rows[i].cut) == PrefixLength(found, c)
  }

  lemma AnsweredByLast(found: seq<Found>, rows: seq<Row>, c: real)
    requires rows != [] && PrefixLength(found, rows[|rows| - 1].cut) == PrefixLength(found, c)
    ensures Answered(found, rows, c)
  {}

  lemma AnsweredAfter(found: seq<Found>, rows: seq<Row>, row: Row, cuts: seq<real>)
    requires AllAnswered(found, rows, cuts)
    ensures AllAnswered(found, rows + [row], cuts)
  {
    forall c | c in cuts ensures Answered(found, rows + [row], c) {
      assert Answered(found, rows, c);
      var k :| 0 <= k < |rows| && PrefixLength(found, rows[k].cut) == PrefixLength(found, c);
      assert (rows + [row])[k] == rows[k];
    }
  }

  /** A cut on the prefix already counted. */
  lemma SkipStep(below: Order, found: seq<Found>, cuts: seq<real>, implying: Option<set<string>>, n: nat,
                 survivors: set<string>, consumed: nat, seenPrefix: int, rows: seq<Row>)
    requires n < |cuts| && Progress(below, found, cuts, implying, n, survivors, consumed, seenPrefix, rows)
    requires PrefixLength(found, cuts[n]) == seenPrefix
    ensures Progress(below, found, cuts, implying, n + 1, survivors, consumed, seenPrefix, rows)
  {
    AnsweredByLast(found, rows, cuts[n]);
    assert cuts[..n + 1] == cuts[..n] + [cuts[n]];
  }

  /** A cut that takes in more. */
  lemma RowStep(below: Order, found: seq<Found>, cuts: seq<real>, implying: Option<set<string>>, n: nat,
                survivors: set<string>, consumed: nat, seenPrefix: int, rows: seq<Row>,
                carried: seq<string>, next: set<string>, row: Row)
    requires n < |cuts| && Progress(below, found, cuts, implying, n, survivors, consumed, seenPrefix, rows)
    requires Preorder(below) && consumed <= PrefixLength(found, cuts[n]) && Members(carried) == survivors
    requires PrefixLength(found, cuts[n]) != seenPrefix
    requires Represents(below, next, Members(carried + Arrivals(found, consumed, PrefixLength(found, cuts[n]))))
    requires row == Row(cuts[n], |next|, if implying.None? then None else Some(|next * implying.value|))
    ensures var length := PrefixLength(found, cuts[n]);
            Progress(below, found, cuts, implying, n + 1, next, length, length, rows + [row])
  {
    var length := PrefixLength(found, cuts[n]);
    BatchCarries(below, found, survivors, consumed, length, carried, next);
    RowsGrow(below, found, cuts, implying, rows, next, row);
    RisesBy(found, rows, row);
    AnswersGrow(found, rows, row, cuts, n);
  }

  lemma AnswersGrow(found: seq<Found>, rows: seq<Row>, row: Row, cuts: seq<real>, n: nat)
    requires n < |cuts| && AllAnswered(found, rows, cuts[..n]) && row.cut == cuts[n]
    ensures AllAnswered(found, rows + [row], cuts[..n + 1])
  {
    assert cuts[..n + 1] == cuts[..n] + [cuts[n]];
    AnsweredAfter(found, rows, row, cuts[..n]);
    AnsweredByLast(found, rows + [row], cuts[n]);
  }

  lemma RowsGrow(below: Order, found: seq<Found>, cuts: seq<real>, implying: Option<set<string>>, rows: seq<Row>,
                 survivors: set<string>, row: Row)
    requires Preorder(below) && GoodRows(below, found, cuts, implying, rows) && row.cut in cuts
    requires Represents(below, survivors, Prefix(found, row.cut)) && row.solutions == |survivors|
    requires row.idealSolutions == if implying.None? then None else Some(|survivors * implying.value|)
    ensures GoodRows(below, found, cuts, implying, rows + [row])
  {
    RowIsRecomputed(below, found, implying, survivors, row);
  }

  lemma BatchCarries(below: Order, found: seq<Found>, survivors: set<string>, consumed: nat, length: nat,
                     carried: seq<string>, next: set<string>)
    requires Preorder(below) && Carrying(below, found, survivors, consumed) && consumed <= length <= |found|
    requires Members(carried) == survivors
    requires Represents(below, next, Members(carried + Arrivals(found, consumed, length)))
    ensures Carrying(below, found, next, length)
  {
    var arrivals := Arrivals(found, consumed, length);
    NamesSplit(found, consumed, length);
    MembersJoin(carried, arrivals);
    CarriedForward(below, Names(found, consumed), survivors, Members(arrivals), next);
  }

  lemma MembersJoin(a: seq<string>, b: seq<string>)
    ensures Members(a + b) == Members(a) + Members(b)
  {}

  lemma RowIsRecomputed(below: Order, found: seq<Found>, implying: Option<set<string>>, survivors: set<string>,
                        row: Row)
    requires Preorder(below) && Represents(below, survivors, Prefix(found, row.cut)) && row.solutions == |survivors|
    requires row.idealSolutions == if implying.None? then None else Some(|survivors * implying.value|)
    ensures Recomputed(below, Prefix(found, row.cut), implying, row)
  {
    forall reps | Represents(below, reps, Prefix(found, row.cut))
      ensures row.solutions == |reps|
      ensures implying.Some? && ClassInvariant(below, implying.value) ==>
                row.idealSolutions.value == |reps * implying.value|
    {
      CountsAgree(below, Prefix(found, row.cut), survivors, reps, if implying.Some? then implying.value else {});
    }
  }

  /** One row per set of files found by a cut, each with the counts a fresh computation on all of them
      would give. Without a deadline or a failing filter every cut has its row. */
  method MaximalityRows(index: seq<Found>, cuts: seq<real>, implying: Option<set<string>>,
                        maximalOver: seq<string> -> Option<set<string>>, expired: nat -> bool, ghost below: Order)
    returns (rows: seq<Row>, complete: bool)
    requires forall i, j :: 0 <= i <= j < |cuts| ==> cuts[i] <= cuts[j]
    requires Preorder(below) && FiltersTo(below, maximalOver)
    ensures forall i :: 0 <= i < |rows| ==>
              rows[i].cut in cuts && Recomputed(below, FoundBy(index, rows[i].cut), implying, rows[i])
    ensures forall i, j :: 0 <= i < j < |rows| ==> FoundBetween(index, rows[i].cut, rows[j].cut)
    ensures complete ==> forall c :: c in cuts ==>
              exists i :: 0 <= i < |rows| && FoundBy(index, rows[i].cut) == FoundBy(index, c)
    ensures complete || (exists n :: expired(n)) || (exists batch :: maximalOver(batch).None?)
    ensures InTime(cuts, expired, rows, complete)
  {
    var found := SortedByTime(index);
    rows, complete := RowsOverCuts(found, cuts, implying, maximalOver, expired, below);
    SameFoundBy(index, found);
    RisingCuts(index, found, rows);
    if complete { AnsweredRows(index, found, rows, cuts); }
  }

  lemma SameFoundBy(index: seq<Found>, found: seq<Found>)
    requires ByTime(found) && forall f :: f in found <==> f in index
    ensures forall cut :: Prefix(found, cut) == FoundBy(index, cut)
  {
    forall cut ensures Prefix(found, cut) == FoundBy(index, cut) {
      PrefixIsFoundBy(found, cut);
      assert FoundBy(found, cut) == FoundBy(index, cut);
    }
  }

  lemma AnsweredRows(index: seq<Found>, found: seq<Found>, rows: seq<Row>, cuts: seq<real>)
    requires AllAnswered(found, rows, cuts) && forall cut :: Prefix(found, cut) == FoundBy(index, cut)
    ensures forall c :: c in cuts ==> exists i :: 0 <= i < |rows| && FoundBy(index, rows[i].cut) == FoundBy(index, c)
  {
    forall c | c in cuts ensures exists i :: 0 <= i < |rows| && FoundBy(index, rows[i].cut) == FoundBy(index, c) {
      assert Answered(found, rows, c);
      var i :| 0 <= i < |rows| && PrefixLength(found, rows[i].cut) == PrefixLength(found, c);
      assert Prefix(found, rows[i].cut) == Prefix(found, c);
    }
  }
}
