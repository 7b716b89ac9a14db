/** Survivors numbered by mutual-implication class. */
module Quotients {
  import opened Wrappers

  /** The class of each of the first survivors, and how many classes there are. */
  datatype Quotient = Quotient(classOf: seq<nat>, nClasses: nat)

  /** Whether survivor `i` is found equivalent to the earlier survivor `j`. */
  type Test = (nat, nat) -> bool

  /** The first survivor from `j` on, before `i`, that `i` is found equivalent to; `i` if none is. */
  function FirstMatch(test: Test, i: nat, j: nat): (at: nat)
    requires j <= i
    ensures j <= at <= i
    ensures at < i ==> test(i, at)
    ensures forall k :: j <= k < at ==> !test(i, k)
    decreases i - j
  {
    if j == i || test(i, j) then j else FirstMatch(test, i, j + 1)
  }

  /** Each survivor joins the class of its first match, or opens the next class. */
  function Numbered(test: Test, n: nat): (q: Quotient)
    ensures |q.classOf| == n
    ensures forall i :: 0 <= i < n ==> q.classOf[i] < q.nClasses
  {
    if n == 0 then Quotient([], 0)
    else
      var q := Numbered(test, n - 1);
      var at := FirstMatch(test, n - 1, 0);
      if at < n - 1 then Quotient(q.classOf + [q.classOf[at]], q.nClasses)
      else Quotient(q.classOf + [q.nClasses], q.nClasses + 1)
  }

  lemma NextNumbered(test: Test, n: nat, at: nat)
    requires at == FirstMatch(test, n, 0)
    ensures var q := Numbered(test, n);
            Numbered(test, n + 1) == if at < n then Quotient(q.classOf + [q.classOf[at]], q.nClasses)
                                     else Quotient(q.classOf + [q.nClasses], q.nClasses + 1)
  {}

  predicate Says(answer: Option<bool>) {
    answer.Some? && answer.value
  }

  /** A word one specification accepts and the other rejects, when there are fingerprints of all. */
  function Refuted<P>(prints: seq<P>, refutes: (P, P) -> bool, n: nat, i: nat, j: nat): bool {
    |prints| == n && i < n && j < n && (refutes(prints[i], prints[j]) || refutes(prints[j], prints[i]))
  }

  predicate FoundEquivalent<Spec, P>(maximal: seq<Spec>, oracle: (Spec, Spec) -> Option<bool>, prints: seq<P>,
                                     refutes: (P, P) -> bool, i: nat, j: nat) {
    i < |maximal| && j < |maximal| && !Refuted(prints, refutes, |maximal|, i, j)
    && Says(oracle(maximal[i], maximal[j])) && Says(oracle(maximal[j], maximal[i]))
  }

  function PairTest<Spec, P>(maximal: seq<Spec>, oracle: (Spec, Spec) -> Option<bool>, prints: seq<P>,
                             refutes: (P, P) -> bool): Test {
    (i: nat, j: nat) => FoundEquivalent(maximal, oracle, prints, refutes, i, j)
  }

  /** Looks for the first earlier survivor equivalent to survivor `i`. */
  method Search<Spec, P>(maximal: seq<Spec>, oracle: (Spec, Spec) -> Option<bool>, prints: seq<P>,
                         refutes: (P, P) -> bool, i: nat) returns (at: nat)
    requires i < |maximal|
    ensures at == FirstMatch(PairTest(maximal, oracle, prints, refutes), i, 0)
  {
    var havePrints := |prints| == |maximal|;
    ghost var test := PairTest(maximal, oracle, prints, refutes);
    at := 0;
    while at < i
      invariant 0 <= at <= i && FirstMatch(test, i, 0) == FirstMatch(test, i, at)
    {
      var skip := havePrints && (refutes(prints[i], prints[at]) || refutes(prints[at], prints[i]));
      if !skip && Says(oracle(maximal[i], maximal[at])) && Says(oracle(maximal[at], maximal[i])) {
        assert FoundEquivalent(maximal, oracle, prints, refutes, i, at) && test(i, at);
        return;
      }
      assert !FoundEquivalent(maximal, oracle, prints, refutes, i, at) && !test(i, at);
      at := at + 1;
    }
  }

  /** What joins survivor `i` to the earlier `j`: no word tells them apart, and each is said to imply the
      other. */
  predicate Joins<Spec, P>(maximal: seq<Spec>, oracle: (Spec, Spec) -> Option<bool>, prints: seq<P>,
                           refutes: (P, P) -> bool, i: nat, j: nat)
    requires i < |maximal| && j < |maximal|
  {
    && oracle(maximal[i], maximal[j]) == Some(true) && oracle(maximal[j], maximal[i]) == Some(true)
    && (|prints| == |maximal| ==> !refutes(prints[i], prints[j]) && !refutes(prints[j], prints[i]))
  }

  predicate FirstJoined<Spec, P>(maximal: seq<Spec>, oracle: (Spec, Spec) -> Option<bool>, prints: seq<P>,
                                 refutes: (P, P) -> bool, i: nat, j: nat)
    requires j < i < |maximal|
  {
    Joins(maximal, oracle, prints, refutes, i, j)
    && forall k: nat :: k < j ==> !Joins(maximal, oracle, prints, refutes, i, k)
  }

  /** Survivor `i` is in the class of the first earlier one it joins, or in one of its own. */
  ghost predicate PlacedByFirst<Spec, P>(maximal: seq<Spec>, oracle: (Spec, Spec) -> Option<bool>, prints: seq<P>,
                                         refutes: (P, P) -> bool, classOf: seq<nat>, i: nat)
    requires i < |maximal| && i < |classOf|
  {
    && (forall j: nat :: j < i && FirstJoined(maximal, oracle, prints, refutes, i, j) ==> classOf[i] == classOf[j])
    && ((forall j: nat :: j < i ==> !Joins(maximal, oracle, prints, refutes, i, j)) ==> classOf[i] !in classOf[..i])
  }

  lemma {:induction false} EachPlaced<Spec, P>(maximal: seq<Spec>, oracle: (Spec, Spec) -> Option<bool>, prints: seq<P>,
                                               refutes: (P, P) -> bool, n: nat, i: nat)
    requires i < n <= |maximal|
    ensures PlacedByFirst(maximal, oracle, prints, refutes,
                          Numbered(PairTest(maximal, oracle, prints, refutes), n).classOf, i)
  {
    hide FirstMatch, Numbered, Joins;
    var test := PairTest(maximal, oracle, prints, refutes);
    var before, classOf := Numbered(test, n - 1).classOf, Numbered(test, n).classOf;
    NextNumbered(test, n - 1, FirstMatch(test, n - 1, 0));
    if i < n - 1 {
      EachPlaced(maximal, oracle, prints, refutes, n - 1, i);
      assert classOf[..i] == before[..i];
    } else {
      assert classOf[..i] == before;
      forall j: nat | j < i ensures test(i, j) <==> Joins(maximal, oracle, prints, refutes, i, j) {
        JoinsIsTest(maximal, oracle, prints, refutes, i, j);
      }
    }
  }

  lemma JoinsIsTest<Spec, P>(maximal: seq<Spec>, oracle: (Spec, Spec) -> Option<bool>, prints: seq<P>,
                             refutes: (P, P) -> bool, i: nat, j: nat)
    requires i < |maximal| && j < |maximal|
    ensures PairTest(maximal, oracle, prints, refutes)(i, j) <==> Joins(maximal, oracle, prints, refutes, i, j)
  {}

  method QuotientByEquivalence<Spec, P>(maximal: seq<Spec>, oracle: (Spec, Spec) -> Option<bool>, prints: seq<P>,
                                        refutes: (P, P) -> bool) returns (q: Quotient)
    ensures q == Numbered(PairTest(maximal, oracle, prints, refutes), |maximal|)
    ensures forall i :: 0 <= i < |maximal| ==> PlacedByFirst(maximal, oracle, prints, refutes, q.classOf, i)
  {
    hide FirstMatch, PairTest, PlacedByFirst;
    var classOf := new nat[|maximal|](_ => 0);
    var nClasses := 0;
    ghost var test := PairTest(maximal, oracle, prints, refutes);
    for i := 0 to |maximal|
      invariant Quotient(classOf[..i], nClasses) == Numbered(test, i)
    {
      var at := Search(maximal, oracle, prints, refutes, i);
      ghost var before := classOf[..i];
      NextNumbered(test, i, at);
      if at < i {
        classOf[i] := classOf[at];
      } else {
        classOf[i] := nClasses;
        nClasses := nClasses + 1;
      }
      assert classOf[..i + 1] == before + [classOf[i]];
    }
    assert classOf[..|maximal|] == classOf[..];
    q := Quotient(classOf[..], nClasses);
    forall i | 0 <= i < |maximal| ensures PlacedByFirst(maximal, oracle, prints, refutes, q.classOf, i) {
      EachPlaced(maximal, oracle, prints, refutes, |maximal|, i);
    }
  }

  // -- Numbered by first appearance -------------------------------------------------------------

  /** Classes 0 to `nClasses - 1` are all used, and appear in that order. */
  ghost predicate FirstAppearance(q: Quotient) {
    && (forall c: nat :: c < q.nClasses ==> c in q.classOf)
    && (forall i: nat, c: nat :: i < |q.classOf| && c < q.classOf[i] ==> c in q.classOf[..i])
  }

  lemma {:induction false} ByFirstAppearance(test: Test, n: nat)
    ensures FirstAppearance(Numbered(test, n))
  {
    if n > 0 {
      ByFirstAppearance(test, n - 1);
      var before, q := Numbered(test, n - 1), Numbered(test, n);
      AppearsNext(before, q);
    }
  }

  lemma AppearsNext(before: Quotient, q: Quotient)
    requires FirstAppearance(before) && |q.classOf| == |before.classOf| + 1
    requires q.classOf[..|before.classOf|] == before.classOf
    requires q.nClasses == before.nClasses || (q.nClasses == before.nClasses + 1 && q.classOf[|before.classOf|] == before.nClasses)
    requires q.classOf[|before.classOf|] <= before.nClasses
    ensures FirstAppearance(q)
  {
    var last := |before.classOf|;
    assert q.classOf == before.classOf + [q.classOf[last]];
    forall i: nat, c: nat | i < |q.classOf| && c < q.classOf[i] ensures c in q.classOf[..i] {
      if i < last { assert q.classOf[..i] == before.classOf[..i]; }
    }
  }

  // -- What sharing a class means ---------------------------------------------------------------

  /** `below(a, b)`: specification `a` implies specification `b`. */
  ghost predicate Preorder<T(!new)>(below: (T, T) -> bool) {
    && (forall x :: below(x, x))
    && (forall x, y, z :: below(x, y) && below(y, z) ==> below(x, z))
  }

  ghost predicate Equivalent<T(!new)>(below: (T, T) -> bool, x: T, y: T) {
    below(x, y) && below(y, x)
  }

  /** The test never calls two survivors equivalent that are not. */
  ghost predicate SoundTest<T(!new)>(below: (T, T) -> bool, maximal: seq<T>, test: Test) {
    forall i: nat, j: nat :: j < i < |maximal| && test(i, j) ==> Equivalent(below, maximal[i], maximal[j])
  }

  ghost predicate ExactTest<T(!new)>(below: (T, T) -> bool, maximal: seq<T>, test: Test) {
    forall i: nat, j: nat :: j < i < |maximal| ==> (test(i, j) <==> Equivalent(below, maximal[i], maximal[j]))
  }

  /** The first survivors so far are classed soundly. */
  ghost predicate ClassedSoundly<T(!new)>(below: (T, T) -> bool, maximal: seq<T>, classOf: seq<nat>) {
    forall i: nat, j: nat :: i < |classOf| && j < |classOf| && i < |maximal| && j < |maximal| && classOf[i] == classOf[j]
      ==> Equivalent(below, maximal[i], maximal[j])
  }

  lemma {:induction false} SharedClassIsEquivalence<T(!new)>(below: (T, T) -> bool, maximal: seq<T>, test: Test, n: nat)
    requires Preorder(below) && SoundTest(below, maximal, test) && n <= |maximal|
    ensures ClassedSoundly(below, maximal, Numbered(test, n).classOf)
  {
    hide Preorder, Equivalent, Numbered;
    if n > 0 {
      SharedClassIsEquivalence(below, maximal, test, n - 1);
      var before, q := Numbered(test, n - 1), Numbered(test, n);
      NextNumbered(test, n - 1, FirstMatch(test, n - 1, 0));
      var last, at := n - 1, FirstMatch(test, n - 1, 0);
      forall i: nat, j: nat | i < n && j < n && q.classOf[i] == q.classOf[j]
        ensures Equivalent(below, maximal[i], maximal[j])
      {
        JoinsSoundly(below, maximal, before.classOf, q.classOf, at, last, i, j);
      }
    }
  }

  lemma JoinsSoundly<T(!new)>(below: (T, T) -> bool, maximal: seq<T>, before: seq<nat>, after: seq<nat>, at: nat,
                              last: nat,
                              i: nat, j: nat)
    requires Preorder(below) && |before| == last < |maximal| && ClassedSoundly(below, maximal, before)
    requires |after| == last + 1 && after[..last] == before && at <= last
    requires at < last ==> after[last] == before[at] && Equivalent(below, maximal[last], maximal[at])
    requires at == last ==> after[last] !in before
    requires i <= last && j <= last && after[i] == after[j]
    ensures Equivalent(below, maximal[i], maximal[j])
  {
    assert forall k :: 0 <= k < last ==> after[k] == before[k];
    if i < last && j < last {
      assert before[i] == before[j];
    } else if i < last {
      assert at < last && Equivalent(below, maximal[i], maximal[at]);
    } else if j < last {
      assert at < last && Equivalent(below, maximal[at], maximal[j]);
    }
  }

  /** With an exact test two survivors share a class exactly when each implies the other. */
  lemma ClassIffEquivalent<T(!new)>(below: (T, T) -> bool, maximal: seq<T>, test: Test, n: nat, i: nat, j: nat)
    requires Preorder(below) && ExactTest(below, maximal, test) && j < i < n <= |maximal|
    ensures Numbered(test, n).classOf[i] == Numbered(test, n).classOf[j] <==> Equivalent(below, maximal[i], maximal[j])
  {
    if Equivalent(below, maximal[i], maximal[j]) {
      EquivalentShareClass(below, maximal, test, n, i, j);
    } else {
      SharedClassIsEquivalence(below, maximal, test, n);
    }
  }

  lemma {:induction false} EquivalentShareClass<T(!new)>(below: (T, T) -> bool, maximal: seq<T>, test: Test, n: nat,
                                                         i: nat, j: nat)
    requires Preorder(below) && ExactTest(below, maximal, test) && j < i < n <= |maximal|
    requires Equivalent(below, maximal[i], maximal[j])
    ensures Numbered(test, n).classOf[i] == Numbered(test, n).classOf[j]
    decreases n
  {
    hide Preorder, ExactTest, Equivalent, FirstMatch, Numbered;
    NextNumbered(test, n - 1, FirstMatch(test, n - 1, 0));
    if i < n - 1 {
      EquivalentShareClass(below, maximal, test, n - 1, i, j);
    } else {
      var at := MatchIsEquivalent(below, maximal, test, i, j);
      if at < j { EquivalentShareClass(below, maximal, test, n - 1, j, at); }
    }
  }

  lemma MatchIsEquivalent<T(!new)>(below: (T, T) -> bool, maximal: seq<T>, test: Test, i: nat, j: nat) returns (at: nat)
    requires Preorder(below) && ExactTest(below, maximal, test) && j < i < |maximal|
    requires Equivalent(below, maximal[i], maximal[j])
    ensures at == FirstMatch(test, i, 0) && at <= j
    ensures Equivalent(below, maximal[j], maximal[at])
  {
    at := FirstMatch(test, i, 0);
    assert test(i, j);
    assert Equivalent(below, maximal[i], maximal[at]);
  }

  // -- Oracles and prefilters -------------------------------------------------------------------

  ghost predicate SoundOracle<T(!new)>(below: (T, T) -> bool, oracle: (T, T) -> Option<bool>) {
    forall a, b :: oracle(a, b) == Some(true) ==> below(a, b)
  }

  ghost predicate ExactOracle<T(!new)>(below: (T, T) -> bool, oracle: (T, T) -> Option<bool>) {
    forall a, b :: oracle(a, b) == Some(true) <==> below(a, b)
  }

  /** A refutation rules the implication out. */
  ghost predicate SoundFilter<T(!new), P>(below: (T, T) -> bool, maximal: seq<T>, prints: seq<P>,
                                          refutes: (P, P) -> bool) {
    |prints| == |maximal| ==>
      forall i, j :: 0 <= i < |maximal| && 0 <= j < |maximal| && refutes(prints[i], prints[j]) ==> !below(maximal[i], maximal[j])
  }

  /** A merely sound oracle: a shared class still means equivalence. A query it cannot answer, or answers
      no by mistake, only splits classes. */
  lemma SoundOracleSoundClasses<T(!new), P>(below: (T, T) -> bool, maximal: seq<T>, oracle: (T, T) -> Option<bool>,
                                            prints: seq<P>, refutes: (P, P) -> bool)
    requires Preorder(below) && SoundOracle(below, oracle)
    ensures ClassedSoundly(below, maximal, Numbered(PairTest(maximal, oracle, prints, refutes), |maximal|).classOf)
  {
    SharedClassIsEquivalence(below, maximal, PairTest(maximal, oracle, prints, refutes), |maximal|);
  }

  /** An exact oracle behind a sound prefilter: the classes are the equivalence classes. */
  lemma ExactOracleExactClasses<T(!new), P>(below: (T, T) -> bool, maximal: seq<T>, oracle: (T, T) -> Option<bool>,
                                            prints: seq<P>, refutes: (P, P) -> bool, i: nat, j: nat)
    requires Preorder(below) && ExactOracle(below, oracle) && SoundFilter(below, maximal, prints, refutes)
    requires i < |maximal| && j < |maximal|
    ensures var classOf := Numbered(PairTest(maximal, oracle, prints, refutes), |maximal|).classOf;
            classOf[i] == classOf[j] <==> Equivalent(below, maximal[i], maximal[j])
  {
    hide Numbered;
    var test := PairTest(maximal, oracle, prints, refutes);
    if j < i { ClassIffEquivalent(below, maximal, test, |maximal|, i, j); }
    if i < j { ClassIffEquivalent(below, maximal, test, |maximal|, j, i); }
  }

  lemma {:induction false} SameTestSameClasses(test: Test, test': Test, n: nat)
    requires forall i: nat, j: nat :: j < i < n ==> test(i, j) == test'(i, j)
    ensures Numbered(test, n) == Numbered(test', n)
  {
    if n > 0 {
      SameTestSameClasses(test, test', n - 1);
      SameFirstMatch(test, test', n - 1, 0);
    }
  }

  lemma {:induction false} SameFirstMatch(test: Test, test': Test, i: nat, j: nat)
    requires j <= i && forall k: nat :: k < i ==> test(i, k) == test'(i, k)
    ensures FirstMatch(test, i, j) == FirstMatch(test', i, j)
    decreases i - j
  {
    if j < i { SameFirstMatch(test, test', i, j + 1); }
  }

  /** A sound prefilter skips oracle calls and changes nothing else, even over a merely sound oracle. */
  lemma FilterChangesNothing<T(!new), P>(below: (T, T) -> bool, maximal: seq<T>, oracle: (T, T) -> Option<bool>,
                                         prints: seq<P>, refutes: (P, P) -> bool, none: seq<P>)
    requires SoundOracle(below, oracle) && SoundFilter(below, maximal, prints, refutes)
    requires |none| == 0 && |maximal| > 0
    ensures Numbered(PairTest(maximal, oracle, prints, refutes), |maximal|)
         == Numbered(PairTest(maximal, oracle, none, refutes), |maximal|)
  {
    var filtered, plain := PairTest(maximal, oracle, prints, refutes), PairTest(maximal, oracle, none, refutes);
    SameTestSameClasses(filtered, plain, |maximal|);
  }
}
