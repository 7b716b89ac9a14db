/** Clauses for every group of comparisons that share variables, and what all of them say together. */
module DomainRequirements {
  import opened Clauses
  import opened CnfSynthesis
  import opened Comparisons
  import opened ForallExists
  import opened Thresholds
  import opened VariableGroups
  import opened Wrappers

  /** The declared type of a variable; one without a type is read as real. */
  datatype VariableType = RealType | IntegerType | UnsignedType

  type Types = string -> VariableType

  predicate IsInteger(t: VariableType) {
    !t.RealType?
  }

  function DomainOf(types: Types): Domain {
    (v: string, x: real) => InDomain(x, IsInteger(types(v)), types(v).UnsignedType?)
  }

  /** A value for every variable: any real, a whole number, or one that is not negative, as it is declared. */
  ghost predicate Typed(types: Types, at: Valuation) {
    forall v: string ::
      && (types(v).IntegerType? ==> exists k: int :: at(v) == Whole(k))
      && (types(v).UnsignedType? ==> exists k: nat :: at(v) == Whole(k))
  }

  function Whole(k: int): real { k as real }

  /** What a comparison says of two values. */
  predicate Says(c: Comparison, x: real, y: real) {
    && (c.op.Lt? ==> x < y) && (c.op.Le? ==> x <= y) && (c.op.Gt? ==> x > y) && (c.op.Ge? ==> x >= y)
    && (c.op.Eq? ==> x == y) && (c.op.Ne? ==> x != y)
  }

  /** Some values of the variables, each of its type, give the comparisons of `g` the truth values `w`. */
  ghost predicate GivenBy(entries: seq<Entry>, arith: Arithmetic, types: Types, g: seq<nat>, w: Vector)
    requires |w| == |g| && InRange(entries, g)
  {
    exists at: Valuation :: Typed(types, at) && GivesGroup(entries, arith, g, at, w)
  }

  predicate GivesGroup(entries: seq<Entry>, arith: Arithmetic, g: seq<nat>, at: Valuation, w: Vector)
    requires |w| == |g| && InRange(entries, g)
  {
    forall n :: 0 <= n < |g| ==>
      g[n] in g &&
      var c := entries[g[n]].comparison; w[n] <==> Says(c, Value(c.left, at, arith), Value(c.right, at, arith))
  }

  /** The same of all the comparisons at once. */
  ghost predicate GivenTogether(entries: seq<Entry>, arith: Arithmetic, types: Types, vector: Vector)
    requires |vector| == |entries|
  {
    exists at: Valuation :: Typed(types, at) && GivesEach(entries, arith, at, vector)
  }

  predicate GivesEach(entries: seq<Entry>, arith: Arithmetic, at: Valuation, vector: Vector)
    requires |vector| == |entries|
  {
    forall i :: 0 <= i < |entries| ==>
      var c := entries[i].comparison; vector[i] <==> Says(c, Value(c.left, at, arith), Value(c.right, at, arith))
  }

  lemma TypedIsWithin(types: Types, at: Valuation)
    ensures Typed(types, at) <==> Within(at, DomainOf(types))
  {
    if Typed(types, at) {
      forall v: string ensures DomainOf(types)(v, at(v)) { WholeValue(types, at, v); }
    }
    if Within(at, DomainOf(types)) {
      forall v: string
        ensures types(v).IntegerType? ==> exists k: int :: at(v) == Whole(k)
        ensures types(v).UnsignedType? ==> exists k: nat :: at(v) == Whole(k)
      {
        assert DomainOf(types)(v, at(v));
        assert InDomain(at(v), IsInteger(types(v)), types(v).UnsignedType?);
        if !types(v).RealType? { assert Whole(at(v).Floor) == at(v).Floor as real; }
      }
    }
  }

  lemma WholeValue(types: Types, at: Valuation, v: string)
    requires Typed(types, at)
    ensures DomainOf(types)(v, at(v))
  {
    if types(v).IntegerType? {
      var k: int :| at(v) == Whole(k);
      assert at(v).Floor == k;
    } else if types(v).UnsignedType? {
      var k: nat :| at(v) == Whole(k);
      assert at(v).Floor == k;
    }
  }

  lemma GroupGivenIsRealised(entries: seq<Entry>, arith: Arithmetic, types: Types, g: seq<nat>, w: Vector)
    requires |w| == |g| && InRange(entries, g)
    ensures GivenBy(entries, arith, types, g, w) <==> VariableGroups.Realised(entries, arith, DomainOf(types), g, w)
  {
    forall at: Valuation ensures Typed(types, at) <==> Within(at, DomainOf(types)) { TypedIsWithin(types, at); }
    forall at: Valuation ensures GivesGroup(entries, arith, g, at, w) <==> Matches(entries, arith, g, at, w) {
      forall n | 0 <= n < |g| ensures g[n] in g {}
    }
  }

  lemma GivenTogetherIsRealised(entries: seq<Entry>, arith: Arithmetic, types: Types, vector: Vector)
    requires |vector| == |entries|
    ensures GivenTogether(entries, arith, types, vector) <==> JointlyRealised(entries, arith, DomainOf(types), vector)
  {
    forall at: Valuation ensures Typed(types, at) <==> Within(at, DomainOf(types)) { TypedIsWithin(types, at); }
    forall at: Valuation ensures GivesEach(entries, arith, at, vector) <==> GivesAll(entries, arith, at, vector) {}
  }

  datatype Failure = TooLarge(group: seq<nat>) | Undecided(group: seq<nat>)

  datatype Outcome<+T> = Solved(value: T) | Failed(failure: Failure)

  const MAX_GROUP := 16

  // -- A group that samples decide --------------------------------------------------------------

  /** Every comparison of the group is of `name` with a number. */
  predicate AllAgainst(entries: seq<Entry>, g: seq<nat>, name: string) {
    forall n :: 0 <= n < |g| ==> AgainstName(entries, g[n], name)
  }

  predicate AgainstName(entries: seq<Entry>, i: nat, name: string) {
    i < |entries| && AgainstConstant(entries[i].comparison).Some? && AgainstConstant(entries[i].comparison).value.name == name
  }

  function Preds(entries: seq<Entry>, g: seq<nat>, name: string): (preds: seq<Comparisons.Pred>)
    requires AllAgainst(entries, g, name)
    ensures |preds| == |g|
  {
    seq(|g|, n requires 0 <= n < |g| =>
      assert AgainstName(entries, g[n], name);
      var a := AgainstConstant(entries[g[n]].comparison).value; Comparisons.Pred(a.op, a.c))
  }

  lemma MatchesIsVector(entries: seq<Entry>, arith: Arithmetic, g: seq<nat>, name: string, at: Valuation, w: Vector)
    requires AllAgainst(entries, g, name) && |w| == |g| && InRange(entries, g)
    ensures Matches(entries, arith, g, at, w) <==> w == VectorAt(Preds(entries, g, name), at(name))
  {
    var preds := Preds(entries, g, name);
    forall n | 0 <= n < |g|
      ensures Truth(entries[g[n]].comparison, at, arith) == OpHolds(preds[n].op, at(name), preds[n].c)
    {
      assert AgainstName(entries, g[n], name);
      AgainstConstantMeans(entries[g[n]].comparison, at, arith);
    }
  }

  /** Sampling one variable decides what values of all variables give the group. */
  lemma SamplingIsRealising(entries: seq<Entry>, arith: Arithmetic, types: Types, g: seq<nat>, name: string, w: Vector)
    requires AllAgainst(entries, g, name) && |w| == |g| && InRange(entries, g)
    ensures Comparisons.Realised(Preds(entries, g, name), IsInteger(types(name)), types(name).UnsignedType?, w)
       <==> VariableGroups.Realised(entries, arith, DomainOf(types), g, w)
  {
    var preds := Preds(entries, g, name);
    if x :| InDomain(x, IsInteger(types(name)), types(name).UnsignedType?) && w == VectorAt(preds, x) {
      var at: Valuation := (v: string) => if v == name then x else 0.0;
      ZeroInDomain();
      MatchesIsVector(entries, arith, g, name, at, w);
      assert Within(at, DomainOf(types));
    }
    if at: Valuation :| Within(at, DomainOf(types)) && Matches(entries, arith, g, at, w) {
      MatchesIsVector(entries, arith, g, name, at, w);
      assert DomainOf(types)(name, at(name));
    }
  }

  lemma ZeroInDomain()
    ensures forall integer, unsigned :: InDomain(0.0, integer, unsigned)
  {
    assert (0.0).Floor == 0;
  }

  // -- One group --------------------------------------------------------------------------------

  /** The clauses of a group admit exactly what some values give it. */
  ghost predicate GroupExact(entries: seq<Entry>, arith: Arithmetic, types: Types, g: seq<nat>, clauses: seq<Clause>) {
    InRange(entries, g) &&
    forall w: Vector :: |w| == |g| ==> (Admits(clauses, w) <==> GivenBy(entries, arith, types, g, w))
  }

  /** The name the first comparison of a group is about, if that is of a variable with a number. */
  function FirstName(entries: seq<Entry>, g: seq<nat>): Option<string>
    requires g != [] && InRange(entries, g)
  {
    assert g[0] in g;
    var first := AgainstConstant(entries[g[0]].comparison);
    if first.None? then None else Some(first.value.name)
  }

  /** A solver for each group that finds what values give it. */
  ghost predicate SolvesGroups(solver: seq<nat> -> set<Vector> -> Verdict, entries: seq<Entry>, arith: Arithmetic,
                               types: Types)
  {
    forall g :: InRange(entries, g) ==>
      FindsRealised(solver(g), |g|, (w: Vector) => |w| == |g| && GivenBy(entries, arith, types, g, w))
  }

  /** A group past the limit, or one the solver leaves open. */
  ghost predicate Fails(solver: seq<nat> -> set<Vector> -> Verdict, g: seq<nat>, failure: Failure) {
    || (failure == TooLarge(g) && |g| > 16)
    || (failure == Undecided(g) && exists blocked: set<Vector> :: solver(g)(blocked).Unknown?)
  }

  /** Sampled when every comparison sets the same variable against a number, solved otherwise. */
  method ClausesOfGroup(entries: seq<Entry>, g: seq<nat>, types: Types, solver: seq<nat> -> set<Vector> -> Verdict,
                        ghost arith: Arithmetic)
    returns (clauses: Outcome<seq<Clause>>)
    requires g != [] && InRange(entries, g) && SolvesGroups(solver, entries, arith, types)
    ensures clauses.Solved? ==> |g| <= 16 && GroupExact(entries, arith, types, g, clauses.value)
    ensures clauses.Failed? ==> Fails(solver, g, clauses.failure)
    ensures clauses == Failed(TooLarge(g)) <==> |g| > 16
  {
    if |g| > MAX_GROUP {
      return Failed(TooLarge(g));
    }
    var name := FirstName(entries, g);
    if name.Some? && AllAgainst(entries, g, name.value) {
      var t := types(name.value);
      var sampled := DomainClauses(Preds(entries, g, name.value), IsInteger(t), t.UnsignedType?);
      forall w: Vector | |w| == |g| ensures Admits(sampled, w) <==> GivenBy(entries, arith, types, g, w) {
        SamplingIsRealising(entries, arith, types, g, name.value, w);
        GroupGivenIsRealised(entries, arith, types, g, w);
      }
      return Solved(sampled);
    }
    var vectors := SmtVectors(|g|, solver(g), (w: Vector) => |w| == |g| && GivenBy(entries, arith, types, g, w));
    if vectors.None? {
      return Failed(Undecided(g));
    }
    var exact := ExactClauses(vectors.value, |g|, c => 0.0);
    clauses := Solved(exact);
  }

  // -- All groups -------------------------------------------------------------------------------

  /** Clauses for each group. Together they admit exactly the truth vectors of all the comparisons that
      some values of the variables give at once. A group too large or undecided is the only failure. */
  method ClausesOfAll(entries: seq<Entry>, types: Types, solver: seq<nat> -> set<Vector> -> Verdict, ghost arith: Arithmetic)
    returns (clauses: Outcome<map<seq<nat>, seq<Clause>>>)
    requires Listed(entries) && SolvesGroups(solver, entries, arith, types)
    ensures clauses.Solved? ==> IsGrouping(entries, clauses.value.Keys)
    ensures clauses.Solved? ==> forall vector: Vector :: |vector| == |entries| ==>
              (AdmittedByAll(entries, clauses.value, vector) <==> GivenTogether(entries, arith, types, vector))
    ensures clauses.Failed? ==> exists g :: g != [] && InRange(entries, g) && Fails(solver, g, clauses.failure)
  {
    var groups := Groups(entries);
    var solved: map<seq<nat>, seq<Clause>> := map[];
    var rest := groups;
    while rest != {}
      invariant rest <= groups && solved.Keys == groups - rest
      invariant forall g :: g in solved ==> GroupExact(entries, arith, types, g, solved[g])
      decreases rest
    {
      var g :| g in rest;
      var one := ClausesOfGroup(entries, g, types, solver, arith);
      if one.Failed? {
        return Failed(one.failure);
      }
      solved, rest := solved[g := one.value], rest - {g};
    }
    clauses := Solved(solved);
    assert solved.Keys == groups;
    forall vector: Vector | |vector| == |entries|
      ensures AdmittedByAll(entries, solved, vector) <==> GivenTogether(entries, arith, types, vector)
    {
      AllExact(entries, arith, types, solved, vector);
    }
  }

  ghost predicate AdmittedByAll(entries: seq<Entry>, clauses: map<seq<nat>, seq<Clause>>, vector: Vector)
    requires |vector| == |entries|
  {
    forall g :: g in clauses ==> InRange(entries, g) && Admits(clauses[g], Restrict(vector, g))
  }

  lemma AllExact(entries: seq<Entry>, arith: Arithmetic, types: Types, clauses: map<seq<nat>, seq<Clause>>, vector: Vector)
    requires Listed(entries) && |vector| == |entries| && IsGrouping(entries, clauses.Keys)
    requires forall g :: g in clauses ==> GroupExact(entries, arith, types, g, clauses[g])
    ensures AdmittedByAll(entries, clauses, vector) <==> GivenTogether(entries, arith, types, vector)
  {
    ZeroInDomain();
    var zero: Valuation := (v: string) => 0.0;
    assert Within(zero, DomainOf(types));
    forall g, w: Vector | g in clauses.Keys && |w| == |g|
      ensures Admits(clauses[g], w) <==> VariableGroups.Realised(entries, arith, DomainOf(types), g, w)
    {
      assert GroupExact(entries, arith, types, g, clauses[g]);
      GroupGivenIsRealised(entries, arith, types, g, w);
    }
    GivenTogetherIsRealised(entries, arith, types, vector);
    ConjunctionIsJointlyExact(entries, arith, DomainOf(types), clauses.Keys, clauses, vector);
  }
}
