/** Constraints on comparisons that relate input variables to output variables. */
module ForallExists {
  import opened Clauses
  import opened CnfSynthesis
  import opened Wrappers

  /** A solver's answer to one query. */
  datatype Verdict = Unknown | Unsat | Sat(vector: Vector)

  /** Asked for a realised vector outside the given set, the solver finds one, says that there is none,
      or gives up. */
  ghost predicate FindsRealised(solver: set<Vector> -> Verdict, k: nat, realised: Vector -> bool) {
    forall blocked: set<Vector> :: FindsOutside(solver(blocked), blocked, k, realised)
  }

  ghost predicate FindsOutside(verdict: Verdict, blocked: set<Vector>, k: nat, realised: Vector -> bool) {
    match verdict
    case Unknown => true
    case Unsat => forall v: Vector :: |v| == k && realised(v) ==> v in blocked
    case Sat(v) => |v| == k && realised(v) && v !in blocked
  }

  /** Enumerates the realised vectors, blocking each one found. */
  method SmtVectors(k: nat, solver: set<Vector> -> Verdict, ghost realised: Vector -> bool)
    returns (vectors: Option<set<Vector>>)
    requires FindsRealised(solver, k, realised)
    ensures vectors.Some? ==> Sized(vectors.value, k)
    ensures vectors.Some? ==> forall v: Vector :: |v| == k ==> (v in vectors.value <==> realised(v))
    ensures vectors.None? ==> exists blocked :: solver(blocked).Unknown?
  {
    var found: set<Vector> := {};
    ghost var unseen := Unblocked(k, found);
    while true
      invariant Sized(found, k) && forall v :: v in found ==> realised(v)
      decreases Unblocked(k, found)
    {
      var verdict := solver(found);
      assert FindsOutside(verdict, found, k, realised);
      match verdict {
        case Unknown => return None;
        case Unsat => return Some(found);
        case Sat(v) =>
          ProductComplete(k, v);
          assert v in Unblocked(k, found) && v !in Unblocked(k, found + {v});
          found := found + {v};
      }
    }
  }

  ghost function Unblocked(k: nat, blocked: set<Vector>): set<Vector> {
    set v | v in Product(k) && v !in blocked
  }

  // -- The two sides ----------------------------------------------------------------------------

  /** What the values of the input and output variables make of the comparisons. */
  datatype Sides<!X, !Y> = Sides(
    kIn: nat, kOut: nat, inDomain: X -> bool, outDomain: Y -> bool, ins: X -> Vector, outs: (X, Y) -> Vector)

  ghost predicate SidesSized<X(!new), Y(!new)>(s: Sides<X, Y>) {
    && (forall x :: |s.ins(x)| == s.kIn)
    && (forall x, y :: |s.outs(x, y)| == s.kOut)
    && (exists y :: s.outDomain(y))
  }

  /** Some allowed input value gives `i`. */
  ghost predicate RealInput<X(!new), Y(!new)>(s: Sides<X, Y>, i: Vector) {
    exists x :: s.inDomain(x) && s.ins(x) == i
  }

  /** At input value `x`, some allowed output value gives `o`. */
  ghost predicate Reaches<X(!new), Y(!new)>(s: Sides<X, Y>, x: X, o: Vector) {
    exists y :: s.outDomain(y) && s.outs(x, y) == o
  }

  ghost predicate RealisedTogether<X(!new), Y(!new)>(s: Sides<X, Y>, v: Vector) {
    exists x :: s.inDomain(x) && s.kIn <= |v| && s.ins(x) == v[..s.kIn] && Reaches(s, x, v[s.kIn..])
  }

  /** Whatever the input behind `i`, the output can still be chosen so as to give `o`. */
  ghost predicate AlwaysReaches<X(!new), Y(!new)>(s: Sides<X, Y>, i: Vector, o: Vector) {
    forall x :: s.inDomain(x) && s.ins(x) == i ==> Reaches(s, x, o)
  }

  /** Two inputs of one truth vector differ in what they leave reachable. */
  ghost predicate Diverges<X(!new), Y(!new)>(s: Sides<X, Y>) {
    exists v: Vector :: |v| == s.kIn + s.kOut && RealisedTogether(s, v) && !AlwaysReaches(s, v[..s.kIn], v[s.kIn..])
  }

  /** A solver that decides, or declines to decide, whether a vector is always reached. */
  ghost predicate DecidesReach<X(!new), Y(!new)>(s: Sides<X, Y>, reach: (Vector, Vector) -> Option<bool>) {
    forall i, o :: reach(i, o).Some? ==> (reach(i, o).value <==> AlwaysReaches(s, i, o))
  }

  /** Which vectors the clauses are to admit: at an input no value gives, all of them. */
  ghost predicate Wanted<X(!new), Y(!new)>(s: Sides<X, Y>, v: Vector)
    requires |v| == s.kIn + s.kOut
  {
    RealInput(s, v[..s.kIn]) ==> RealisedTogether(s, v) && AlwaysReaches(s, v[..s.kIn], v[s.kIn..])
  }

  datatype Split = Split(vectors: set<Vector>, loose: bool)

  /** The vectors of `both` that are always reached, and whether any is not. */
  method KeepReached<X(!new), Y(!new)>(ghost s: Sides<X, Y>, kIn: nat, both: set<Vector>,
                                       reach: (Vector, Vector) -> Option<bool>)
    returns (split: Option<Split>)
    requires kIn == s.kIn && Sized(both, s.kIn + s.kOut) && DecidesReach(s, reach)
    ensures split.Some? ==> forall v ::
              v in split.value.vectors <==> v in both && |v| >= s.kIn && AlwaysReaches(s, v[..s.kIn], v[s.kIn..])
    ensures split.Some? ==> (split.value.loose <==> split.value.vectors != both)
    ensures split.None? ==> exists i, o :: reach(i, o).None?
  {
    var vectors: set<Vector>, loose := {}, false;
    var rest := both;
    while rest != {}
      invariant rest <= both
      invariant forall v :: v in vectors <==> v in both - rest && |v| >= s.kIn && AlwaysReaches(s, v[..s.kIn], v[s.kIn..])
      invariant loose <==> vectors != both - rest
      decreases rest
    {
      var vec :| vec in rest;
      ghost var done := both - rest;
      rest := rest - {vec};
      assert both - rest == done + {vec};
      var i, o := vec[..kIn], vec[kIn..];
      var verdict := reach(i, o);
      if verdict.None? {
        return None;
      }
      if verdict.value {
        assert vectors + {vec} == done + {vec} <==> vectors == done by { assert vec !in done && vec !in vectors; }
        vectors := vectors + {vec};
      } else {
        assert vec !in vectors;
        loose := true;
      }
    }
    assert both - rest == both;
    split := Some(Split(vectors, loose));
  }

  /** Adds every output vector at each input vector outside `realIn`. */
  method AdmitUnreal(kIn: nat, kOut: nat, realIn: set<Vector>, given: set<Vector>) returns (vectors: set<Vector>)
    ensures forall v :: v in vectors <==>
              v in given || (|v| == kIn + kOut && v[..kIn] !in realIn)
  {
    vectors := given;
    var all := Product(kIn);
    for n := 0 to |all|
      invariant forall v :: v in vectors <==>
        v in given || (|v| == kIn + kOut && v[..kIn] in all[..n] && v[..kIn] !in realIn)
    {
      assert all[..n + 1] == all[..n] + [all[n]];
      ProductComplete(kIn, all[n]);
      if all[n] !in realIn {
        ghost var before := vectors;
        vectors := vectors + Extended(all[n], kOut);
        forall v ensures v in Extended(all[n], kOut) <==> |v| == kIn + kOut && v[..kIn] == all[n] {
          ExtendedIs(all[n], kOut, v);
        }
      }
    }
    forall v: Vector | |v| == kIn + kOut ensures v[..kIn] in all {
      ProductComplete(kIn, v[..kIn]);
    }
    assert all[..|all|] == all;
  }

  function Extended(i: Vector, kOut: nat): set<Vector> {
    set o | o in Product(kOut) :: i + o
  }

  lemma ExtendedIs(i: Vector, kOut: nat, v: Vector)
    ensures v in Extended(i, kOut) <==> |v| == |i| + kOut && v[..|i|] == i
  {
    if |v| == |i| + kOut && v[..|i|] == i {
      ProductComplete(kOut, v[|i|..]);
      assert v == i + v[|i|..];
    }
    if v in Extended(i, kOut) {
      var o :| o in Product(kOut) && v == i + o;
      ProductComplete(kOut, o);
    }
  }

  /** The vectors wanted, and whether two inputs of one truth vector differ in what they reach. */
  method ForallExistsVectors<X(!new), Y(!new)>(ghost s: Sides<X, Y>, kIn: nat, kOut: nat,
      solver: set<Vector> -> Verdict, reach: (Vector, Vector) -> Option<bool>)
    returns (split: Option<Split>)
    requires SidesSized(s) && kIn == s.kIn && kOut == s.kOut
    requires FindsRealised(solver, kIn + kOut, (v: Vector) => RealisedTogether(s, v)) && DecidesReach(s, reach)
    ensures split.Some? ==> Sized(split.value.vectors, kIn + kOut)
    ensures split.Some? ==> forall v: Vector :: |v| == kIn + kOut ==> (v in split.value.vectors <==> Wanted(s, v))
    ensures split.Some? ==> (split.value.loose <==> Diverges(s))
    ensures split.None? ==> (exists blocked :: solver(blocked).Unknown?) || exists i, o :: reach(i, o).None?
  {
    var both := SmtVectors(kIn + kOut, solver, (v: Vector) => RealisedTogether(s, v));
    if both.None? {
      return None;
    }
    var realIn := set v | v in both.value && |v| >= kIn :: v[..kIn];
    var kept := KeepReached(s, kIn, both.value, reach);
    if kept.None? {
      return None;
    }
    var vectors := AdmitUnreal(kIn, kOut, realIn, kept.value.vectors);
    RealInputs(s, both.value, realIn);
    LooseDiverges(s, both.value, kept.value.vectors);
    split := Some(Split(vectors, kept.value.loose));
  }

  lemma RealInputs<X(!new), Y(!new)>(s: Sides<X, Y>, both: set<Vector>, realIn: set<Vector>)
    requires SidesSized(s) && Sized(both, s.kIn + s.kOut)
    requires forall v: Vector :: |v| == s.kIn + s.kOut ==> (v in both <==> RealisedTogether(s, v))
    requires realIn == set v | v in both && |v| >= s.kIn :: v[..s.kIn]
    ensures forall i :: i in realIn <==> RealInput(s, i)
  {
    forall i | RealInput(s, i) ensures i in realIn {
      var x :| s.inDomain(x) && s.ins(x) == i;
      var y :| s.outDomain(y);
      var v := i + s.outs(x, y);
      assert v[..s.kIn] == i && v[s.kIn..] == s.outs(x, y);
      assert Reaches(s, x, s.outs(x, y)) && v in both;
    }
  }

  lemma LooseDiverges<X(!new), Y(!new)>(s: Sides<X, Y>, both: set<Vector>, kept: set<Vector>)
    requires SidesSized(s) && Sized(both, s.kIn + s.kOut)
    requires forall v: Vector :: |v| == s.kIn + s.kOut ==> (v in both <==> RealisedTogether(s, v))
    requires forall v :: v in kept <==> v in both && |v| >= s.kIn && AlwaysReaches(s, v[..s.kIn], v[s.kIn..])
    ensures kept != both <==> Diverges(s)
  {
    if Diverges(s) {
      var v: Vector :| |v| == s.kIn + s.kOut && RealisedTogether(s, v) && !AlwaysReaches(s, v[..s.kIn], v[s.kIn..]);
      assert v in both && v !in kept;
    }
    if kept != both {
      var v :| v in both && v !in kept;
    }
  }

  // -- What the split means for each input value ------------------------------------------------

  ghost predicate Admitted<X(!new), Y(!new)>(s: Sides<X, Y>, clauses: seq<Clause>, x: X, o: Vector) {
    Admits(clauses, s.ins(x) + o)
  }

  /** What an input value may be answered with is always something it leaves reachable; when no two
      inputs of one truth vector diverge, it is everything. */
  lemma WantedIsReachable<X(!new), Y(!new)>(s: Sides<X, Y>, x: X, o: Vector)
    requires SidesSized(s) && s.inDomain(x) && |o| == s.kOut
    ensures Wanted(s, s.ins(x) + o) ==> Reaches(s, x, o)
    ensures !Diverges(s) ==> (Wanted(s, s.ins(x) + o) <==> Reaches(s, x, o))
  {
    var v := s.ins(x) + o;
    assert v[..s.kIn] == s.ins(x) && v[s.kIn..] == o;
    assert RealInput(s, s.ins(x));
    if Reaches(s, x, o) { assert RealisedTogether(s, v); }
  }

  /** Nothing is asked of the output at an input vector that cannot occur. */
  lemma UnrealIsFree<X(!new), Y(!new)>(s: Sides<X, Y>, i: Vector, o: Vector)
    requires |i| == s.kIn && |o| == s.kOut && !RealInput(s, i)
    ensures Wanted(s, i + o)
  {
    assert (i + o)[..s.kIn] == i;
  }

  /** The guarantee of a group that compares inputs with outputs. Either it allows, at every input
      value, exactly the output vectors some output value realises there, or it is the fallback, which
      excludes no vector that some values realise together. */
  method SplitGuarantee<X(!new), Y(!new)>(ghost s: Sides<X, Y>, kIn: nat, kOut: nat,
      solver: set<Vector> -> Verdict, reach: (Vector, Vector) -> Option<bool>)
    returns (clauses: Option<seq<Clause>>, loose: bool)
    requires SidesSized(s) && kIn == s.kIn && kOut == s.kOut
    requires FindsRealised(solver, kIn + kOut, (v: Vector) => RealisedTogether(s, v)) && DecidesReach(s, reach)
    ensures clauses.Some? ==> (loose <==> Diverges(s))
    ensures clauses.Some? && !loose ==>
              forall x, o: Vector :: s.inDomain(x) && |o| == kOut ==>
                (Admitted(s, clauses.value, x, o) <==> Reaches(s, x, o))
    ensures clauses.Some? && loose ==>
              forall v: Vector :: |v| == kIn + kOut ==> (Admits(clauses.value, v) <==> RealisedTogether(s, v))
    ensures clauses.None? ==> (exists blocked :: solver(blocked).Unknown?) || exists i, o :: reach(i, o).None?
  {
    loose := false;
    var split := ForallExistsVectors(s, kIn, kOut, solver, reach);
    if split.None? {
      return None, loose;
    }
    var vectors := split.value.vectors;
    loose := split.value.loose;
    if loose {
      var both := SmtVectors(kIn + kOut, solver, (v: Vector) => RealisedTogether(s, v));
      if both.None? {
        return None, loose;
      }
      vectors := both.value;
    }
    var exact := ExactClauses(vectors, kIn + kOut, c => 0.0);
    clauses := Some(exact);
    if !loose {
      AdmittedExactly(s, exact, vectors);
    }
  }

  lemma AdmittedExactly<X(!new), Y(!new)>(s: Sides<X, Y>, clauses: seq<Clause>, vectors: set<Vector>)
    requires SidesSized(s) && !Diverges(s) && Exact(vectors, clauses, s.kIn + s.kOut)
    requires forall v: Vector :: |v| == s.kIn + s.kOut ==> (v in vectors <==> Wanted(s, v))
    ensures forall x, o: Vector :: s.inDomain(x) && |o| == s.kOut ==> (Admitted(s, clauses, x, o) <==> Reaches(s, x, o))
  {
    forall x, o: Vector | s.inDomain(x) && |o| == s.kOut ensures Admitted(s, clauses, x, o) <==> Reaches(s, x, o) {
      WantedIsReachable(s, x, o);
      assert |s.ins(x) + o| == s.kIn + s.kOut;
    }
  }
}
