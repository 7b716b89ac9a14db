/** Which formulas are their own normal form. */
module NormalForms {
  import opened CanonicalForms
  import opened Ltl
  import opened Realizability

  // -- Sorted forms -----------------------------------------------------------------------------

  /** Every chain strictly ascending, every equivalence in order. */
  ghost predicate SortedForm(less: Comparison, f: Formula)
    decreases f, 0
  {
    match f
    case Atom(_) => true
    case Not(g) => SortedForm(less, g)
    case Next(g) => SortedForm(less, g)
    case Eventually(g) => SortedForm(less, g)
    case Globally(g) => SortedForm(less, g)
    case And(g, h) => StrictlyAscending(less, Flatten(f, Conjunction))
                      && SortedParts(less, g, Conjunction) && SortedParts(less, h, Conjunction)
    case Or(g, h) => StrictlyAscending(less, Flatten(f, Disjunction))
                     && SortedParts(less, g, Disjunction) && SortedParts(less, h, Disjunction)
    case Iff(g, h) => (g == h || less(g, h)) && SortedForm(less, g) && SortedForm(less, h)
    case _ => SortedForm(less, f.left) && SortedForm(less, f.right)
  }

  ghost predicate SortedParts(less: Comparison, f: Formula, kind: Chained)
    decreases f, 1
  {
    if IsChain(f, kind) then SortedParts(less, f.left, kind) && SortedParts(less, f.right, kind) else SortedForm(less, f)
  }

  ghost predicate AllSorted(less: Comparison, ops: seq<Formula>) {
    forall f :: f in ops ==> SortedForm(less, f)
  }

  lemma AllSortedJoins(less: Comparison, a: seq<Formula>, b: seq<Formula>)
    ensures AllSorted(less, a + b) <==> AllSorted(less, a) && AllSorted(less, b)
  {
    hide SortedForm;
    forall f | f in a || f in b ensures f in a + b {}
  }

  lemma {:induction false} PartsAreSorted(less: Comparison, f: Formula, kind: Chained)
    ensures SortedParts(less, f, kind) <==> AllSorted(less, Flatten(f, kind))
  {
    if IsChain(f, kind) {
      PartsAreSorted(less, f.left, kind);
      PartsAreSorted(less, f.right, kind);
      AllSortedJoins(less, Flatten(f.left, kind), Flatten(f.right, kind));
    } else {
      assert f in Flatten(f, kind);
    }
  }

  lemma ChainIsSorted(less: Comparison, f: Formula, kind: Chained)
    requires IsChain(f, kind)
    ensures SortedForm(less, f) <==> StrictlyAscending(less, Flatten(f, kind)) && AllSorted(less, Flatten(f, kind))
  {
    PartsAreSorted(less, f.left, kind);
    PartsAreSorted(less, f.right, kind);
    AllSortedJoins(less, Flatten(f.left, kind), Flatten(f.right, kind));
  }

  /** No operand is itself a chain of the connective. */
  predicate NoneChained(ops: seq<Formula>, kind: Chained) {
    forall f :: f in ops ==> !IsChain(f, kind)
  }

  lemma {:induction false} FlattenUnchains(f: Formula, kind: Chained)
    ensures NoneChained(Flatten(f, kind), kind)
  {
    if IsChain(f, kind) {
      FlattenUnchains(f.left, kind);
      FlattenUnchains(f.right, kind);
    }
  }

  lemma {:induction false} FlattenOpensChain(kind: Chained, ops: seq<Formula>)
    requires ops != [] && NoneChained(ops, kind)
    ensures Flatten(Chain(kind, ops), kind) == ops
    ensures |ops| > 1 ==> IsChain(Chain(kind, ops), kind)
  {
    var n := |ops| - 1;
    assert ops[n] in ops;
    if n > 0 {
      FlattenOpensChain(kind, ops[..n]);
      assert Flatten(ops[n], kind) == [ops[n]];
      assert ops == ops[..n] + [ops[n]];
    } else {
      assert ops == [ops[0]];
    }
  }

  /** The operands of a chain, arranged. */
  function Arranged(less: Comparison, f: Formula, kind: Chained): (ops: seq<Formula>)
    requires IsChain(f, kind)
    ensures ops != []
  {
    Unique(Sort(less, Operands(less, f, kind)))
  }

  lemma {:induction false} OperandsAreSorted(less: Comparison, f: Formula, kind: Chained)
    requires TotalOrder(less)
    ensures AllSorted(less, Operands(less, f, kind)) && NoneChained(Operands(less, f, kind), kind)
    decreases f, 2
  {
    if IsChain(f, kind) {
      OperandsAreSorted(less, f.left, kind);
      OperandsAreSorted(less, f.right, kind);
      AllSortedJoins(less, Operands(less, f.left, kind), Operands(less, f.right, kind));
    } else {
      var g := Canonical(less, f);
      CanonicalSorted(less, f);
      FlattenUnchains(g, kind);
      if IsChain(g, kind) { ChainIsSorted(less, g, kind); } else { PartsAreSorted(less, g, kind); }
    }
  }

  lemma {:induction false} ArrangedIsSorted(less: Comparison, f: Formula, kind: Chained)
    requires TotalOrder(less) && IsChain(f, kind)
    ensures var ops := Arranged(less, f, kind);
            && Flatten(Canonical(less, f), kind) == ops && StrictlyAscending(less, ops) && AllSorted(less, ops)
            && (forall g :: g in ops <==> g in Operands(less, f, kind))
            && SortedForm(less, Canonical(less, f))
    decreases f, 0
  {
    hide SortedForm, Unique, Sort, TotalOrder, StrictlyAscending;
    var all, ops := Operands(less, f, kind), Arranged(less, f, kind);
    ChainOperandsAreSorted(less, f, kind);
    SortMembers(less, all);
    UniqueMembers(Sort(less, all));
    SortAscends(less, all);
    UniqueAscends(less, Sort(less, all));
    FlattenOpensChain(kind, ops);
    assert Canonical(less, f) == Chain(kind, ops);
    if |ops| > 1 { ChainIsSorted(less, Chain(kind, ops), kind); } else { assert ops[0] in ops; }
  }

  lemma {:induction false} ChainOperandsAreSorted(less: Comparison, f: Formula, kind: Chained)
    requires TotalOrder(less) && IsChain(f, kind)
    ensures AllSorted(less, Operands(less, f, kind)) && NoneChained(Operands(less, f, kind), kind)
    decreases f, 0, 0
  {
    OperandsAreSorted(less, f.left, kind);
    OperandsAreSorted(less, f.right, kind);
    AllSortedJoins(less, Operands(less, f.left, kind), Operands(less, f.right, kind));
  }

  lemma {:induction false} CanonicalSorted(less: Comparison, f: Formula)
    requires TotalOrder(less)
    ensures SortedForm(less, Canonical(less, f))
    decreases f, 1
  {
    if f.And? { ArrangedIsSorted(less, f, Conjunction); }
    else if f.Or? { ArrangedIsSorted(less, f, Disjunction); }
    else if IsUnary(f) { CanonicalSorted(less, f.child); }
    else if !f.Atom? {
      CanonicalSorted(less, f.left);
      CanonicalSorted(less, f.right);
    }
  }

  // -- Chains that lean to the left -------------------------------------------------------------

  /** No conjunction or disjunction has its own kind on its right. */
  predicate LeansLeft(f: Formula) {
    match f
    case Atom(_) => true
    case Not(g) => LeansLeft(g)
    case Next(g) => LeansLeft(g)
    case Eventually(g) => LeansLeft(g)
    case Globally(g) => LeansLeft(g)
    case And(g, h) => !h.And? && LeansLeft(g) && LeansLeft(h)
    case Or(g, h) => !h.Or? && LeansLeft(g) && LeansLeft(h)
    case _ => LeansLeft(f.left) && LeansLeft(f.right)
  }

  predicate AllLean(ops: seq<Formula>) {
    forall f :: f in ops ==> LeansLeft(f)
  }

  lemma {:induction false} FlattenLeans(f: Formula, kind: Chained)
    requires LeansLeft(f)
    ensures AllLean(Flatten(f, kind))
  {
    if IsChain(f, kind) {
      FlattenLeans(f.left, kind);
      FlattenLeans(f.right, kind);
    }
  }

  lemma {:induction false} ChainLeans(kind: Chained, ops: seq<Formula>)
    requires ops != [] && AllLean(ops) && NoneChained(ops, kind)
    ensures LeansLeft(Chain(kind, ops))
  {
    assert ops[|ops| - 1] in ops;
    if |ops| > 1 { ChainLeans(kind, ops[..|ops| - 1]); }
  }

  lemma {:induction false} OperandsLean(less: Comparison, f: Formula, kind: Chained)
    ensures AllLean(Operands(less, f, kind)) && NoneChained(Operands(less, f, kind), kind)
    decreases f, 2
  {
    if IsChain(f, kind) {
      OperandsLean(less, f.left, kind);
      OperandsLean(less, f.right, kind);
    } else {
      CanonicalLeans(less, f);
      FlattenLeans(Canonical(less, f), kind);
      FlattenUnchains(Canonical(less, f), kind);
    }
  }

  lemma {:induction false} ArrangedLeans(less: Comparison, f: Formula, kind: Chained)
    requires IsChain(f, kind)
    ensures LeansLeft(Canonical(less, f))
    decreases f, 0
  {
    hide Sort, Unique;
    var ops := Operands(less, f.left, kind) + Operands(less, f.right, kind);
    OperandsLean(less, f.left, kind);
    OperandsLean(less, f.right, kind);
    SortMembers(less, ops);
    UniqueMembers(Sort(less, ops));
    ChainLeans(kind, Unique(Sort(less, ops)));
  }

  lemma {:induction false} CanonicalLeans(less: Comparison, f: Formula)
    ensures LeansLeft(Canonical(less, f))
    decreases f, 1
  {
    if f.And? { ArrangedLeans(less, f, Conjunction); }
    else if f.Or? { ArrangedLeans(less, f, Disjunction); }
    else if IsUnary(f) { CanonicalLeans(less, f.child); }
    else if !f.Atom? { CanonicalLeans(less, f.left); CanonicalLeans(less, f.right); }
  }

  // -- Formulas that stay as they are -----------------------------------------------------------

  /** Operands in order and once each, no double negation, chains to the left. */
  ghost predicate IsNormal(less: Comparison, f: Formula) {
    SortedForm(less, f) && Unnegated(f) && LeansLeft(f)
  }

  lemma {:induction false} SortStays(less: Comparison, ops: seq<Formula>)
    requires TotalOrder(less) && StrictlyAscending(less, ops)
    ensures Sort(less, ops) == ops && Unique(ops) == ops
  {
    if |ops| > 1 {
      SortStays(less, ops[1..]);
      assert less(ops[0], ops[1]) && ops[1..][0] == ops[1] && ops == [ops[0]] + ops[1..];
    } else if |ops| == 1 {
      assert ops[1..] == [];
    }
  }

  lemma {:induction false} ChainOfFlat(f: Formula, kind: Chained)
    requires LeansLeft(f)
    ensures Chain(kind, Flatten(f, kind)) == f
  {
    if IsChain(f, kind) {
      var ops := Flatten(f, kind);
      ChainOfFlat(f.left, kind);
      assert Flatten(f.right, kind) == [f.right];
      assert ops[..|ops| - 1] == Flatten(f.left, kind) && ops[|ops| - 1] == f.right;
    }
  }

  lemma {:induction false} NormalParts(less: Comparison, f: Formula, kind: Chained)
    requires TotalOrder(less) && SortedParts(less, f, kind) && Unnegated(f) && LeansLeft(f)
    ensures Operands(less, f, kind) == Flatten(f, kind)
    decreases f, 2
  {
    if IsChain(f, kind) {
      NormalParts(less, f.left, kind);
      NormalParts(less, f.right, kind);
    } else {
      NormalStays(less, f);
    }
  }

  lemma {:induction false} NormalChainStays(less: Comparison, f: Formula, kind: Chained)
    requires TotalOrder(less) && IsNormal(less, f) && IsChain(f, kind)
    ensures Canonical(less, f) == f
    decreases f, 0
  {
    NormalParts(less, f.left, kind);
    NormalParts(less, f.right, kind);
    SortStays(less, Flatten(f, kind));
    ChainOfFlat(f, kind);
  }

  lemma {:induction false} NormalStays(less: Comparison, f: Formula)
    requires TotalOrder(less) && IsNormal(less, f)
    ensures Canonical(less, f) == f
    decreases f, 1
  {
    if f.And? { NormalChainStays(less, f, Conjunction); }
    else if f.Or? { NormalChainStays(less, f, Disjunction); }
    else if IsUnary(f) { NormalStays(less, f.child); }
    else if !f.Atom? { NormalStays(less, f.left); NormalStays(less, f.right); }
  }

  /** The normal forms are exactly the formulas whose operands are in order and once each, without double
      negation, and chained to the left; and the normal form of any formula is one. */
  lemma NormalExactly(less: Comparison, f: Formula)
    requires TotalOrder(less)
    ensures Canonical(less, f) == f <==> IsNormal(less, f)
    ensures IsNormal(less, Canonical(less, f)) && Canonical(less, Canonical(less, f)) == Canonical(less, f)
  {
    hide SortedForm, Unnegated, LeansLeft, Canonical, TotalOrder;
    CanonicalSorted(less, f);
    CanonicalUnnegated(less, f);
    CanonicalLeans(less, f);
    NormalStays(less, Canonical(less, f));
    if IsNormal(less, f) { NormalStays(less, f); }
  }
}
