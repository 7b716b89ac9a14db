/** The renamed key end to end: what spellings under other names it brings together, and which it does
    not. */
module RenamedKeys {
  import opened ArenaOrder
  import opened CanonicalForms
  import opened FormulaKey
  import opened Ltl
  import opened NormalForms
  import opened Realizability
  import opened Sequences

  /** The formula behind the key: the canonical form with its atoms numbered as they appear. */
  function RenamedKey(less: Comparison, f: Formula): Formula {
    RenamedForm(Canonical(less, f))
  }

  // -- A shared key -----------------------------------------------------------------------------

  /** Two formulas share the key exactly when a one-to-one renaming carries one canonical form to the
      other. */
  lemma SharedKeyExactly(less: Comparison, f: Formula, g: Formula)
    ensures RenamedKey(less, f) == RenamedKey(less, g) <==> SameUpToNames(Canonical(less, f), Canonical(less, g))
  {
    RenamedKeyIsExact(Canonical(less, f), Canonical(less, g));
  }

  /** And then the one says of a trace what the other says of the trace read through the renaming. */
  lemma SharedKeyMeans(less: Comparison, f: Formula, g: Formula) returns (to: Renaming)
    requires RenamedKey(less, f) == RenamedKey(less, g)
    ensures CarriesTo(Canonical(less, f), to, Canonical(less, g))
    ensures forall sigma: Trace :: Same(Sem(sigma, g), Sem(Through(sigma, to), f))
  {
    SharedKeyExactly(less, f, g);
    to :| CarriesTo(Canonical(less, f), to, Canonical(less, g));
    forall sigma: Trace ensures Same(Sem(sigma, g), Sem(Through(sigma, to), f)) { CarriedMeans(less, f, to, g, sigma); }
  }

  lemma CarriedMeans(less: Comparison, f: Formula, to: Renaming, g: Formula, sigma: Trace)
    requires CarriesTo(Canonical(less, f), to, Canonical(less, g))
    ensures Same(Sem(sigma, g), Sem(Through(sigma, to), f))
  {
    hide Sem;
    CanonicalMeans(Through(sigma, to), less, f);
    RenameMeans(Canonical(less, f), to, sigma, Through(sigma, to));
    CanonicalMeans(sigma, less, g);
  }

  // -- A renaming that keeps the comparisons ----------------------------------------------------

  function RenameAll(ops: seq<Formula>, to: Renaming): seq<Formula> {
    seq(|ops|, i requires 0 <= i < |ops| => Rename(ops[i], to))
  }

  /** The operands compare as their renamings do. */
  ghost predicate KeepsOrder(less: Comparison, to: Renaming, ops: seq<Formula>) {
    forall f, g :: f in ops && g in ops ==> (less(f, g) <==> less(Rename(f, to), Rename(g, to)))
  }

  /** And so wherever the canonical form of `f` sorts. */
  ghost predicate KeepsComparisons(less: Comparison, to: Renaming, f: Formula)
    decreases f, 0
  {
    match f
    case Atom(_) => true
    case Not(g) => KeepsComparisons(less, to, g)
    case Next(g) => KeepsComparisons(less, to, g)
    case Eventually(g) => KeepsComparisons(less, to, g)
    case Globally(g) => KeepsComparisons(less, to, g)
    case And(g, h) => KeepsOrder(less, to, Operands(less, f, Conjunction))
                      && KeepsWithin(less, to, g, Conjunction) && KeepsWithin(less, to, h, Conjunction)
    case Or(g, h) => KeepsOrder(less, to, Operands(less, f, Disjunction))
                     && KeepsWithin(less, to, g, Disjunction) && KeepsWithin(less, to, h, Disjunction)
    case Iff(g, h) => KeepsOrder(less, to, [Canonical(less, g), Canonical(less, h)])
                      && KeepsComparisons(less, to, g) && KeepsComparisons(less, to, h)
    case _ => KeepsComparisons(less, to, f.left) && KeepsComparisons(less, to, f.right)
  }

  /** Below the chain of one connective. */
  ghost predicate KeepsWithin(less: Comparison, to: Renaming, f: Formula, kind: Chained)
    decreases f, 1
  {
    if IsChain(f, kind) then KeepsWithin(less, to, f.left, kind) && KeepsWithin(less, to, f.right, kind)
    else KeepsComparisons(less, to, f)
  }

  lemma RenameAllJoins(a: seq<Formula>, b: seq<Formula>, to: Renaming)
    ensures RenameAll(a + b, to) == RenameAll(a, to) + RenameAll(b, to)
  {}

  lemma {:induction false} RenameInjective(f: Formula, g: Formula, to: Renaming, names: set<string>)
    requires KeepsConstants(to) && OneToOne(to, names) && Atoms(f) <= names && Atoms(g) <= names
    requires Rename(f, to) == Rename(g, to)
    ensures f == g
  {
    if f.Atom? {
      if IsConstantAtom(f.name) || IsConstantAtom(g.name) { assert IsConstantAtom(f.name) && IsConstantAtom(g.name); }
    } else if IsUnary(f) {
      RenameInjective(f.child, g.child, to, names);
    } else {
      RenameInjective(f.left, g.left, to, names);
      RenameInjective(f.right, g.right, to, names);
    }
  }

  lemma {:induction false} FlattenFollows(f: Formula, kind: Chained, to: Renaming)
    ensures Flatten(Rename(f, to), kind) == RenameAll(Flatten(f, kind), to)
  {
    if IsChain(f, kind) {
      FlattenFollows(f.left, kind, to);
      FlattenFollows(f.right, kind, to);
      RenameAllJoins(Flatten(f.left, kind), Flatten(f.right, kind), to);
    }
  }

  lemma {:induction false} ChainFollows(kind: Chained, ops: seq<Formula>, to: Renaming)
    requires ops != []
    ensures Chain(kind, RenameAll(ops, to)) == Rename(Chain(kind, ops), to)
  {
    var n := |ops| - 1;
    if n > 0 {
      ChainFollows(kind, ops[..n], to);
      assert RenameAll(ops, to)[..n] == RenameAll(ops[..n], to);
    }
  }

  lemma {:induction false} InsertFollows(less: Comparison, f: Formula, ops: seq<Formula>, to: Renaming)
    requires forall g :: g in ops ==> (less(f, g) <==> less(Rename(f, to), Rename(g, to)))
    ensures Insert(less, Rename(f, to), RenameAll(ops, to)) == RenameAll(Insert(less, f, ops), to)
  {
    if ops == [] {
    } else if less(f, ops[0]) {
      RenameAllJoins([f], ops, to);
      assert RenameAll([f], to) == [Rename(f, to)];
    } else {
      InsertFollows(less, f, ops[1..], to);
      assert RenameAll(ops, to)[1..] == RenameAll(ops[1..], to);
      RenameAllJoins([ops[0]], Insert(less, f, ops[1..]), to);
      assert RenameAll([ops[0]], to) == [Rename(ops[0], to)];
    }
  }

  lemma {:induction false} SortFollows(less: Comparison, ops: seq<Formula>, to: Renaming)
    requires KeepsOrder(less, to, ops)
    ensures Sort(less, RenameAll(ops, to)) == RenameAll(Sort(less, ops), to)
  {
    if ops != [] {
      SortFollows(less, ops[1..], to);
      SortMembers(less, ops[1..]);
      assert RenameAll(ops, to)[1..] == RenameAll(ops[1..], to);
      InsertFollows(less, ops[0], Sort(less, ops[1..]), to);
    }
  }

  lemma {:induction false} UniqueFollows(ops: seq<Formula>, to: Renaming, names: set<string>)
    requires KeepsConstants(to) && OneToOne(to, names) && AtomsWithin(ops, names)
    ensures Unique(RenameAll(ops, to)) == RenameAll(Unique(ops), to)
  {
    if |ops| > 1 {
      assert ops[0] in ops && ops[1] in ops;
      if Rename(ops[0], to) == Rename(ops[1], to) { RenameInjective(ops[0], ops[1], to, names); }
      assert RenameAll(ops, to)[1..] == RenameAll(ops[1..], to);
      UniqueFollows(ops[1..], to, names);
      RenameAllJoins([ops[0]], Unique(ops[1..]), to);
      assert RenameAll([ops[0]], to) == [Rename(ops[0], to)];
    }
  }

  lemma ArrangedFollows(less: Comparison, kind: Chained, ops: seq<Formula>, to: Renaming, names: set<string>)
    requires KeepsConstants(to) && OneToOne(to, names) && AtomsWithin(ops, names)
    requires ops != [] && KeepsOrder(less, to, ops)
    ensures Chain(kind, Unique(Sort(less, RenameAll(ops, to)))) == Rename(Chain(kind, Unique(Sort(less, ops))), to)
  {
    SortFollows(less, ops, to);
    SortMembers(less, ops);
    UniqueFollows(Sort(less, ops), to, names);
    ChainFollows(kind, Unique(Sort(less, ops)), to);
  }

  lemma {:induction false} OperandsFollow(less: Comparison, f: Formula, kind: Chained, to: Renaming, names: set<string>)
    requires KeepsConstants(to) && OneToOne(to, names) && Atoms(f) <= names && KeepsWithin(less, to, f, kind)
    ensures Operands(less, Rename(f, to), kind) == RenameAll(Operands(less, f, kind), to)
    decreases f, 2
  {
    if IsChain(f, kind) {
      OperandsFollow(less, f.left, kind, to, names);
      OperandsFollow(less, f.right, kind, to, names);
      RenameAllJoins(Operands(less, f.left, kind), Operands(less, f.right, kind), to);
    } else {
      CanonicalFollows(less, f, to, names);
      FlattenFollows(Canonical(less, f), kind, to);
    }
  }

  lemma {:induction false} ChainCanonicalFollows(less: Comparison, f: Formula, kind: Chained, to: Renaming,
                                                 names: set<string>)
    requires KeepsConstants(to) && OneToOne(to, names) && Atoms(f) <= names
    requires IsChain(f, kind) && KeepsComparisons(less, to, f)
    ensures Canonical(less, Rename(f, to)) == Rename(Canonical(less, f), to)
    decreases f, 0
  {
    var a, b := Operands(less, f.left, kind), Operands(less, f.right, kind);
    OperandsFollow(less, f.left, kind, to, names);
    OperandsFollow(less, f.right, kind, to, names);
    RenameAllJoins(a, b, to);
    OperandsAtoms(less, f, kind);
    ArrangedFollows(less, kind, a + b, to, names);
  }

  lemma {:induction false} CanonicalFollows(less: Comparison, f: Formula, to: Renaming, names: set<string>)
    requires KeepsConstants(to) && OneToOne(to, names) && Atoms(f) <= names && KeepsComparisons(less, to, f)
    ensures Canonical(less, Rename(f, to)) == Rename(Canonical(less, f), to)
    decreases f, 1
  {
    hide OneToOne, KeepsConstants, KeepsOrder, Operands, Chain, Unique, Sort;
    if f.And? { ChainCanonicalFollows(less, f, Conjunction, to, names); }
    else if f.Or? { ChainCanonicalFollows(less, f, Disjunction, to, names); }
    else if IsUnary(f) { CanonicalFollows(less, f.child, to, names); }
    else if f.Iff? { IffFollows(less, f, to, names); }
    else if !f.Atom? {
      CanonicalFollows(less, f.left, to, names);
      CanonicalFollows(less, f.right, to, names);
    }
  }

  lemma {:induction false} IffFollows(less: Comparison, f: Formula, to: Renaming, names: set<string>)
    requires KeepsConstants(to) && OneToOne(to, names) && Atoms(f) <= names && f.Iff? && KeepsComparisons(less, to, f)
    ensures Canonical(less, Rename(f, to)) == Rename(Canonical(less, f), to)
    decreases f, 0
  {
    hide OneToOne, KeepsConstants;
    var left, right := Canonical(less, f.left), Canonical(less, f.right);
    CanonicalFollows(less, f.left, to, names);
    CanonicalFollows(less, f.right, to, names);
    assert left in [left, right] && right in [left, right];
  }

  /** A formula under other names shares the key where the renaming keeps the comparisons its canonical
      form sorts by. */
  lemma RenamingKeepsKey(less: Comparison, f: Formula, to: Renaming)
    requires KeepsConstants(to) && OneToOne(to, Atoms(f)) && KeepsComparisons(less, to, f)
    ensures RenamedKey(less, Rename(f, to)) == RenamedKey(less, f)
  {
    CanonicalFollows(less, f, to, Atoms(f));
    CanonicalAtoms(less, f);
    CarriedShareKey(Canonical(less, f), to, Canonical(less, Rename(f, to)));
  }

  // -- A canonical image shows the comparisons kept ---------------------------------------------

  lemma AscendingKeepsOrder(less: Comparison, to: Renaming, ops: seq<Formula>)
    requires TotalOrder(less) && StrictlyAscending(less, ops) && StrictlyAscending(less, RenameAll(ops, to))
    ensures KeepsOrder(less, to, ops)
  {
    forall f, g | f in ops && g in ops ensures less(f, g) <==> less(Rename(f, to), Rename(g, to)) {
      var i :| 0 <= i < |ops| && ops[i] == f;
      var j :| 0 <= j < |ops| && ops[j] == g;
      assert RenameAll(ops, to)[i] == Rename(f, to) && RenameAll(ops, to)[j] == Rename(g, to);
    }
  }

  lemma KeepsOrderAscends(less: Comparison, to: Renaming, ops: seq<Formula>)
    requires StrictlyAscending(less, ops) && KeepsOrder(less, to, ops)
    ensures StrictlyAscending(less, RenameAll(ops, to))
  {
    forall i, j | 0 <= i < j < |ops| ensures less(Rename(ops[i], to), Rename(ops[j], to)) {
      assert ops[i] in ops && ops[j] in ops && less(ops[i], ops[j]);
    }
  }

  lemma SortedImageMembers(less: Comparison, to: Renaming, ops: seq<Formula>)
    ensures AllSorted(less, RenameAll(ops, to)) <==> forall f :: f in ops ==> SortedForm(less, Rename(f, to))
  {
    hide SortedForm;
    var images := RenameAll(ops, to);
    forall f | f in ops ensures Rename(f, to) in images {
      var i :| 0 <= i < |ops| && ops[i] == f;
      assert images[i] == Rename(f, to);
    }
    forall g | g in images ensures exists f :: f in ops && g == Rename(f, to) {
      var i :| 0 <= i < |images| && images[i] == g;
      assert ops[i] in ops;
    }
  }

  lemma ImageOfChain(less: Comparison, to: Renaming, f: Formula, kind: Chained)
    requires IsChain(f, kind)
    ensures SortedForm(less, Rename(f, to)) <==>
              StrictlyAscending(less, RenameAll(Flatten(f, kind), to)) && AllSorted(less, RenameAll(Flatten(f, kind), to))
  {
    hide SortedForm;
    FlattenFollows(f, kind, to);
    ChainIsSorted(less, Rename(f, to), kind);
  }

  lemma {:induction false} ImageKeepsWithin(less: Comparison, to: Renaming, names: set<string>, f: Formula, kind: Chained)
    requires KeepsConstants(to) && OneToOne(to, names) && Atoms(f) <= names
    requires TotalOrder(less) && KeepsOrder(less, to, Operands(less, f, kind))
    requires AllSorted(less, RenameAll(Operands(less, f, kind), to))
    ensures KeepsWithin(less, to, f, kind)
    decreases f, 2
  {
    if IsChain(f, kind) {
      RenameAllJoins(Operands(less, f.left, kind), Operands(less, f.right, kind), to);
      AllSortedJoins(less, RenameAll(Operands(less, f.left, kind), to), RenameAll(Operands(less, f.right, kind), to));
      ImageKeepsWithin(less, to, names, f.left, kind);
      ImageKeepsWithin(less, to, names, f.right, kind);
    } else {
      OperandImage(less, to, f, kind);
      ImageKeeps(less, to, names, f);
    }
  }

  lemma OperandImage(less: Comparison, to: Renaming, f: Formula, kind: Chained)
    requires TotalOrder(less) && !IsChain(f, kind) && KeepsOrder(less, to, Operands(less, f, kind))
    requires AllSorted(less, RenameAll(Operands(less, f, kind), to))
    ensures SortedForm(less, Rename(Canonical(less, f), to))
  {
    hide SortedForm;
    var g := Canonical(less, f);
    if IsChain(g, kind) {
      CanonicalSorted(less, f);
      ChainIsSorted(less, g, kind);
      KeepsOrderAscends(less, to, Flatten(g, kind));
      ImageOfChain(less, to, g, kind);
    } else {
      assert Flatten(g, kind) == [g] && RenameAll([g], to)[0] == Rename(g, to);
    }
  }

  lemma {:induction false} ChainImageKeeps(less: Comparison, to: Renaming, names: set<string>, f: Formula, kind: Chained)
    requires KeepsConstants(to) && OneToOne(to, names) && Atoms(f) <= names
    requires TotalOrder(less) && IsChain(f, kind) && SortedForm(less, Rename(Canonical(less, f), to))
    ensures KeepsOrder(less, to, Operands(less, f, kind))
    ensures KeepsWithin(less, to, f.left, kind) && KeepsWithin(less, to, f.right, kind)
    decreases f, 0
  {
    hide SortedForm, Sort, Unique, Canonical;
    var ops := Arranged(less, f, kind);
    ArrangedIsSorted(less, f, kind);
    ImageOfArranged(less, to, f, kind);
    AscendingKeepsOrder(less, to, ops);
    SortedImageMembers(less, to, ops);
    SortedImageMembers(less, to, Operands(less, f, kind));
    RenameAllJoins(Operands(less, f.left, kind), Operands(less, f.right, kind), to);
    AllSortedJoins(less, RenameAll(Operands(less, f.left, kind), to), RenameAll(Operands(less, f.right, kind), to));
    ImageKeepsWithin(less, to, names, f.left, kind);
    ImageKeepsWithin(less, to, names, f.right, kind);
  }

  lemma ImageOfArranged(less: Comparison, to: Renaming, f: Formula, kind: Chained)
    requires TotalOrder(less) && IsChain(f, kind) && SortedForm(less, Rename(Canonical(less, f), to))
    ensures StrictlyAscending(less, RenameAll(Arranged(less, f, kind), to))
    ensures AllSorted(less, RenameAll(Arranged(less, f, kind), to))
  {
    hide SortedForm, Sort, Unique, Canonical;
    var g, ops := Canonical(less, f), Arranged(less, f, kind);
    ArrangedIsSorted(less, f, kind);
    if IsChain(g, kind) { ImageOfChain(less, to, g, kind); }
    else { assert Flatten(g, kind) == [g] && RenameAll([g], to) == [Rename(g, to)]; }
  }

  /** Where the image of the canonical form is in order, the renaming keeps the comparisons. */
  lemma {:induction false} ImageKeeps(less: Comparison, to: Renaming, names: set<string>, f: Formula)
    requires KeepsConstants(to) && OneToOne(to, names) && Atoms(f) <= names
    requires TotalOrder(less) && SortedForm(less, Rename(Canonical(less, f), to))
    ensures KeepsComparisons(less, to, f)
    decreases f, 1
  {
    if f.And? { ChainImageKeeps(less, to, names, f, Conjunction); }
    else if f.Or? { ChainImageKeeps(less, to, names, f, Disjunction); }
    else if IsUnary(f) { ImageKeeps(less, to, names, f.child); }
    else if f.Iff? { IffImageKeeps(less, to, names, f); }
    else if !f.Atom? {
      ImageKeeps(less, to, names, f.left);
      ImageKeeps(less, to, names, f.right);
    }
  }

  lemma {:induction false} IffImageKeeps(less: Comparison, to: Renaming, names: set<string>, f: Formula)
    requires KeepsConstants(to) && OneToOne(to, names) && Atoms(f) <= names
    requires TotalOrder(less) && f.Iff? && SortedForm(less, Rename(Canonical(less, f), to))
    ensures KeepsComparisons(less, to, f)
    decreases f, 0
  {
    CanonicalAtoms(less, f.left);
    CanonicalAtoms(less, f.right);
    ImageKeeps(less, to, names, f.left);
    ImageKeeps(less, to, names, f.right);
    EquivalenceKeepsOrder(less, to, names, Canonical(less, f.left), Canonical(less, f.right));
  }

  lemma EquivalenceKeepsOrder(less: Comparison, to: Renaming, names: set<string>, p: Formula, q: Formula)
    requires KeepsConstants(to) && OneToOne(to, names) && Atoms(p) <= names && Atoms(q) <= names && TotalOrder(less)
    requires if less(p, q) then Rename(p, to) == Rename(q, to) || less(Rename(p, to), Rename(q, to))
             else Rename(p, to) == Rename(q, to) || less(Rename(q, to), Rename(p, to))
    ensures KeepsOrder(less, to, [p, q])
  {
    hide OneToOne, KeepsConstants;
    if Rename(p, to) == Rename(q, to) { RenameInjective(p, q, to, names); }
  }

  // -- No atom is lost --------------------------------------------------------------------------

  /** Some operand has each of the names. */
  ghost predicate Mention(ops: seq<Formula>, names: set<string>) {
    forall x :: x in names ==> exists f :: f in ops && x in Atoms(f)
  }

  lemma MentionJoins(a: seq<Formula>, b: seq<Formula>, names: set<string>, others: set<string>)
    requires Mention(a, names) && Mention(b, others)
    ensures Mention(a + b, names + others)
  {
    forall x | x in names + others ensures exists f :: f in a + b && x in Atoms(f) {
      if x in names {
        var f :| f in a && x in Atoms(f);
        assert f in a + b;
      } else {
        var f :| f in b && x in Atoms(f);
        assert f in a + b;
      }
    }
  }

  lemma {:induction false} FlattenMentions(f: Formula, kind: Chained)
    ensures Mention(Flatten(f, kind), Atoms(f))
  {
    if IsChain(f, kind) {
      FlattenMentions(f.left, kind);
      FlattenMentions(f.right, kind);
      MentionJoins(Flatten(f.left, kind), Flatten(f.right, kind), Atoms(f.left), Atoms(f.right));
    } else {
      assert f in Flatten(f, kind);
    }
  }

  lemma {:induction false} ChainMentions(kind: Chained, ops: seq<Formula>, f: Formula)
    requires f in ops
    ensures Atoms(f) <= Atoms(Chain(kind, ops))
  {
    var n := |ops| - 1;
    if n > 0 && f in ops[..n] { ChainMentions(kind, ops[..n], f); }
  }

  lemma {:induction false} OperandsMention(less: Comparison, f: Formula, kind: Chained)
    ensures Mention(Operands(less, f, kind), Atoms(f))
    decreases f, 2
  {
    if IsChain(f, kind) {
      OperandsMention(less, f.left, kind);
      OperandsMention(less, f.right, kind);
      MentionJoins(Operands(less, f.left, kind), Operands(less, f.right, kind), Atoms(f.left), Atoms(f.right));
    } else {
      CanonicalMentions(less, f);
      FlattenMentions(Canonical(less, f), kind);
    }
  }

  lemma {:induction false} ArrangedMentions(less: Comparison, f: Formula, kind: Chained)
    requires IsChain(f, kind)
    ensures Atoms(f) <= Atoms(Canonical(less, f))
    decreases f, 0
  {
    hide Sort, Unique;
    var all := Operands(less, f.left, kind) + Operands(less, f.right, kind);
    OperandsMention(less, f.left, kind);
    OperandsMention(less, f.right, kind);
    MentionJoins(Operands(less, f.left, kind), Operands(less, f.right, kind), Atoms(f.left), Atoms(f.right));
    SortMembers(less, all);
    UniqueMembers(Sort(less, all));
    forall x | x in Atoms(f) ensures x in Atoms(Canonical(less, f)) {
      var g :| g in all && x in Atoms(g);
      ChainMentions(kind, Unique(Sort(less, all)), g);
    }
  }

  lemma {:induction false} CanonicalMentions(less: Comparison, f: Formula)
    ensures Atoms(f) <= Atoms(Canonical(less, f))
    decreases f, 1
  {
    if f.And? { ArrangedMentions(less, f, Conjunction); }
    else if f.Or? { ArrangedMentions(less, f, Disjunction); }
    else if IsUnary(f) { CanonicalMentions(less, f.child); }
    else if !f.Atom? { CanonicalMentions(less, f.left); CanonicalMentions(less, f.right); }
  }

  // -- When a renaming keeps the key ------------------------------------------------------------

  /** The renaming `to'` keeps the comparisons, and gives what `to` gives but for the spelling. */
  ghost predicate KeptBy(less: Comparison, f: Formula, to': Renaming, to: Renaming) {
    && KeepsConstants(to') && OneToOne(to', Atoms(f)) && KeepsComparisons(less, to', f)
    && Canonical(less, Rename(f, to')) == Canonical(less, Rename(f, to))
  }

  lemma CarriedIsKept(less: Comparison, f: Formula, to': Renaming, to: Renaming)
    requires TotalOrder(less) && CarriesTo(Canonical(less, f), to', Canonical(less, Rename(f, to)))
    ensures KeptBy(less, f, to', to)
  {
    hide KeepsComparisons, SortedForm, TotalOrder;
    CanonicalMentions(less, f);
    CanonicalSorted(less, Rename(f, to));
    ImageKeeps(less, to', Atoms(f), f);
    CanonicalFollows(less, f, to', Atoms(f));
  }

  /** A formula under other names shares the key exactly when some renaming that keeps the comparisons
      the canonical form sorts by gives the same formula, but for the spelling. */
  lemma KeyKeptExactly(less: Comparison, f: Formula, to: Renaming)
    requires TotalOrder(less) && KeepsConstants(to) && OneToOne(to, Atoms(f))
    ensures RenamedKey(less, Rename(f, to)) == RenamedKey(less, f) <==> exists to' :: KeptBy(less, f, to', to)
  {
    hide TotalOrder, Rename, CarriesTo;
    if RenamedKey(less, Rename(f, to)) == RenamedKey(less, f) {
      SharedKeyExactly(less, f, Rename(f, to));
      var to' :| CarriesTo(Canonical(less, f), to', Canonical(less, Rename(f, to)));
      CarriedIsKept(less, f, to', to);
    }
    if to' :| KeptBy(less, f, to', to) { RenamingKeepsKey(less, f, to'); }
  }

  // -- A renaming that does not -----------------------------------------------------------------

  /** `(x U y) & (y U z)`. */
  function Waits(x: string, y: string, z: string): Formula {
    And(Wait(x, y), Wait(y, z))
  }

  function Wait(x: string, y: string): Formula {
    Until(Atom(x), Atom(y))
  }

  function Swap(x: string, z: string): Renaming {
    (name: string) => if name == x then z else if name == z then x else name
  }

  predicate ThreeNames(x: string, y: string, z: string) {
    x != y && y != z && x != z && !IsConstantAtom(x) && !IsConstantAtom(y) && !IsConstantAtom(z)
  }

  lemma SwapRenames(x: string, y: string, z: string)
    requires ThreeNames(x, y, z)
    ensures KeepsConstants(Swap(x, z)) && forall names :: OneToOne(Swap(x, z), names)
    ensures Rename(Waits(x, y, z), Swap(x, z)) == Waits(z, y, x)
    ensures Rename(And(Wait(y, z), Wait(x, y)), Swap(x, z)) == And(Wait(y, x), Wait(z, y))
  {
    RenameWait(x, y, Swap(x, z));
    RenameWait(y, z, Swap(x, z));
  }

  lemma RenameWait(x: string, y: string, to: Renaming)
    ensures Rename(Wait(x, y), to) == Wait(to(x), to(y))
  {
    assert Rename(Atom(x), to) == Atom(to(x)) && Rename(Atom(y), to) == Atom(to(y));
  }

  /** Two waits for different names compare as the names do. */
  lemma WaitsCompare(x: string, y: string, z: string)
    requires x != y
    ensures ByArena()(Wait(x, y), Wait(y, z)) <==> NameLess(x, y)
  {
    assert Arena(Wait(x, y))[0] == Node(0, x, 0, 0) && Arena(Wait(y, z))[0] == Node(0, y, 0, 0);
    assert ByNode()(Node(0, x, 0, 0), Node(0, y, 0, 0)) <==> NameLess(x, y);
  }

  lemma WaitsCanonical(x: string, y: string, z: string)
    requires x != y
    ensures Canonical(ByArena(), Waits(x, y, z))
         == if NameLess(x, y) then Waits(x, y, z) else And(Wait(y, z), Wait(x, y))
  {
    var less := ByArena();
    var p, q := Wait(x, y), Wait(y, z);
    WaitsCompare(x, y, z);
    WaitStays(less, x, y);
    WaitStays(less, y, z);
    SortTwo(less, p, q);
  }

  lemma WaitStays(less: Comparison, x: string, y: string)
    ensures Operands(less, Wait(x, y), Conjunction) == [Wait(x, y)]
  {
    assert Plain(Atom(x)) && Plain(Atom(y));
    PlainIsCanonical(less, Wait(x, y));
  }

  lemma SortTwo(less: Comparison, p: Formula, q: Formula)
    requires p != q
    ensures Chain(Conjunction, Unique(Sort(less, [p] + [q]))) == if less(p, q) then And(p, q) else And(q, p)
  {
    var ops := [p] + [q];
    assert ops[0] == p && ops[1..] == [q] && [q][1..] == [];
    assert Sort(less, [q]) == [q];
    assert Insert(less, p, [q]) == if less(p, q) then [p, q] else [q] + Insert(less, p, []);
    UniqueTwo(p, q);
    UniqueTwo(q, p);
  }

  lemma UniqueTwo(p: Formula, q: Formula)
    requires p != q
    ensures Unique([p, q]) == [p, q] && Chain(Conjunction, [p, q]) == And(p, q)
  {
    assert [p, q][1..] == [q] && [p, q][..1] == [p];
  }

  /** The one name swapped for the other, the key stays exactly when neither or both of them come before
      the name in the middle: what differs only in its names need not share the key. */
  lemma WaitsShareKey(x: string, y: string, z: string)
    requires ThreeNames(x, y, z)
    ensures Rename(Waits(x, y, z), Swap(x, z)) == Waits(z, y, x)
    ensures RenamedKey(ByArena(), Waits(x, y, z)) == RenamedKey(ByArena(), Waits(z, y, x))
       <==> (NameLess(x, y) <==> NameLess(z, y))
  {
    hide RenamedForm, Canonical, NameLess, OneToOne;
    var f, g := Canonical(ByArena(), Waits(x, y, z)), Canonical(ByArena(), Waits(z, y, x));
    SwapRenames(x, y, z);
    WaitsCanonical(x, y, z);
    WaitsCanonical(z, y, x);
    RenamedKeyIsExact(f, g);
    if NameLess(x, y) <==> NameLess(z, y) {
      assert CarriesTo(f, Swap(x, z), g);
    } else if to :| CarriesTo(f, to, g) {
      RenameWait(x, y, to);
      RenameWait(y, z, to);
      assert false;
    }
  }

  /** `(a U b) & (b U c)` and `(c U b) & (b U a)`. */
  lemma SwappedNamesSplitKey()
    ensures Rename(Waits("a", "b", "c"), Swap("a", "c")) == Waits("c", "b", "a")
    ensures RenamedKey(ByArena(), Waits("a", "b", "c")) != RenamedKey(ByArena(), Waits("c", "b", "a"))
  {
    assert "a"[0] == 'a' && "b"[0] == 'b' && "c"[0] == 'c' && |"a"| == |"b"| == |"c"| == 1;
    assert |TRUE_NAME| == 4 && |FALSE_NAME| == 5;
    assert NameLess("a", "b") && !NameLess("c", "b");
    WaitsShareKey("a", "b", "c");
  }
}
