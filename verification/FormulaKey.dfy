/** Cache keys: formulas up to a renaming of their atoms. */
module FormulaKey {
  import opened Decimals
  import opened Ltl
  import opened Realizability
  import opened Sequences
  import opened Wrappers

  // -- Atoms in the order of first appearance ---------------------------------------------------

  /** `order`, and behind it the atoms of `f` it does not hold, as they are met. */
  function AtomsInOrder(f: Formula, order: seq<string>): seq<string> {
    match f
    case Atom(name) => if IsConstantAtom(name) || name in order then order else order + [name]
    case Not(g) => AtomsInOrder(g, order)
    case Next(g) => AtomsInOrder(g, order)
    case Eventually(g) => AtomsInOrder(g, order)
    case Globally(g) => AtomsInOrder(g, order)
    case _ => AtomsInOrder(f.right, AtomsInOrder(f.left, order))
  }

  method CollectAtoms(f: Formula, order: seq<string>, seen: set<string>)
    returns (order': seq<string>, seen': set<string>)
    requires forall x :: x in seen <==> x in order
    ensures order' == AtomsInOrder(f, order)
    ensures forall x :: x in seen' <==> x in order'
  {
    order', seen' := order, seen;
    if f.Atom? {
      if !IsConstantAtom(f.name) && f.name !in seen {
        order', seen' := order + [f.name], seen + {f.name};
      }
      return;
    }
    if IsUnary(f) {
      order', seen' := CollectAtoms(f.child, order, seen);
      return;
    }
    order', seen' := CollectAtoms(f.left, order, seen);
    order', seen' := CollectAtoms(f.right, order', seen');
  }

  lemma {:induction false} AtomsInOrderAre(f: Formula, order: seq<string>)
    requires Distinct(order)
    ensures Distinct(AtomsInOrder(f, order)) && order <= AtomsInOrder(f, order)
    ensures forall x :: x in AtomsInOrder(f, order) <==> x in order || x in Atoms(f)
  {
    if f.Atom? {
    } else if IsUnary(f) {
      AtomsInOrderAre(f.child, order);
    } else {
      AtomsInOrderAre(f.left, order);
      AtomsInOrderAre(f.right, AtomsInOrder(f.left, order));
    }
  }

  // -- Renaming by position ---------------------------------------------------------------------

  function Position(s: seq<string>, x: string): (n: nat)
    requires x in s
    ensures n < |s| && s[n] == x
  {
    if s[0] == x then 0 else Position(s[1..], x) + 1
  }

  lemma PositionOf(s: seq<string>, n: nat)
    requires Distinct(s) && n < |s|
    ensures s[n] in s && Position(s, s[n]) == n
  {}

  /** The renaming of `order[n]` to `names[n]`. */
  function NameBy(order: seq<string>, names: seq<string>): Renaming
    requires |order| == |names|
  {
    (x: string) => if x in order then names[Position(order, x)] else x
  }

  predicate NoConstants(names: seq<string>) {
    forall i :: 0 <= i < |names| ==> !IsConstantAtom(names[i])
  }

  ghost predicate OneToOne(to: Renaming, names: set<string>) {
    forall x, y :: x in names && y in names && to(x) == to(y) ==> x == y
  }

  function Mapped(to: Renaming, order: seq<string>): seq<string> {
    seq(|order|, i requires 0 <= i < |order| => to(order[i]))
  }

  /** The order of appearance follows a one-to-one renaming. */
  lemma {:induction false} OrderFollowsRenaming(f: Formula, to: Renaming, order: seq<string>, names: set<string>)
    requires KeepsConstants(to) && OneToOne(to, names) && Atoms(f) <= names && forall x :: x in order ==> x in names
    ensures AtomsInOrder(Rename(f, to), Mapped(to, order)) == Mapped(to, AtomsInOrder(f, order))
    ensures forall x :: x in AtomsInOrder(f, order) ==> x in names
  {
    if f.Atom? {
      MappedMember(to, order, names, f.name);
    } else if IsUnary(f) {
      OrderFollowsRenaming(f.child, to, order, names);
    } else {
      OrderFollowsRenaming(f.left, to, order, names);
      OrderFollowsRenaming(f.right, to, AtomsInOrder(f.left, order), names);
    }
  }

  lemma MappedMember(to: Renaming, order: seq<string>, names: set<string>, x: string)
    requires OneToOne(to, names) && forall y :: y in order ==> y in names
    ensures x in names ==> (to(x) in Mapped(to, order) <==> x in order)
    ensures Mapped(to, order + [x]) == Mapped(to, order) + [to(x)]
  {
    if x in names && to(x) in Mapped(to, order) {
      var i :| 0 <= i < |order| && to(order[i]) == to(x);
      assert order[i] in order;
    }
    if x in order {
      var i :| 0 <= i < |order| && order[i] == x;
      assert Mapped(to, order)[i] == to(x);
    }
  }

  lemma {:induction false} RenameComposes(f: Formula, a: Renaming, b: Renaming, c: Renaming)
    requires forall x :: x in Atoms(f) || IsConstantAtom(x) ==> b(a(x)) == c(x)
    ensures Rename(Rename(f, a), b) == Rename(f, c)
  {
    if f.Atom? {
    } else if IsUnary(f) {
      RenameComposes(f.child, a, b, c);
    } else {
      RenameComposes(f.left, a, b, c);
      RenameComposes(f.right, a, b, c);
    }
  }

  lemma {:induction false} RenameToItself(f: Formula, to: Renaming)
    requires forall x :: x in Atoms(f) || IsConstantAtom(x) ==> to(x) == x
    ensures Rename(f, to) == f
  {
    if f.Atom? {
    } else if IsUnary(f) {
      RenameToItself(f.child, to);
    } else {
      RenameToItself(f.left, to);
      RenameToItself(f.right, to);
    }
  }

  /** The atoms of `f`, in order of appearance. */
  function Order(f: Formula): seq<string> {
    AtomsInOrder(f, [])
  }

  lemma OrderAre(f: Formula)
    ensures Distinct(Order(f)) && NoConstants(Order(f))
    ensures forall x :: x in Order(f) <==> x in Atoms(f)
  {
    AtomsInOrderAre(f, []);
    forall i | 0 <= i < |Order(f)| ensures !IsConstantAtom(Order(f)[i]) {
      assert Order(f)[i] in Atoms(f);
      AtomsAreNotConstants(f);
    }
  }

  lemma {:induction false} AtomsAreNotConstants(f: Formula)
    ensures forall x :: x in Atoms(f) ==> !IsConstantAtom(x)
  {
    if f.Atom? {
    } else if IsUnary(f) {
      AtomsAreNotConstants(f.child);
    } else {
      AtomsAreNotConstants(f.left);
      AtomsAreNotConstants(f.right);
    }
  }

  /** New names for the atoms of a formula, one for each. */
  predicate Naming(f: Formula, names: seq<string>) {
    |names| == |Order(f)| && Distinct(names) && NoConstants(names)
  }

  lemma NamingFacts(f: Formula, names: seq<string>)
    requires Naming(f, names)
    ensures var to := NameBy(Order(f), names);
      && KeepsConstants(to)
      && (forall n :: 0 <= n < |names| ==> to(Order(f)[n]) == names[n])
      && OneToOne(to, Atoms(f))
  {
    var order, to := Order(f), NameBy(Order(f), names);
    OrderAre(f);
    AtomsAreNotConstants(f);
    forall n | 0 <= n < |names| ensures to(order[n]) == names[n] { PositionOf(order, n); }
    forall x, y | x in Atoms(f) && y in Atoms(f) && to(x) == to(y) ensures x == y {
      assert names[Position(order, x)] == names[Position(order, y)];
    }
  }

  /** A formula under new names shows them in its order of appearance. */
  lemma NamedOrder(f: Formula, names: seq<string>)
    requires Naming(f, names)
    ensures Order(Rename(f, NameBy(Order(f), names))) == names
  {
    var to := NameBy(Order(f), names);
    OrderAre(f);
    NamingFacts(f, names);
    OrderFollowsRenaming(f, to, [], Atoms(f));
    assert Mapped(to, []) == [];
    assert Mapped(to, Order(f)) == names;
  }

  /** Two formulas equal under new names are equal up to the renaming of one order to the other. */
  lemma EqualNamedCorrespond(f: Formula, names: seq<string>, g: Formula, names': seq<string>)
    requires Naming(f, names) && Naming(g, names')
    requires Rename(f, NameBy(Order(f), names)) == Rename(g, NameBy(Order(g), names'))
    ensures names == names' && |Order(f)| == |Order(g)|
    ensures Rename(f, NameBy(Order(f), Order(g))) == g
  {
    NamedOrder(f, names);
    NamedOrder(g, names');
    OrderAre(f);
    OrderAre(g);
    AtomsAreNotConstants(f);
    var to, to', back := NameBy(Order(f), names), NameBy(Order(g), names), NameBy(names, Order(g));
    var across := NameBy(Order(f), Order(g));
    forall x | x in Atoms(f) || IsConstantAtom(x) ensures back(to(x)) == across(x) {
      if x in Atoms(f) { PositionOf(names, Position(Order(f), x)); } else { ConstantsStay(f, g, names, x); }
    }
    RenameComposes(f, to, back, across);
    forall x | x in Atoms(g) || IsConstantAtom(x) ensures back(to'(x)) == x {
      if x in Atoms(g) { PositionOf(names, Position(Order(g), x)); } else { ConstantsStay(g, g, names, x); }
    }
    RenameComposes(g, to', back, (x: string) => x);
    RenameToItself(g, (x: string) => x);
  }

  lemma ConstantsStay(f: Formula, g: Formula, names: seq<string>, x: string)
    requires Naming(f, names) && |Order(g)| == |names| && IsConstantAtom(x)
    ensures x !in Order(f) && x !in names
  {
    OrderAre(f);
  }

  /** And a formula carried over by a one-to-one renaming is equal to its image under new names for
      the two, position by position. */
  lemma CarriedEqualNamed(f: Formula, to: Renaming, names: seq<string>)
    requires Naming(f, names) && KeepsConstants(to) && OneToOne(to, Atoms(f))
    ensures Order(Rename(f, to)) == Mapped(to, Order(f)) && Naming(Rename(f, to), names)
    ensures Rename(f, NameBy(Order(f), names)) == Rename(Rename(f, to), NameBy(Order(Rename(f, to)), names))
  {
    var g := Rename(f, to);
    OrderAre(f);
    OrderFollowsRenaming(f, to, [], Atoms(f));
    assert Mapped(to, []) == [];
    OrderAre(g);
    var named, named' := NameBy(Order(f), names), NameBy(Order(g), names);
    forall x | x in Atoms(f) || IsConstantAtom(x) ensures named'(to(x)) == named(x) {
      if x in Atoms(f) {
        var n := Position(Order(f), x);
        PositionOf(Order(g), n);
        assert Order(g)[n] == to(x);
      } else {
        ConstantsStay(f, f, names, x);
        ConstantsStay(g, g, names, to(x));
        assert to(x) == x;
      }
    }
    RenameComposes(f, to, named', named);
  }

  // -- Numbered names ----------------------------------------------------------------------------

  function Numbered(prefix: string, n: nat): string {
    prefix + Decimal(n)
  }

  lemma NumberedInjective(prefix: string, n: nat, m: nat)
    requires Numbered(prefix, n) == Numbered(prefix, m)
    ensures n == m
  {
    assert Numbered(prefix, n)[|prefix|..] == Decimal(n) && Numbered(prefix, m)[|prefix|..] == Decimal(m);
    DecimalInjective(n, m);
  }

  // -- The renamed key --------------------------------------------------------------------------

  const FK := "fk"
  const FI := "fi"
  const FO := "fo"

  function KeyNames(count: nat): seq<string> {
    seq(count, (i: nat) => Numbered(FK, i))
  }

  lemma PrefixesDiffer(n: nat, m: nat)
    ensures Numbered(FI, n) != Numbered(FO, m)
    ensures !IsConstantAtom(Numbered(FI, n)) && !IsConstantAtom(Numbered(FO, m)) && !IsConstantAtom(Numbered(FK, n))
  {
    assert Numbered(FI, n)[1] == 'i' && Numbered(FO, m)[1] == 'o' && Numbered(FK, n)[1] == 'k';
    assert TRUE_NAME[1] == 'r' && FALSE_NAME[1] == 'a';
  }

  lemma KeyNamesName(f: Formula)
    ensures Naming(f, KeyNames(|Order(f)|))
  {
    var names := KeyNames(|Order(f)|);
    forall i, j | 0 <= i < j < |names| ensures names[i] != names[j] {
      if names[i] == names[j] { NumberedInjective(FK, i, j); }
    }
    forall i | 0 <= i < |names| ensures !IsConstantAtom(names[i]) { PrefixesDiffer(i, i); }
  }

  /** The formula behind the renamed key: atoms numbered as they appear. */
  function RenamedForm(f: Formula): Formula {
    Rename(f, NameBy(Order(f), KeyNames(|Order(f)|)))
  }

  ghost predicate CarriesTo(f: Formula, to: Renaming, g: Formula) {
    KeepsConstants(to) && OneToOne(to, Atoms(f)) && Rename(f, to) == g
  }

  /** A one-to-one renaming of the atoms carries `f` to `g`. */
  ghost predicate SameUpToNames(f: Formula, g: Formula) {
    exists to :: CarriesTo(f, to, g)
  }

  lemma EqualRenamedCarry(f: Formula, g: Formula)
    requires RenamedForm(f) == RenamedForm(g)
    ensures |Order(f)| == |Order(g)| && CarriesTo(f, NameBy(Order(f), Order(g)), g)
  {
    hide Naming;
    KeyNamesName(f);
    KeyNamesName(g);
    EqualNamedCorrespond(f, KeyNames(|Order(f)|), g, KeyNames(|Order(g)|));
    OrderNames(f, g);
    NamingFacts(f, Order(g));
  }

  lemma OrderNames(f: Formula, g: Formula)
    requires |Order(f)| == |Order(g)|
    ensures Naming(f, Order(g))
  {
    OrderAre(g);
  }

  lemma CarriedShareKey(f: Formula, to: Renaming, g: Formula)
    requires CarriesTo(f, to, g)
    ensures RenamedForm(f) == RenamedForm(g)
  {
    hide Naming;
    KeyNamesName(f);
    CarriedEqualNamed(f, to, KeyNames(|Order(f)|));
  }

  /** Two canonical forms share the renamed key exactly when a one-to-one renaming of the atoms carries
      one to the other. */
  lemma RenamedKeyIsExact(f: Formula, g: Formula)
    ensures RenamedForm(f) == RenamedForm(g) <==> SameUpToNames(f, g)
  {
    hide RenamedForm, CarriesTo;
    if RenamedForm(f) == RenamedForm(g) {
      EqualRenamedCarry(f, g);
      assert CarriesTo(f, NameBy(Order(f), Order(g)), g);
    }
    if to :| CarriesTo(f, to, g) { CarriedShareKey(f, to, g); }
  }
}
