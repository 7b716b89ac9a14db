/** The key of a realizability query, and what two queries that share it have in common. */
module RealizabilityKey {
  import opened CanonicalForms
  import opened Decimals
  import opened FormulaKey
  import opened Ltl
  import opened Realizability
  import opened Sequences
  import opened Wrappers

  /** The declared signals of a specification. */
  datatype Lists = Lists(inputs: seq<string>, outputs: seq<string>)

  datatype Kind = In | Out | Stray

  /** A name on both lists counts as an input. */
  function KindOf(l: Lists, name: string): Kind {
    if name in l.inputs then In else if name in l.outputs then Out else Stray
  }

  /** How many of the first `n` atoms are of a kind. */
  function CountOf(l: Lists, order: seq<string>, n: nat, kind: Kind): nat
    requires n <= |order|
  {
    if n == 0 then 0 else CountOf(l, order, n - 1, kind) + if KindOf(l, order[n - 1]) == kind then 1 else 0
  }

  /** Declared atoms are numbered within their side; the others keep their names. */
  function NameAt(l: Lists, order: seq<string>, n: nat): string
    requires n < |order|
  {
    match KindOf(l, order[n])
    case In => Numbered(FI, CountOf(l, order, n, In))
    case Out => Numbered(FO, CountOf(l, order, n, Out))
    case Stray => order[n]
  }

  function SideNames(l: Lists, order: seq<string>): seq<string> {
    seq(|order|, n requires 0 <= n < |order| => NameAt(l, order, n))
  }

  function SideForm(l: Lists, f: Formula): Formula {
    Rename(f, NameBy(Order(f), SideNames(l, Order(f))))
  }

  /** The renamed form, and how many declared signals of each side the formula never mentions. */
  datatype Key = Key(form: Formula, spareInputs: int, spareOutputs: int)

  function KeyOf(l: Lists, f: Formula): Key {
    Key(SideForm(l, f),
        |l.inputs| - CountOf(l, Order(f), |Order(f)|, In), |l.outputs| - CountOf(l, Order(f), |Order(f)|, Out))
  }

  // -- The subtractions do not wrap -------------------------------------------------------------

  function Seen(l: Lists, order: seq<string>, n: nat, kind: Kind): set<string>
    requires n <= |order|
  {
    set i | 0 <= i < n && KindOf(l, order[i]) == kind :: order[i]
  }

  lemma {:induction false} CountIsSize(l: Lists, order: seq<string>, n: nat, kind: Kind)
    requires Distinct(order) && n <= |order|
    ensures |Seen(l, order, n, kind)| == CountOf(l, order, n, kind)
  {
    if n > 0 {
      CountIsSize(l, order, n - 1, kind);
      SeenGrows(l, order, n, kind);
    }
  }

  lemma SeenGrows(l: Lists, order: seq<string>, n: nat, kind: Kind)
    requires Distinct(order) && 0 < n <= |order|
    ensures var before := Seen(l, order, n - 1, kind);
      && (KindOf(l, order[n - 1]) == kind ==> Seen(l, order, n, kind) == before + {order[n - 1]})
      && (KindOf(l, order[n - 1]) != kind ==> Seen(l, order, n, kind) == before)
      && order[n - 1] !in before
  {
    assert forall i :: 0 <= i < n - 1 ==> order[i] != order[n - 1];
  }

  lemma {:induction false} MembersAtMost(s: seq<string>, names: set<string>)
    requires forall x :: x in names ==> x in s
    ensures |names| <= |s|
  {
    if s != [] {
      var n := |s| - 1;
      assert s == s[..n] + [s[n]];
      MembersAtMost(s[..n], names - {s[n]});
      if s[n] in names { assert |names - {s[n]}| == |names| - 1; } else { assert names - {s[n]} == names; }
    } else {
      assert names == {};
    }
  }

  /** A formula mentions no more signals of a list than the list holds. */
  lemma SparesAreNatural(l: Lists, f: Formula)
    ensures KeyOf(l, f).spareInputs >= 0 && KeyOf(l, f).spareOutputs >= 0
  {
    var order := Order(f);
    OrderAre(f);
    CountIsSize(l, order, |order|, In);
    CountIsSize(l, order, |order|, Out);
    MembersAtMost(l.inputs, Seen(l, order, |order|, In));
    MembersAtMost(l.outputs, Seen(l, order, |order|, Out));
  }

  // -- Building the key -------------------------------------------------------------------------

  function Lookup(forward: map<string, string>): Renaming {
    (x: string) => if x in forward then forward[x] else x
  }

  /** The map filled from the first `i` atoms. */
  ghost predicate Filled(l: Lists, order: seq<string>, i: nat, forward: map<string, string>)
    requires i <= |order|
  {
    && (forall x :: x in forward ==> x in order[..i] && KindOf(l, x) != Stray)
    && (forall n: nat :: n < i && KindOf(l, order[n]) != Stray ==>
          order[n] in forward && forward[order[n]] == NameAt(l, order, n))
  }

  lemma FilledStarts(l: Lists, order: seq<string>)
    ensures Filled(l, order, 0, map[])
  {}

  lemma FilledGrows(l: Lists, order: seq<string>, i: nat, forward: map<string, string>)
    requires Distinct(order) && i < |order| && Filled(l, order, i, forward)
    ensures Filled(l, order, i + 1,
                   if KindOf(l, order[i]) == Stray then forward else forward[order[i] := NameAt(l, order, i)])
  {
    var name := order[i];
    assert order[..i + 1] == order[..i] + [name];
    if KindOf(l, name) != Stray {
      var after := forward[name := NameAt(l, order, i)];
      forall n: nat | n < i + 1 && KindOf(l, order[n]) != Stray
        ensures order[n] in after && after[order[n]] == NameAt(l, order, n)
      {
        assert n < i ==> order[n] != name;
      }
      forall x | x in after ensures x in order[..i + 1] && KindOf(l, x) != Stray {}
    }
  }

  method BuildKey(l: Lists, f: Formula) returns (key: Key)
    ensures key == KeyOf(l, f) && key.spareInputs >= 0 && key.spareOutputs >= 0
  {
    hide Filled, Distinct;
    var order, seen := CollectAtoms(f, [], {});
    OrderAre(f);
    FilledStarts(l, order);
    var forward: map<string, string> := map[];
    var nInputs, nOutputs := 0, 0;
    for i := 0 to |order|
      invariant nInputs == CountOf(l, order, i, In) && nOutputs == CountOf(l, order, i, Out)
      invariant Filled(l, order, i, forward)
    {
      var name := order[i];
      FilledGrows(l, order, i, forward);
      if name in l.inputs {
        forward := forward[name := Numbered(FI, nInputs)];
        nInputs := nInputs + 1;
      } else if name in l.outputs {
        forward := forward[name := Numbered(FO, nOutputs)];
        nOutputs := nOutputs + 1;
      }
    }
    FilledRenames(l, f, forward);
    SparesAreNatural(l, f);
    key := Key(Rename(f, Lookup(forward)), |l.inputs| - nInputs, |l.outputs| - nOutputs);
  }

  lemma FilledRenames(l: Lists, f: Formula, forward: map<string, string>)
    requires Filled(l, Order(f), |Order(f)|, forward)
    ensures Rename(f, Lookup(forward)) == SideForm(l, f)
  {
    var order := Order(f);
    var to := NameBy(order, SideNames(l, order));
    OrderAre(f);
    assert order[..|order|] == order;
    forall x | x in Atoms(f) || IsConstantAtom(x) ensures Lookup(forward)(x) == to(x) {
      if x in order { PositionOf(order, Position(order, x)); }
    }
    RenameComposes(f, Lookup(forward), (x: string) => x, to);
    RenameToItself(Rename(f, Lookup(forward)), (x: string) => x);
  }

  // -- The key as text --------------------------------------------------------------------------

  /** A text with two counts behind it, each set off by `mark`. */
  function Tagged(text: string, mark: char, n: nat, m: nat): string {
    text + [mark] + Decimal(n) + [mark] + Decimal(m)
  }

  /** The last mark is the one before the last count. */
  lemma SplitAtLastMark(a: string, b: string, a': string, b': string, mark: char)
    requires IsDigits(b) && IsDigits(b') && !('0' <= mark <= '9')
    requires a + [mark] + b == a' + [mark] + b'
    ensures a == a' && b == b'
  {
    var s := a + [mark] + b;
    assert s[|a|] == mark && s[|a'|] == mark;
    assert forall i :: |a| < i < |s| ==> s[i] == b[i - |a| - 1];
    assert forall i :: |a'| < i < |s| ==> s[i] == b'[i - |a'| - 1];
    assert |a| == |a'|;
    assert s[..|a|] == a && s[..|a'|] == a' && s[|a| + 1..] == b && s[|a'| + 1..] == b';
  }

  /** Nothing is lost in writing a key out, given a mark that no number contains. */
  lemma TaggedInjective(text: string, text': string, mark: char, n: nat, m: nat, n': nat, m': nat)
    requires !('0' <= mark <= '9') && Tagged(text, mark, n, m) == Tagged(text', mark, n', m')
    ensures text == text' && n == n' && m == m'
  {
    DecimalDigits(n);
    DecimalDigits(n');
    DecimalDigits(m);
    DecimalDigits(m');
    SplitAtLastMark(text + [mark] + Decimal(n), Decimal(m), text' + [mark] + Decimal(n'), Decimal(m'), mark);
    SplitAtLastMark(text, Decimal(n), text', Decimal(n'), mark);
    DecimalInjective(n, n');
    DecimalInjective(m, m');
  }

  function KeyText(render: Formula -> string, l: Lists, f: Formula): string {
    SparesAreNatural(l, f);
    var key := KeyOf(l, f);
    Tagged(render(key.form), '|', key.spareInputs, key.spareOutputs)
  }

  ghost predicate Injective(render: Formula -> string) {
    forall f, g :: render(f) == render(g) ==> f == g
  }

  lemma EqualTextEqualKey(render: Formula -> string, l: Lists, f: Formula, l': Lists, g: Formula)
    requires Injective(render)
    ensures KeyText(render, l, f) == KeyText(render, l', g) <==> KeyOf(l, f) == KeyOf(l', g)
  {
    SparesAreNatural(l, f);
    SparesAreNatural(l', g);
    var k, k' := KeyOf(l, f), KeyOf(l', g);
    if KeyText(render, l, f) == KeyText(render, l', g) {
      TaggedInjective(render(k.form), render(k'.form), '|', k.spareInputs, k.spareOutputs, k'.spareInputs, k'.spareOutputs);
    }
  }

  // -- New names are new ------------------------------------------------------------------------

  /** How many names of each side may be handed out. */
  datatype Sizes = Sizes(inputs: nat, outputs: nat)

  function SizesOf(l: Lists): Sizes {
    Sizes(|l.inputs|, |l.outputs|)
  }

  predicate Covers(z: Sizes, l: Lists) {
    |l.inputs| <= z.inputs && |l.outputs| <= z.outputs
  }

  ghost predicate IsInputName(z: Sizes, name: string) {
    exists n: nat :: n < z.inputs && name == Numbered(FI, n)
  }

  ghost predicate IsOutputName(z: Sizes, name: string) {
    exists n: nat :: n < z.outputs && name == Numbered(FO, n)
  }

  /** A name that an atom on the lists may be given. */
  ghost predicate IsNewName(z: Sizes, name: string) {
    IsInputName(z, name) || IsOutputName(z, name)
  }

  /** No atom outside the lists is spelt like a new name. */
  ghost predicate NoStrayNewName(z: Sizes, l: Lists, f: Formula) {
    Covers(z, l) && forall x :: x in Atoms(f) && KindOf(l, x) == Stray ==> !IsNewName(z, x)
  }

  lemma {:induction false} CountsGrow(l: Lists, order: seq<string>, i: nat, j: nat, kind: Kind)
    requires i < j <= |order| && KindOf(l, order[i]) == kind
    ensures CountOf(l, order, i, kind) < CountOf(l, order, j, kind)
  {
    if i + 1 < j { CountsGrow(l, order, i, j - 1, kind); }
  }

  /** The new names of a side do not run past its list. */
  lemma CountsStayBelow(l: Lists, f: Formula, n: nat)
    requires n < |Order(f)|
    ensures KindOf(l, Order(f)[n]) == In ==> CountOf(l, Order(f), n, In) < |l.inputs|
    ensures KindOf(l, Order(f)[n]) == Out ==> CountOf(l, Order(f), n, Out) < |l.outputs|
  {
    SparesAreNatural(l, f);
    var kind := KindOf(l, Order(f)[n]);
    if kind != Stray { CountsGrow(l, Order(f), n, |Order(f)|, kind); }
  }

  /** The side a new name shows. */
  lemma NameShowsKind(z: Sizes, l: Lists, f: Formula, n: nat)
    requires NoStrayNewName(z, l, f) && n < |Order(f)|
    ensures var name := NameAt(l, Order(f), n);
            var kind := KindOf(l, Order(f)[n]);
      && (IsInputName(z, name) <==> kind == In) && (IsOutputName(z, name) <==> kind == Out)
      && !IsConstantAtom(name)
  {
    var order := Order(f);
    OrderAre(f);
    CountsStayBelow(l, f, n);
    assert order[n] in Atoms(f);
    match KindOf(l, order[n]) {
      case In =>
        var k := CountOf(l, order, n, In);
        assert NameAt(l, order, n) == Numbered(FI, k);
        forall m: nat ensures Numbered(FI, k) != Numbered(FO, m) { PrefixesDiffer(k, m); }
        PrefixesDiffer(k, k);
      case Out =>
        var k := CountOf(l, order, n, Out);
        assert NameAt(l, order, n) == Numbered(FO, k);
        forall m: nat ensures Numbered(FI, m) != Numbered(FO, k) { PrefixesDiffer(m, k); }
        PrefixesDiffer(k, k);
      case Stray =>
    }
  }

  lemma NamesDiffer(z: Sizes, l: Lists, f: Formula, i: nat, j: nat)
    requires NoStrayNewName(z, l, f) && i < j < |Order(f)|
    ensures NameAt(l, Order(f), i) != NameAt(l, Order(f), j)
  {
    var order := Order(f);
    OrderAre(f);
    NameShowsKind(z, l, f, i);
    NameShowsKind(z, l, f, j);
    var kind := KindOf(l, order[i]);
    if NameAt(l, order, i) == NameAt(l, order, j) && kind != Stray {
      CountsGrow(l, order, i, j, kind);
      NumberedInjective(if kind == In then FI else FO, CountOf(l, order, i, kind), CountOf(l, order, j, kind));
    }
  }

  lemma SideNamesName(z: Sizes, l: Lists, f: Formula)
    requires NoStrayNewName(z, l, f)
    ensures Naming(f, SideNames(l, Order(f)))
  {
    var names := SideNames(l, Order(f));
    forall i, j | 0 <= i < j < |names| ensures names[i] != names[j] { NamesDiffer(z, l, f, i, j); }
    forall i | 0 <= i < |names| ensures !IsConstantAtom(names[i]) { NameShowsKind(z, l, f, i); }
  }

  // -- A key decides realizability --------------------------------------------------------------

  /** The environment has the inputs, and `strayIn` says who has the undeclared atoms. */
  ghost function SideOf(l: Lists, strayIn: bool): Side {
    (x: string) => KindOf(l, x) == In || (KindOf(l, x) == Stray && strayIn)
  }

  /** The same division, read off the new names. */
  ghost function KeySide(z: Sizes, strayIn: bool): Side {
    (x: string) => IsInputName(z, x) || (!IsOutputName(z, x) && strayIn)
  }

  /** A query is realizable exactly when the form in its key is, over sides the key alone determines. */
  lemma KeyDecides(z: Sizes, l: Lists, f: Formula, strayIn: bool)
    requires NoStrayNewName(z, l, f)
    ensures Realizable(f, SideOf(l, strayIn)) <==> Realizable(SideForm(l, f), KeySide(z, strayIn))
  {
    var order := Order(f);
    var names := SideNames(l, order);
    var to, back := NameBy(order, names), NameBy(names, order);
    SideNamesName(z, l, f);
    NamingFacts(f, names);
    OrderAre(f);
    forall x | x in Atoms(f)
      ensures back(to(x)) == x && (KeySide(z, strayIn)(to(x)) <==> SideOf(l, strayIn)(x))
    {
      var n := Position(order, x);
      PositionOf(names, n);
      NameShowsKind(z, l, f, n);
      assert to(x) == NameAt(l, order, n);
    }
    RenamingKeepsRealizability(f, to, back, SideOf(l, strayIn), KeySide(z, strayIn));
  }

  /** Two queries with one key are realizable together, whoever has the undeclared atoms, when none of
      these is spelt like a name either query may hand out. */
  lemma EqualKeysEqualVerdicts(render: Formula -> string, canonical: Formula -> Formula, z: Sizes,
                               l: Lists, f: Formula, l': Lists, g: Formula, strayIn: bool)
    requires Injective(render) && NormalForm(canonical)
    requires NoStrayNewName(z, l, canonical(f)) && NoStrayNewName(z, l', canonical(g))
    requires KeyText(render, l, canonical(f)) == KeyText(render, l', canonical(g))
    ensures Realizable(f, SideOf(l, strayIn)) <==> Realizable(g, SideOf(l', strayIn))
  {
    EqualTextEqualKey(render, l, canonical(f), l', canonical(g));
    SameMeaningSameRealizability(f, canonical(f), SideOf(l, strayIn));
    SameMeaningSameRealizability(g, canonical(g), SideOf(l', strayIn));
    KeyDecides(z, l, canonical(f), strayIn);
    KeyDecides(z, l', canonical(g), strayIn);
  }

  // -- A key is a formula up to renaming each side ----------------------------------------------

  /** `to` carries `f` to `g`, each atom to its own side, and undeclared atoms to themselves. */
  ghost predicate CarriesSides(l: Lists, f: Formula, to: Renaming, l': Lists, g: Formula) {
    CarriesTo(f, to, g) &&
    forall x :: x in Atoms(f) ==> KindOf(l', to(x)) == KindOf(l, x) && (KindOf(l, x) == Stray ==> to(x) == x)
  }

  lemma {:induction false} EqualKindsEqualCounts(l: Lists, order: seq<string>, l': Lists, order': seq<string>, n: nat,
                                                 kind: Kind)
    requires |order| == |order'| && n <= |order|
    requires forall i :: 0 <= i < |order| ==> KindOf(l, order[i]) == KindOf(l', order'[i])
    ensures CountOf(l, order, n, kind) == CountOf(l', order', n, kind)
  {
    if n > 0 { EqualKindsEqualCounts(l, order, l', order', n - 1, kind); }
  }

  lemma EqualFormsCarry(z: Sizes, l: Lists, f: Formula, l': Lists, g: Formula)
    requires NoStrayNewName(z, l, f) && NoStrayNewName(z, l', g) && SideForm(l, f) == SideForm(l', g)
    ensures |Order(f)| == |Order(g)| && CarriesSides(l, f, NameBy(Order(f), Order(g)), l', g)
    ensures forall i :: 0 <= i < |Order(f)| ==> KindOf(l, Order(f)[i]) == KindOf(l', Order(g)[i])
  {
    var order, order' := Order(f), Order(g);
    SideNamesName(z, l, f);
    SideNamesName(z, l', g);
    EqualNamedCorrespond(f, SideNames(l, order), g, SideNames(l', order'));
    OrderAre(f);
    OrderAre(g);
    NamingFacts(f, order');
    forall i | 0 <= i < |order|
      ensures KindOf(l, order[i]) == KindOf(l', order'[i]) && (KindOf(l, order[i]) == Stray ==> order[i] == order'[i])
    {
      NameShowsKind(z, l, f, i);
      NameShowsKind(z, l', g, i);
      assert SideNames(l, order)[i] == SideNames(l', order')[i];
    }
    forall x | x in Atoms(f)
      ensures KindOf(l', NameBy(order, order')(x)) == KindOf(l, x)
      ensures KindOf(l, x) == Stray ==> NameBy(order, order')(x) == x
    {
      PositionOf(order, Position(order, x));
    }
  }

  lemma CarriedKinds(z: Sizes, l: Lists, f: Formula, to: Renaming, l': Lists, g: Formula)
    requires NoStrayNewName(z, l, f) && CarriesSides(l, f, to, l', g)
    ensures |Order(f)| == |Order(g)|
    ensures forall i :: 0 <= i < |Order(f)| ==> KindOf(l, Order(f)[i]) == KindOf(l', Order(g)[i])
    ensures forall i :: 0 <= i < |Order(f)| && KindOf(l, Order(f)[i]) == Stray ==> Order(g)[i] == Order(f)[i]
  {
    hide NoStrayNewName, KindOf;
    var order, order' := Order(f), Order(g);
    SideNamesName(z, l, f);
    CarriedEqualNamed(f, to, SideNames(l, order));
    OrderAre(f);
    forall i | 0 <= i < |order|
      ensures order'[i] == to(order[i]) && KindOf(l, order[i]) == KindOf(l', order'[i])
      ensures KindOf(l, order[i]) == Stray ==> order'[i] == order[i]
    {
      assert order[i] in Atoms(f);
    }
  }

  lemma EqualKindsEqualNames(l: Lists, order: seq<string>, l': Lists, order': seq<string>)
    requires |order| == |order'|
    requires forall i :: 0 <= i < |order| ==> KindOf(l, order[i]) == KindOf(l', order'[i])
    requires forall i :: 0 <= i < |order| && KindOf(l, order[i]) == Stray ==> order'[i] == order[i]
    ensures SideNames(l, order) == SideNames(l', order')
  {
    forall i | 0 <= i < |order| ensures NameAt(l', order', i) == NameAt(l, order, i) {
      EqualKindsEqualCounts(l, order, l', order', i, In);
      EqualKindsEqualCounts(l, order, l', order', i, Out);
    }
  }

  lemma CarriedFormsEqual(z: Sizes, l: Lists, f: Formula, to: Renaming, l': Lists, g: Formula)
    requires NoStrayNewName(z, l, f) && CarriesSides(l, f, to, l', g)
    ensures SideForm(l, f) == SideForm(l', g) && |Order(f)| == |Order(g)|
    ensures forall i :: 0 <= i < |Order(f)| ==> KindOf(l, Order(f)[i]) == KindOf(l', Order(g)[i])
  {
    hide NoStrayNewName, KindOf, SideNames;
    CarriedKinds(z, l, f, to, l', g);
    EqualKindsEqualNames(l, Order(f), l', Order(g));
    SideNamesName(z, l, f);
    CarriedEqualNamed(f, to, SideNames(l, Order(f)));
  }

  /** The key is exact: two queries share it precisely when a one-to-one renaming that keeps each atom
      on its side carries one form to the other, and their alphabets have equal sizes side by side. */
  lemma KeyIsExact(z: Sizes, l: Lists, f: Formula, l': Lists, g: Formula)
    requires NoStrayNewName(z, l, f) && NoStrayNewName(z, l', g)
    ensures KeyOf(l, f) == KeyOf(l', g) <==>
              (exists to :: CarriesSides(l, f, to, l', g)) && |l.inputs| == |l'.inputs| && |l.outputs| == |l'.outputs|
  {
    hide NoStrayNewName, SideForm, CarriesSides;
    if KeyOf(l, f) == KeyOf(l', g) { EqualKeysCarry(z, l, f, l', g); }
    if to :| CarriesSides(l, f, to, l', g) {
      CarriedFormsEqual(z, l, f, to, l', g);
      EqualCounts(l, f, l', g);
    }
  }

  lemma EqualKeysCarry(z: Sizes, l: Lists, f: Formula, l': Lists, g: Formula)
    requires NoStrayNewName(z, l, f) && NoStrayNewName(z, l', g) && KeyOf(l, f) == KeyOf(l', g)
    ensures exists to :: CarriesSides(l, f, to, l', g)
    ensures |l.inputs| == |l'.inputs| && |l.outputs| == |l'.outputs|
  {
    EqualFormsCarry(z, l, f, l', g);
    EqualCounts(l, f, l', g);
  }

  lemma EqualCounts(l: Lists, f: Formula, l': Lists, g: Formula)
    requires |Order(f)| == |Order(g)|
    requires forall i :: 0 <= i < |Order(f)| ==> KindOf(l, Order(f)[i]) == KindOf(l', Order(g)[i])
    ensures CountOf(l, Order(f), |Order(f)|, In) == CountOf(l', Order(g), |Order(g)|, In)
    ensures CountOf(l, Order(f), |Order(f)|, Out) == CountOf(l', Order(g), |Order(g)|, Out)
  {
    EqualKindsEqualCounts(l, Order(f), l', Order(g), |Order(f)|, In);
    EqualKindsEqualCounts(l, Order(f), l', Order(g), |Order(f)|, Out);
  }

  // -- The bijection of the alphabets -----------------------------------------------------------

  /** The atoms of a kind, in order of appearance. */
  function Mentioned(l: Lists, order: seq<string>, kind: Kind): seq<string> {
    if order == [] then []
    else
      var n := |order| - 1;
      Mentioned(l, order[..n], kind) + if KindOf(l, order[n]) == kind then [order[n]] else []
  }

  /** The names of a list outside `order`. */
  function Unmentioned(names: seq<string>, order: seq<string>): seq<string> {
    if names == [] then []
    else (if names[0] in order then [] else [names[0]]) + Unmentioned(names[1..], order)
  }

  lemma {:induction false} MentionedAre(l: Lists, order: seq<string>, kind: Kind)
    requires Distinct(order)
    ensures Distinct(Mentioned(l, order, kind))
    ensures |Mentioned(l, order, kind)| == CountOf(l, order, |order|, kind)
    ensures forall x :: x in Mentioned(l, order, kind) <==> x in order && KindOf(l, x) == kind
  {
    if order != [] {
      var n := |order| - 1;
      MentionedAre(l, order[..n], kind);
      CountOfPrefix(l, order, n, kind);
      assert order == order[..n] + [order[n]];
      assert order[n] !in order[..n];
    }
  }

  lemma {:induction false} CountOfPrefix(l: Lists, order: seq<string>, n: nat, kind: Kind)
    requires n <= |order|
    ensures CountOf(l, order[..n], n, kind) == CountOf(l, order, n, kind)
    decreases n
  {
    if n > 0 {
      CountOfPrefix(l, order, n - 1, kind);
      CountOfPrefix(l, order[..n], n - 1, kind);
      assert order[..n][..n - 1] == order[..n - 1];
    }
  }

  lemma {:induction false} UnmentionedAre(names: seq<string>, order: seq<string>)
    requires Distinct(names)
    ensures Distinct(Unmentioned(names, order))
    ensures forall x :: x in Unmentioned(names, order) <==> x in names && x !in order
  {
    if names != [] {
      UnmentionedAre(names[1..], order);
      assert names == [names[0]] + names[1..];
      assert names[0] !in names[1..] by { assert forall i :: 0 < i < |names| ==> names[i] == names[1..][i - 1]; }
    }
  }

  /** One side of an alphabet: the signals a formula mentions, as they appear, then the rest. */
  function Arranged(l: Lists, f: Formula, kind: Kind): seq<string> {
    Mentioned(l, Order(f), kind) + Unmentioned(if kind == In then l.inputs else l.outputs, Order(f))
  }

  /** Duplicate-free, disjoint, and holding no constant. */
  predicate WellDeclared(l: Lists) {
    && Distinct(l.inputs) && Distinct(l.outputs) && (forall x :: x in l.inputs ==> x !in l.outputs)
    && NoConstants(l.inputs) && NoConstants(l.outputs)
  }

  lemma ConstantsUndeclared(l: Lists, x: string)
    requires WellDeclared(l) && IsConstantAtom(x)
    ensures KindOf(l, x) == Stray
  {}

  predicate SameMembers(s: seq<string>, t: seq<string>) {
    (forall x :: x in s ==> x in t) && forall x :: x in t ==> x in s
  }

  lemma ArrangedCovers(l: Lists, f: Formula, kind: Kind)
    requires WellDeclared(l) && kind != Stray
    ensures Distinct(Arranged(l, f, kind))
    ensures SameMembers(Arranged(l, f, kind), if kind == In then l.inputs else l.outputs)
  {
    var names := if kind == In then l.inputs else l.outputs;
    OrderAre(f);
    MentionedAre(l, Order(f), kind);
    UnmentionedAre(names, Order(f));
    var a, b := Mentioned(l, Order(f), kind), Unmentioned(names, Order(f));
    ConcatDistinct(a, b);
  }

  lemma SameMembersSameLength(s: seq<string>, t: seq<string>)
    requires Distinct(s) && Distinct(t) && SameMembers(s, t)
    ensures |s| == |t|
  {
    DistinctMembers(s);
    DistinctMembers(t);
    assert (set x | x in s) == (set x | x in t);
  }

  lemma {:induction false} DistinctMembers(s: seq<string>)
    requires Distinct(s)
    ensures |set x | x in s| == |s|
  {
    if s != [] {
      var n := |s| - 1;
      DistinctMembers(s[..n]);
      assert s == s[..n] + [s[n]] && s[n] !in s[..n];
      assert (set x | x in s) == (set x | x in s[..n]) + {s[n]};
    }
  }

  /** Signals paired off between two alphabets, those one formula mentions with those of the other in
      the order they appear. */
  ghost predicate Pairs(l: Lists, f: Formula, l': Lists, g: Formula, kind: Kind, to: Renaming) {
    var a, a' := Arranged(l, f, kind), Arranged(l', g, kind);
    |a| == |a'| && forall i :: 0 <= i < |a| ==> to(a[i]) == a'[i]
  }

  /** Queries over duplicate-free, disjoint lists that share a key: one renaming is a bijection of the
      inputs with the inputs, a bijection of the outputs with the outputs, and carries one form to the
      other. */
  lemma EqualKeysBiject(z: Sizes, l: Lists, f: Formula, l': Lists, g: Formula) returns (to: Renaming)
    requires WellDeclared(l) && WellDeclared(l') && NoStrayNewName(z, l, f) && NoStrayNewName(z, l', g)
    requires KeyOf(l, f) == KeyOf(l', g)
    ensures Pairs(l, f, l', g, In, to) && Pairs(l, f, l', g, Out, to)
    ensures Rename(f, to) == g
  {
    var ins, outs := Arranged(l, f, In), Arranged(l, f, Out);
    var ins', outs' := Arranged(l', g, In), Arranged(l', g, Out);
    KeyIsExact(z, l, f, l', g);
    ArrangedLengths(l, f, l', g);
    BothSidesDistinct(l, f);
    to := NameBy(ins + outs, ins' + outs');
    PairsByName(ins, outs, ins', outs');
    EqualFormsCarry(z, l, f, l', g);
    forall x | IsConstantAtom(x) ensures to(x) == x { ConstantsUndeclared(l, x); }
    CrossingIsPairing(l, f, l', g, to);
  }

  lemma ArrangedLengths(l: Lists, f: Formula, l': Lists, g: Formula)
    requires WellDeclared(l) && WellDeclared(l')
    requires |l.inputs| == |l'.inputs| && |l.outputs| == |l'.outputs|
    ensures |Arranged(l, f, In)| == |Arranged(l', g, In)| && |Arranged(l, f, Out)| == |Arranged(l', g, Out)|
  {
    ArrangedCovers(l, f, In);
    ArrangedCovers(l, f, Out);
    ArrangedCovers(l', g, In);
    ArrangedCovers(l', g, Out);
    SameMembersSameLength(Arranged(l, f, In), l.inputs);
    SameMembersSameLength(Arranged(l, f, Out), l.outputs);
    SameMembersSameLength(Arranged(l', g, In), l'.inputs);
    SameMembersSameLength(Arranged(l', g, Out), l'.outputs);
  }

  lemma BothSidesDistinct(l: Lists, f: Formula)
    requires WellDeclared(l)
    ensures Distinct(Arranged(l, f, In) + Arranged(l, f, Out))
    ensures forall x :: x in Arranged(l, f, In) + Arranged(l, f, Out) <==> KindOf(l, x) != Stray
  {
    ArrangedCovers(l, f, In);
    ArrangedCovers(l, f, Out);
    var a, b := Arranged(l, f, In), Arranged(l, f, Out);
    ConcatDistinct(a, b);
  }

  lemma PairsByName(a: seq<string>, b: seq<string>, a': seq<string>, b': seq<string>)
    requires Distinct(a + b) && |a| == |a'| && |b| == |b'|
    ensures forall i :: 0 <= i < |a| ==> NameBy(a + b, a' + b')(a[i]) == a'[i]
    ensures forall i :: 0 <= i < |b| ==> NameBy(a + b, a' + b')(b[i]) == b'[i]
  {
    forall i | 0 <= i < |a| ensures NameBy(a + b, a' + b')(a[i]) == a'[i] {
      PositionOf(a + b, i);
    }
    forall i | 0 <= i < |b| ensures NameBy(a + b, a' + b')(b[i]) == b'[i] {
      assert (a + b)[|a| + i] == b[i];
      PositionOf(a + b, |a| + i);
    }
  }

  /** An atom sits in its side's arrangement at its own count. */
  lemma {:induction false} MentionedAt(l: Lists, order: seq<string>, n: nat, kind: Kind)
    requires Distinct(order) && n < |order| && KindOf(l, order[n]) == kind
    ensures CountOf(l, order, n, kind) < |Mentioned(l, order, kind)|
    ensures Mentioned(l, order, kind)[CountOf(l, order, n, kind)] == order[n]
  {
    var last := |order| - 1;
    MentionedAre(l, order[..last], kind);
    CountOfPrefix(l, order, last, kind);
    if n < last {
      MentionedAt(l, order[..last], n, kind);
      CountOfPrefix(l, order, n, kind);
      CountOfPrefix(l, order[..last], n, kind);
      assert order[..last][..n] == order[..n];
    }
  }

  /** On the atoms, pairing the arrangements is crossing from one order to the other. */
  lemma CrossingIsPairing(l: Lists, f: Formula, l': Lists, g: Formula, to: Renaming)
    requires |Order(f)| == |Order(g)| && CarriesSides(l, f, NameBy(Order(f), Order(g)), l', g)
    requires forall i :: 0 <= i < |Order(f)| ==> KindOf(l, Order(f)[i]) == KindOf(l', Order(g)[i])
    requires Pairs(l, f, l', g, In, to) && Pairs(l, f, l', g, Out, to)
    requires forall x :: KindOf(l, x) == Stray ==> to(x) == x
    requires forall x :: IsConstantAtom(x) ==> to(x) == x
    ensures Rename(f, to) == g
  {
    var across := NameBy(Order(f), Order(g));
    OrderAre(f);
    forall x | x in Atoms(f) || IsConstantAtom(x) ensures to(x) == across(x) {
      if x in Atoms(f) { CrossingAt(l, f, l', g, to, Position(Order(f), x)); }
    }
    RenameComposes(f, (x: string) => x, to, across);
    RenameToItself(f, (x: string) => x);
  }

  lemma CrossingAt(l: Lists, f: Formula, l': Lists, g: Formula, to: Renaming, n: nat)
    requires |Order(f)| == |Order(g)| && CarriesSides(l, f, NameBy(Order(f), Order(g)), l', g) && n < |Order(f)|
    requires forall i :: 0 <= i < |Order(f)| ==> KindOf(l, Order(f)[i]) == KindOf(l', Order(g)[i])
    requires Pairs(l, f, l', g, In, to) && Pairs(l, f, l', g, Out, to)
    requires forall x :: KindOf(l, x) == Stray ==> to(x) == x
    ensures to(Order(f)[n]) == Order(g)[n]
  {
    var order, order' := Order(f), Order(g);
    var kind := KindOf(l, order[n]);
    OrderAre(f);
    OrderAre(g);
    PositionOf(order, n);
    if kind != Stray {
      MentionedAt(l, order, n, kind);
      MentionedAt(l', order', n, kind);
      EqualKindsEqualCounts(l, order, l', order', n, kind);
      assert Arranged(l, f, kind)[CountOf(l, order, n, kind)] == order[n];
    }
  }

  // -- The memo ---------------------------------------------------------------------------------

  /** Parsing, the normal form and printing, none of which is part of this model. */
  datatype Tools = Tools(parse: string -> Option<Formula>, canonical: Formula -> Formula, render: Formula -> string)

  /** The key of a query as text; text that does not parse is its own key. */
  function QueryKey(tools: Tools, l: Lists, ltl: string): string {
    match tools.parse(ltl)
    case None => ltl
    case Some(f) => KeyText(tools.render, l, tools.canonical(f))
  }

  function MemoKey(l: Lists, ltl: string): string {
    Tagged(ltl, 31 as char, |l.inputs|, |l.outputs|)
  }

  /** The append-only memo. It remembers the lists of a query by their sizes alone. */
  class KeyMemo {
    const tools: Tools
    var memo: map<string, string>

    /** Every entry is the key of a query over some lists of the sizes it was remembered by. */
    ghost predicate Valid()
      reads this
    {
      forall k :: k in memo ==> exists l, ltl :: k == MemoKey(l, ltl) && memo[k] == QueryKey(tools, l, ltl)
    }

    /** Every entry is the key of a query over these lists. */
    ghost predicate Over(l: Lists)
      reads this
    {
      forall k :: k in memo ==> exists ltl :: k == MemoKey(l, ltl) && memo[k] == QueryKey(tools, l, ltl)
    }

    constructor (tools: Tools)
      ensures Valid() && memo == map[] && this.tools == tools
    {
      this.tools, this.memo := tools, map[];
    }

    /** The first key of a text and two sizes is the key of every later query with them. It is the key
        that would be computed when the lists are the same throughout, as a run's are; otherwise the
        key of that text over some lists of the same sizes. */
    method Realizability(ltl: string, l: Lists) returns (key: string)
      requires Valid()
      modifies this`memo
      ensures Valid()
      ensures MemoKey(l, ltl) in old(memo) ==> key == old(memo)[MemoKey(l, ltl)] && memo == old(memo)
      ensures MemoKey(l, ltl) !in old(memo) ==>
                key == QueryKey(tools, l, ltl) && memo == old(memo)[MemoKey(l, ltl) := key]
      ensures exists l' :: SizesOf(l') == SizesOf(l) && key == QueryKey(tools, l', ltl)
      ensures old(Over(l)) ==> key == QueryKey(tools, l, ltl) && Over(l)
    {
      var memoKey := MemoKey(l, ltl);
      if memoKey in memo {
        ghost var l', other :| memoKey == MemoKey(l', other) && memo[memoKey] == QueryKey(tools, l', other);
        SameMemoKey(l, ltl, l', other);
        if Over(l) {
          ghost var again :| memoKey == MemoKey(l, again) && memo[memoKey] == QueryKey(tools, l, again);
          SameMemoKey(l, ltl, l, again);
        }
        return memo[memoKey];
      }
      match tools.parse(ltl) {
        case None => key := ltl;
        case Some(f) =>
          var parts := BuildKey(l, tools.canonical(f));
          key := Tagged(tools.render(parts.form), '|', parts.spareInputs, parts.spareOutputs);
      }
      memo := memo[memoKey := key];
    }
  }

  lemma SameMemoKey(l: Lists, ltl: string, l': Lists, ltl': string)
    requires MemoKey(l, ltl) == MemoKey(l', ltl')
    ensures ltl == ltl' && SizesOf(l) == SizesOf(l')
  {
    TaggedInjective(ltl, ltl', 31 as char, |l.inputs|, |l.outputs|, |l'.inputs|, |l'.outputs|);
  }

  /** Were the lists to change within a run, sizes would not tell them apart: one memo key, two keys. */
  lemma MemoNeedsConstantLists(render: Formula -> string)
    requires Injective(render)
    ensures var l, l' := Lists(["a"], ["b"]), Lists(["b"], ["a"]);
      && MemoKey(l, "a") == MemoKey(l', "a")
      && KeyText(render, l, Atom("a")) != KeyText(render, l', Atom("a"))
  {
    var l, l' := Lists(["a"], ["b"]), Lists(["b"], ["a"]);
    var f := Atom("a");
    assert "a"[0] == 'a' && "b"[0] == 'b';
    assert Order(f) == ["a"];
    assert CountOf(l, ["a"], 1, In) == 1 && CountOf(l', ["a"], 1, In) == 0;
    assert SideNames(l, ["a"])[0] == Numbered(FI, 0) && SideNames(l', ["a"])[0] == Numbered(FO, 0);
    PositionOf(["a"], 0);
    PrefixesDiffer(0, 0);
    assert SideForm(l, f) == Atom(Numbered(FI, 0)) && SideForm(l', f) == Atom(Numbered(FO, 0));
    EqualTextEqualKey(render, l, f, l', f);
  }
}
