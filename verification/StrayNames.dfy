/** When one key means one verdict: exactly when no undeclared atom can be taken for a new name. */
module StrayNames {
  import opened CanonicalForms
  import opened Decimals
  import opened FormulaKey
  import opened Ltl
  import opened Realizability
  import opened RealizabilityKey
  import opened Sequences

  /** The declared signals of a side, and the new name of its `n`-th. */
  function SideList(l: Lists, kind: Kind): seq<string> {
    if kind.In? then l.inputs else l.outputs
  }

  function NewName(kind: Kind, n: nat): string {
    Numbered(if kind.In? then FI else FO, n)
  }

  // -- A formula that mentions the first signals of a side --------------------------------------

  /** `body`, behind an implication from each of `names` to itself. */
  function Guarded(names: seq<string>, body: Formula): Formula {
    if names == [] then body
    else Implies(Implies(Atom(names[0]), Atom(names[0])), Guarded(names[1..], body))
  }

  lemma GuardMeans(sigma: Trace, a: string, f: Formula, t: nat)
    ensures Holds(sigma, Implies(Implies(Atom(a), Atom(a)), f), t) <==> Holds(sigma, f, t)
  {
    var p := Sem(sigma, Atom(a));
    assert Sem(sigma, Implies(Atom(a), Atom(a))) == ImpP(p, p);
    assert Sem(sigma, Implies(Implies(Atom(a), Atom(a)), f)) == ImpP(ImpP(p, p), Sem(sigma, f));
  }

  lemma {:induction false} GuardedMeans(sigma: Trace, names: seq<string>, body: Formula, t: nat)
    ensures Holds(sigma, Guarded(names, body), t) <==> Holds(sigma, body, t)
  {
    if names != [] {
      GuardMeans(sigma, names[0], Guarded(names[1..], body), t);
      GuardedMeans(sigma, names[1..], body, t);
    }
  }

  lemma {:induction false} GuardedIsPlain(names: seq<string>, body: Formula)
    requires Plain(body)
    ensures Plain(Guarded(names, body))
  {
    if names != [] { GuardedIsPlain(names[1..], body); }
  }

  lemma {:induction false} GuardedAtoms(names: seq<string>, body: Formula)
    ensures forall x :: x in Atoms(Guarded(names, body)) ==> x in names || x in Atoms(body)
  {
    if names != [] {
      GuardedAtoms(names[1..], body);
      assert Atoms(Implies(Atom(names[0]), Atom(names[0]))) <= {names[0]};
      assert Atoms(Guarded(names, body)) <= {names[0]} + Atoms(Guarded(names[1..], body));
    }
  }

  lemma {:induction false} GuardedOrder(names: seq<string>, body: Formula, order: seq<string>)
    requires NoConstants(names) && Distinct(order + names)
    ensures AtomsInOrder(Guarded(names, body), order) == AtomsInOrder(body, order + names)
  {
    if names == [] {
      assert order + names == order;
    } else {
      var a := names[0];
      assert order + names == (order + [a]) + names[1..];
      assert forall i :: 0 <= i < |order| ==> (order + names)[i] == order[i];
      assert (order + names)[|order|] == a;
      assert AtomsInOrder(Implies(Atom(a), Atom(a)), order) == order + [a];
      GuardedOrder(names[1..], body, order + [a]);
    }
  }

  lemma GuardedFirst(names: seq<string>, body: Formula)
    requires NoConstants(names) && Distinct(names)
    ensures Order(Guarded(names, body)) == AtomsInOrder(body, names)
  {
    assert [] + names == names;
    GuardedOrder(names, body, []);
  }

  // -- Merging an undeclared atom with the signal whose new name it has -------------------------

  /** `x` read as `s`. */
  function Merging(x: string, s: string): Renaming {
    (y: string) => if y == x then s else y
  }

  /** The first `n + 1` signals of a side, of which the undeclared `x` is spelt like the last. */
  ghost predicate Collides(l: Lists, kind: Kind, n: nat, x: string) {
    WellDeclared(l) && !kind.Stray? && n < |SideList(l, kind)| && x == NewName(kind, n) && KindOf(l, x) == Stray
  }

  ghost predicate MergesIn(l: Lists, kind: Kind, n: nat, x: string, body: Formula) {
    Collides(l, kind, n, x) && x in Atoms(body) && Atoms(body) <= {x, SideList(l, kind)[n]}
  }

  lemma PrefixIsDeclared(l: Lists, kind: Kind, n: nat)
    requires WellDeclared(l) && !kind.Stray? && n < |SideList(l, kind)|
    ensures var first := SideList(l, kind)[..n + 1];
      && Distinct(first) && NoConstants(first)
      && forall i :: 0 <= i <= n ==> first[i] == SideList(l, kind)[i] && KindOf(l, first[i]) == kind
  {
    forall i | 0 <= i <= n ensures KindOf(l, SideList(l, kind)[i]) == kind { assert SideList(l, kind)[i] in SideList(l, kind); }
  }

  /** A duplicate-free list that only adds `x` to its beginning. */
  lemma AddsOne(first: seq<string>, order: seq<string>, x: string)
    requires Distinct(order) && first <= order && x !in first && x in order
    requires forall y :: y in order ==> y in first || y == x
    ensures order == first + [x]
  {
    assert forall i :: 0 <= i < |first| ==> order[i] == first[i];
    if |order| > |first| + 1 { assert order[|first|] != order[|first| + 1]; }
    forall i | |first| <= i < |order| ensures order[i] == x { NotInFirst(first, order, i); }
    assert order == first ==> x in first;
  }

  lemma AddsNone(first: seq<string>, order: seq<string>)
    requires Distinct(order) && first <= order && forall y :: y in order ==> y in first
    ensures order == first
  {
    if |first| < |order| { NotInFirst(first, order, |first|); }
  }

  lemma NotInFirst(first: seq<string>, order: seq<string>, i: nat)
    requires Distinct(order) && first <= order && |first| <= i < |order|
    ensures order[i] in order && order[i] !in first
  {
    assert forall j :: 0 <= j < |first| ==> first[j] == order[j];
  }

  lemma AtomsBehind(first: seq<string>, body: Formula, x: string, s: string)
    requires Distinct(first) && s in first && x !in first && x in Atoms(body) && Atoms(body) <= {x, s}
    ensures AtomsInOrder(body, first) == first + [x]
  {
    AtomsInOrderAre(body, first);
    AddsOne(first, AtomsInOrder(body, first), x);
  }

  lemma NoAtomsBehind(first: seq<string>, body: Formula, s: string)
    requires Distinct(first) && s in first && Atoms(body) <= {s}
    ensures AtomsInOrder(body, first) == first
  {
    AtomsInOrderAre(body, first);
    AddsNone(first, AtomsInOrder(body, first));
  }

  lemma CollidingOrder(l: Lists, kind: Kind, n: nat, x: string, body: Formula)
    requires MergesIn(l, kind, n, x, body)
    ensures Order(Guarded(SideList(l, kind)[..n + 1], body)) == SideList(l, kind)[..n + 1] + [x]
  {
    var first := SideList(l, kind)[..n + 1];
    PrefixIsDeclared(l, kind, n);
    assert first[n] in first;
    GuardedFirst(first, body);
    AtomsBehind(first, body, x, SideList(l, kind)[n]);
  }

  lemma MergedOrder(l: Lists, kind: Kind, n: nat, x: string, body: Formula)
    requires MergesIn(l, kind, n, x, body)
    ensures Order(Guarded(SideList(l, kind)[..n + 1], Rename(body, Merging(x, SideList(l, kind)[n])))) == SideList(l, kind)[..n + 1]
  {
    var first, s := SideList(l, kind)[..n + 1], SideList(l, kind)[n];
    var merged := Rename(body, Merging(x, s));
    PrefixIsDeclared(l, kind, n);
    assert first[n] in first;
    GuardedFirst(first, merged);
    MergedAtoms(body, x, s);
    NoAtomsBehind(first, merged, s);
  }

  lemma {:induction false} MergedAtoms(f: Formula, x: string, s: string)
    requires Atoms(f) <= {x, s}
    ensures Atoms(Rename(f, Merging(x, s))) <= {s}
  {
    if f.Atom? {
      assert !IsConstantAtom(f.name) ==> f.name in Atoms(f);
      assert IsConstantAtom(f.name) && f.name == x ==> Merging(x, s)(f.name) == s;
    } else if IsUnary(f) {
      MergedAtoms(f.child, x, s);
    } else {
      MergedAtoms(f.left, x, s);
      MergedAtoms(f.right, x, s);
    }
  }

  lemma {:induction false} CountRun(l: Lists, order: seq<string>, m: nat, kind: Kind, k: Kind)
    requires m <= |order| && forall i :: 0 <= i < m ==> KindOf(l, order[i]) == kind
    ensures CountOf(l, order, m, k) == if k == kind then m else 0
  {
    if m > 0 { CountRun(l, order, m - 1, kind, k); }
  }

  /** The two formulas are renamed alike, and mention equally many signals of each side. */
  lemma MergedKeysEqual(l: Lists, kind: Kind, n: nat, x: string, body: Formula)
    requires MergesIn(l, kind, n, x, body)
    ensures var first := SideList(l, kind)[..n + 1];
      KeyOf(l, Guarded(first, body)) == KeyOf(l, Guarded(first, Rename(body, Merging(x, SideList(l, kind)[n]))))
  {
    var first, s := SideList(l, kind)[..n + 1], SideList(l, kind)[n];
    var f, g := Guarded(first, body), Guarded(first, Rename(body, Merging(x, s)));
    CollidingOrder(l, kind, n, x, body);
    MergedOrder(l, kind, n, x, body);
    MergedCounts(l, kind, n, x);
    MergedRename(l, kind, n, x, body);
  }

  lemma MergedCounts(l: Lists, kind: Kind, n: nat, x: string)
    requires Collides(l, kind, n, x)
    ensures var first := SideList(l, kind)[..n + 1];
      forall k: Kind :: !k.Stray? ==> CountOf(l, first + [x], n + 2, k) == CountOf(l, first, n + 1, k)
  {
    var first := SideList(l, kind)[..n + 1];
    PrefixIsDeclared(l, kind, n);
    assert (first + [x])[n + 1] == x;
    forall k: Kind | !k.Stray? ensures CountOf(l, first + [x], n + 2, k) == CountOf(l, first, n + 1, k) {
      CountRun(l, first, n + 1, kind, k);
      CountRun(l, first + [x], n + 1, kind, k);
    }
  }

  lemma NewNamesOfSide(l: Lists, kind: Kind, n: nat, order: seq<string>, i: nat)
    requires WellDeclared(l) && !kind.Stray? && n < |SideList(l, kind)| && i <= n
    requires SideList(l, kind)[..n + 1] <= order
    ensures SideNames(l, order)[i] == NewName(kind, i)
  {
    PrefixIsDeclared(l, kind, n);
    forall j | 0 <= j <= n ensures KindOf(l, order[j]) == kind { assert order[j] == SideList(l, kind)[..n + 1][j]; }
    CountRun(l, order, i, kind, kind);
  }

  lemma MergedRename(l: Lists, kind: Kind, n: nat, x: string, body: Formula)
    requires MergesIn(l, kind, n, x, body)
    ensures var first, s := SideList(l, kind)[..n + 1], SideList(l, kind)[n];
      SideForm(l, Guarded(first, body)) == SideForm(l, Guarded(first, Rename(body, Merging(x, s))))
  {
    var first, s := SideList(l, kind)[..n + 1], SideList(l, kind)[n];
    var f, merging := Guarded(first, body), Merging(x, s);
    CollidingOrder(l, kind, n, x, body);
    MergedOrder(l, kind, n, x, body);
    PrefixIsDeclared(l, kind, n);
    var to, to' := NameBy(first + [x], SideNames(l, first + [x])), NameBy(first, SideNames(l, first));
    GuardedAtoms(first, body);
    forall y | y in Atoms(f) || IsConstantAtom(y) ensures to'(merging(y)) == to(y) { MergedName(l, kind, n, x, y); }
    RenameComposes(f, merging, to', to);
    RenameGuarded(first, body, x, s);
  }

  lemma MergedName(l: Lists, kind: Kind, n: nat, x: string, y: string)
    requires Collides(l, kind, n, x) && (y in SideList(l, kind)[..n + 1] || y == x || IsConstantAtom(y))
    ensures var first := SideList(l, kind)[..n + 1];
      NameBy(first, SideNames(l, first))(Merging(x, SideList(l, kind)[n])(y)) == NameBy(first + [x], SideNames(l, first + [x]))(y)
  {
    hide SideNames, Distinct;
    var first := SideList(l, kind)[..n + 1];
    WithStray(l, kind, n, x);
    if y == x { MergedStray(l, kind, n, x); }
    else if y in first { MergedSignal(l, kind, n, x, Position(first, y)); }
    else { assert y !in first + [x]; }
  }

  lemma WithStray(l: Lists, kind: Kind, n: nat, x: string)
    requires Collides(l, kind, n, x)
    ensures var first := SideList(l, kind)[..n + 1];
      Distinct(first) && Distinct(first + [x]) && x !in first && NoConstants(first) && !IsConstantAtom(x)
  {
    PrefixIsDeclared(l, kind, n);
    PrefixesDiffer(n, n);
  }

  lemma MergedStray(l: Lists, kind: Kind, n: nat, x: string)
    requires Collides(l, kind, n, x)
    ensures var first, s := SideList(l, kind)[..n + 1], SideList(l, kind)[n];
      NameBy(first, SideNames(l, first))(s) == NameBy(first + [x], SideNames(l, first + [x]))(x)
  {
    var first, both := SideList(l, kind)[..n + 1], SideList(l, kind)[..n + 1] + [x];
    WithStray(l, kind, n, x);
    assert both[n + 1] == x && first[n] == SideList(l, kind)[n];
    PositionOf(both, n + 1);
    PositionOf(first, n);
    NewNamesOfSide(l, kind, n, first, n);
  }

  lemma MergedSignal(l: Lists, kind: Kind, n: nat, x: string, i: nat)
    requires Collides(l, kind, n, x) && i <= n
    ensures var first := SideList(l, kind)[..n + 1];
      NameBy(first, SideNames(l, first))(first[i]) == NameBy(first + [x], SideNames(l, first + [x]))(first[i])
  {
    var first, both := SideList(l, kind)[..n + 1], SideList(l, kind)[..n + 1] + [x];
    WithStray(l, kind, n, x);
    assert both[i] == first[i];
    PositionOf(first, i);
    PositionOf(both, i);
    NewNamesOfSide(l, kind, n, first, i);
    NewNamesOfSide(l, kind, n, both, i);
  }

  lemma {:induction false} RenameGuarded(names: seq<string>, body: Formula, x: string, s: string)
    requires x !in names
    ensures Rename(Guarded(names, body), Merging(x, s)) == Guarded(names, Rename(body, Merging(x, s)))
  {
    if names != [] {
      var a := Atom(names[0]);
      RenameGuarded(names[1..], body, x, s);
      assert names[0] in names && Rename(a, Merging(x, s)) == a;
      assert Rename(Implies(a, a), Merging(x, s)) == Implies(a, a);
    }
  }

  // -- Two verdicts behind one key --------------------------------------------------------------

  /** Told apart by who has `y`, or, when the undeclared atom and `s` are on one side, by whether it
      is `s` itself. */
  function Telling(kind: Kind, strayIn: bool, s: string, y: string): Formula {
    if strayIn <==> !kind.In? then Not(Atom(y))
    else if strayIn then Implies(Atom(s), Atom(y))
    else Not(Implies(Atom(s), Atom(y)))
  }

  lemma TellingMeans(sigma: Trace, kind: Kind, strayIn: bool, s: string, y: string)
    requires !IsConstantAtom(s) && !IsConstantAtom(y)
    ensures Holds(sigma, Telling(kind, strayIn, s, y), 0) <==>
      if strayIn <==> !kind.In? then !sigma(0, y) else ((sigma(0, s) ==> sigma(0, y)) <==> strayIn)
  {
    var p, q := Sem(sigma, Atom(s)), Sem(sigma, Atom(y));
    assert p(0) == sigma(0, s) && q(0) == sigma(0, y);
    assert Sem(sigma, Implies(Atom(s), Atom(y))) == ImpP(p, q);
    assert Sem(sigma, Not(Implies(Atom(s), Atom(y)))) == NotP(ImpP(p, q));
    assert Sem(sigma, Not(Atom(y))) == NotP(q);
  }

  /** At the start the system plays `v`, whatever the inputs. */
  lemma WinsAtOnce(f: Formula, side: Side, v: string -> bool)
    requires forall sigma: Trace :: (forall y :: !side(y) ==> sigma(0, y) == v(y)) ==> Holds(sigma, f, 0)
    ensures Realizable(f, side)
  {
    var strategy: Strategy := (t: nat, e: Trace) => v;
    forall e: Trace ensures Holds(Play(strategy, side, e), f, 0) {
      var sigma := Play(strategy, side, e);
      assert forall y :: !side(y) ==> sigma(0, y) == v(y);
    }
    assert Causal(strategy, side) && Wins(strategy, side, f);
  }

  /** At the start the environment plays `v`, whatever the outputs. */
  lemma LosesAtOnce(f: Formula, side: Side, v: string -> bool)
    requires forall sigma: Trace :: (forall y :: side(y) ==> sigma(0, y) == v(y)) ==> !Holds(sigma, f, 0)
    ensures !Realizable(f, side)
  {
    var e: Trace := (t: nat, y: string) => v(y);
    forall strategy: Strategy ensures !Wins(strategy, side, f) {
      var sigma := Play(strategy, side, e);
      assert forall y :: side(y) ==> sigma(0, y) == v(y);
      assert !Holds(sigma, f, 0);
    }
  }

  /** Who wins, by the names the telling formula mentions. */
  lemma TellingVerdict(names: seq<string>, kind: Kind, strayIn: bool, s: string, y: string, side: Side)
    requires !IsConstantAtom(s) && !IsConstantAtom(y) && !kind.Stray?
    requires (side(s) <==> kind.In?) && (y != s ==> (side(y) <==> strayIn))
    ensures Realizable(Guarded(names, Telling(kind, strayIn, s, y)), side) <==>
      if strayIn <==> !kind.In? then !side(y) else (y == s <==> strayIn)
  {
    var f := Guarded(names, Telling(kind, strayIn, s, y));
    var v := (z: string) => z == s && y != s;
    var w := (z: string) => if strayIn <==> !kind.In? then true else z == s;
    forall sigma: Trace ensures Holds(sigma, f, 0) <==>
      if strayIn <==> !kind.In? then !sigma(0, y) else ((sigma(0, s) ==> sigma(0, y)) <==> strayIn)
    {
      GuardedMeans(sigma, names, Telling(kind, strayIn, s, y), 0);
      TellingMeans(sigma, kind, strayIn, s, y);
    }
    if if strayIn <==> !kind.In? then !side(y) else (y == s <==> strayIn) {
      WinsAtOnce(f, side, v);
    } else {
      LosesAtOnce(f, side, w);
    }
  }

  function TellingPair(l: Lists, kind: Kind, n: nat, strayIn: bool, y: string): Formula
    requires n < |SideList(l, kind)|
  {
    Guarded(SideList(l, kind)[..n + 1], Telling(kind, strayIn, SideList(l, kind)[n], y))
  }

  /** For every new name that an undeclared atom may have, and whoever has the undeclared atoms: two
      formulas in normal form, over the declared signals and that atom, that share a key and differ in
      verdict. */
  lemma NewNameBreaksKey(l: Lists, kind: Kind, n: nat, x: string, strayIn: bool)
    requires Collides(l, kind, n, x)
    ensures var f, g := TellingPair(l, kind, n, strayIn, x), TellingPair(l, kind, n, strayIn, SideList(l, kind)[n]);
      && KeyOf(l, f) == KeyOf(l, g) && Plain(f) && Plain(g)
      && (Realizable(f, SideOf(l, strayIn)) <==> !Realizable(g, SideOf(l, strayIn)))
  {
    var first, s := SideList(l, kind)[..n + 1], SideList(l, kind)[n];
    var body := Telling(kind, strayIn, s, x);
    PrefixIsDeclared(l, kind, n);
    PrefixesDiffer(n, n);
    assert first[n] == s && !IsConstantAtom(s) && !IsConstantAtom(x) && KindOf(l, s) == kind;
    TellingMerges(kind, strayIn, s, x);
    MergedKeysEqual(l, kind, n, x, body);
    GuardedIsPlain(first, body);
    GuardedIsPlain(first, Telling(kind, strayIn, s, s));
    TellingVerdict(first, kind, strayIn, s, x, SideOf(l, strayIn));
    TellingVerdict(first, kind, strayIn, s, s, SideOf(l, strayIn));
  }

  lemma TellingMerges(kind: Kind, strayIn: bool, s: string, x: string)
    requires !IsConstantAtom(s) && !IsConstantAtom(x)
    ensures var body := Telling(kind, strayIn, s, x);
      && x in Atoms(body) && Atoms(body) <= {x, s} && Plain(body)
      && Rename(body, Merging(x, s)) == Telling(kind, strayIn, s, s) && Plain(Telling(kind, strayIn, s, s))
  {
    var a, b := Atom(s), Atom(x);
    assert Atoms(a) == {s} && Atoms(b) == {x};
    assert Atoms(Implies(a, b)) == {s, x};
    assert Rename(a, Merging(x, s)) == a && Rename(b, Merging(x, s)) == a;
    assert Rename(Implies(a, b), Merging(x, s)) == Implies(a, a);
  }

  // -- The condition ----------------------------------------------------------------------------

  /** A formula whose undeclared atoms are among `undeclared`. */
  ghost predicate StraysWithin(l: Lists, f: Formula, undeclared: iset<string>) {
    forall x :: x in Atoms(f) && KindOf(l, x) == Stray ==> x in undeclared
  }

  /** Within one run, queries with one key have one verdict. */
  ghost predicate OneKeyOneVerdict(render: Formula -> string, canonical: Formula -> Formula, l: Lists,
                                   undeclared: iset<string>, strayIn: bool) {
    forall f: Formula, g: Formula
      | StraysWithin(l, f, undeclared) && StraysWithin(l, g, undeclared)
        && KeyText(render, l, canonical(f)) == KeyText(render, l, canonical(g))
      :: Realizable(f, SideOf(l, strayIn)) <==> Realizable(g, SideOf(l, strayIn))
  }

  lemma NoNewNameSafe(render: Formula -> string, canonical: Formula -> Formula, l: Lists, undeclared: iset<string>,
                      strayIn: bool)
    requires Injective(render) && NormalForm(canonical)
    requires forall x :: x in undeclared ==> !IsNewName(SizesOf(l), x)
    ensures OneKeyOneVerdict(render, canonical, l, undeclared, strayIn)
  {
    forall f: Formula, g: Formula
      | StraysWithin(l, f, undeclared) && StraysWithin(l, g, undeclared)
        && KeyText(render, l, canonical(f)) == KeyText(render, l, canonical(g))
      ensures Realizable(f, SideOf(l, strayIn)) <==> Realizable(g, SideOf(l, strayIn))
    {
      assert Atoms(canonical(f)) <= Atoms(f) && Atoms(canonical(g)) <= Atoms(g);
      EqualKeysEqualVerdicts(render, canonical, SizesOf(l), l, f, l, g, strayIn);
    }
  }

  lemma Collision(l: Lists, x: string) returns (kind: Kind, n: nat)
    requires WellDeclared(l) && KindOf(l, x) == Stray && IsNewName(SizesOf(l), x)
    ensures Collides(l, kind, n, x)
  {
    if IsInputName(SizesOf(l), x) {
      kind := In;
      n :| n < |l.inputs| && x == Numbered(FI, n);
    } else {
      kind := Out;
      n :| n < |l.outputs| && x == Numbered(FO, n);
    }
  }

  lemma NewNameUnsafe(render: Formula -> string, canonical: Formula -> Formula, l: Lists, undeclared: iset<string>,
                      strayIn: bool, x: string)
    requires Injective(render) && NormalForm(canonical) && WellDeclared(l)
    requires x in undeclared && KindOf(l, x) == Stray && IsNewName(SizesOf(l), x)
    ensures !OneKeyOneVerdict(render, canonical, l, undeclared, strayIn)
  {
    var kind, n := Collision(l, x);
    var f, g := TellingPair(l, kind, n, strayIn, x), TellingPair(l, kind, n, strayIn, SideList(l, kind)[n]);
    NewNameBreaksKey(l, kind, n, x, strayIn);
    assert canonical(f) == f && canonical(g) == g;
    TellingStrays(l, kind, n, x, strayIn, x);
    TellingStrays(l, kind, n, x, strayIn, SideList(l, kind)[n]);
    EqualTextEqualKey(render, l, f, l, g);
  }

  lemma TellingStrays(l: Lists, kind: Kind, n: nat, x: string, strayIn: bool, y: string)
    requires Collides(l, kind, n, x) && (y == x || y == SideList(l, kind)[n])
    ensures forall z :: z in Atoms(TellingPair(l, kind, n, strayIn, y)) && KindOf(l, z) == Stray ==> z == x
  {
    var first, s := SideList(l, kind)[..n + 1], SideList(l, kind)[n];
    PrefixIsDeclared(l, kind, n);
    assert first[n] == s;
    GuardedAtoms(first, Telling(kind, strayIn, s, y));
    assert Atoms(Telling(kind, strayIn, s, y)) <= {s, y} by { assert Atoms(Atom(s)) <= {s} && Atoms(Atom(y)) <= {y}; assert Atoms(Implies(Atom(s), Atom(y))) <= {s, y}; }
    forall z | z in first ensures KindOf(l, z) == kind {}
  }

  /** The condition, exactly: over the lists of one run, one key means one verdict if and only if no
      undeclared atom that formulas may mention is spelt like a name the lists can be given, which is
      `fi` with a number below that of the inputs or `fo` with one below that of the outputs. */
  lemma KeySafeExactly(render: Formula -> string, canonical: Formula -> Formula, l: Lists, undeclared: iset<string>,
                       strayIn: bool)
    requires Injective(render) && NormalForm(canonical) && WellDeclared(l)
    requires forall x :: x in undeclared ==> KindOf(l, x) == Stray
    ensures OneKeyOneVerdict(render, canonical, l, undeclared, strayIn) <==>
              forall x :: x in undeclared ==> !IsNewName(SizesOf(l), x)
  {
    if x :| x in undeclared && IsNewName(SizesOf(l), x) { NewNameUnsafe(render, canonical, l, undeclared, strayIn, x); }
    else { NoNewNameSafe(render, canonical, l, undeclared, strayIn); }
  }
}
