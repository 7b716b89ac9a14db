/** Realizability of a formula, and its invariance under renaming the signals side by side. */
module Realizability {
  import opened Ltl

  /** The atoms a formula reads; the boolean constants are not among them. */
  function Atoms(f: Formula): set<string> {
    match f
    case Atom(name) => if IsConstantAtom(name) then {} else {name}
    case Not(g) => Atoms(g)
    case And(g, h) => Atoms(g) + Atoms(h)
    case Or(g, h) => Atoms(g) + Atoms(h)
    case Implies(g, h) => Atoms(g) + Atoms(h)
    case Iff(g, h) => Atoms(g) + Atoms(h)
    case Next(g) => Atoms(g)
    case Eventually(g) => Atoms(g)
    case Globally(g) => Atoms(g)
    case Until(g, h) => Atoms(g) + Atoms(h)
    case Release(g, h) => Atoms(g) + Atoms(h)
    case WeakUntil(g, h) => Atoms(g) + Atoms(h)
  }

  type Renaming = string -> string

  /** Every atom replaced at once. */
  function Rename(f: Formula, to: Renaming): Formula {
    match f
    case Atom(name) => Atom(to(name))
    case Not(g) => Not(Rename(g, to))
    case And(g, h) => And(Rename(g, to), Rename(h, to))
    case Or(g, h) => Or(Rename(g, to), Rename(h, to))
    case Implies(g, h) => Implies(Rename(g, to), Rename(h, to))
    case Iff(g, h) => Iff(Rename(g, to), Rename(h, to))
    case Next(g) => Next(Rename(g, to))
    case Eventually(g) => Eventually(Rename(g, to))
    case Globally(g) => Globally(Rename(g, to))
    case Until(g, h) => Until(Rename(g, to), Rename(h, to))
    case Release(g, h) => Release(Rename(g, to), Rename(h, to))
    case WeakUntil(g, h) => WeakUntil(Rename(g, to), Rename(h, to))
  }

  /** Constants stay, and nothing else becomes one. */
  ghost predicate KeepsConstants(to: Renaming) {
    to(TRUE_NAME) == TRUE_NAME && to(FALSE_NAME) == FALSE_NAME
    && forall name :: IsConstantAtom(to(name)) ==> IsConstantAtom(name)
  }

  /** `sigma` read through a renaming. */
  ghost function Through(sigma: Trace, to: Renaming): Trace {
    (t: nat, name: string) => sigma(t, to(name))
  }

  ghost predicate AgreeOn(sigma: Trace, tau: Trace, names: set<string>) {
    forall t: nat, name :: name in names ==> sigma(t, name) == tau(t, name)
  }

  lemma SameUnary(p: Pred, q: Pred)
    requires Same(p, q)
    ensures Same(NotP(p), NotP(q)) && Same(XP(p), XP(q)) && Same(FP(p), FP(q)) && Same(GP(p), GP(q))
  {}

  lemma SameBoolean(p: Pred, q: Pred, p': Pred, q': Pred)
    requires Same(p, p') && Same(q, q')
    ensures Same(AndP(p, q), AndP(p', q')) && Same(OrP(p, q), OrP(p', q'))
    ensures Same(ImpP(p, q), ImpP(p', q')) && Same(IffP(p, q), IffP(p', q'))
  {}

  lemma SameTemporal(p: Pred, q: Pred, p': Pred, q': Pred)
    requires Same(p, p') && Same(q, q')
    ensures Same(UP(p, q), UP(p', q')) && Same(RP(p, q), RP(p', q')) && Same(WP(p, q), WP(p', q'))
  {
    UntilMono(p, p', q, q');
    UntilMono(p', p, q', q);
    ReleaseMono(p, p', q, q');
    ReleaseMono(p', p, q', q);
    GloballyMono(p, p');
    GloballyMono(p', p);
    SameWeak(p, q, p', q');
  }

  lemma SameWeak(p: Pred, q: Pred, p': Pred, q': Pred)
    requires Same(UP(p, q), UP(p', q')) && Same(GP(p), GP(p'))
    ensures Same(WP(p, q), WP(p', q'))
  {}

  predicate IsUnary(f: Formula) {
    f.Not? || f.Next? || f.Eventually? || f.Globally?
  }

  predicate IsBoolean(f: Formula) {
    f.And? || f.Or? || f.Implies? || f.Iff?
  }

  /** What a renamed formula says of a trace, the formula says of the trace read through the renaming. */
  lemma {:induction false} RenameMeans(f: Formula, to: Renaming, sigma: Trace, tau: Trace)
    requires KeepsConstants(to) && AgreeOn(Through(sigma, to), tau, Atoms(f))
    ensures Same(Sem(sigma, Rename(f, to)), Sem(tau, f))
    decreases f, 1
  {
    if f.Atom? { AtomRename(f.name, to, sigma, tau); }
    else if IsUnary(f) { RenameUnary(f, to, sigma, tau); }
    else if IsBoolean(f) { RenameBoolean(f, to, sigma, tau); }
    else { RenameTemporal(f, to, sigma, tau); }
  }

  lemma {:induction false} RenameUnary(f: Formula, to: Renaming, sigma: Trace, tau: Trace)
    requires IsUnary(f) && KeepsConstants(to) && AgreeOn(Through(sigma, to), tau, Atoms(f))
    ensures Same(Sem(sigma, Rename(f, to)), Sem(tau, f))
    decreases f, 0
  {
    RenameMeans(f.child, to, sigma, tau);
    SameUnary(Sem(sigma, Rename(f.child, to)), Sem(tau, f.child));
  }

  lemma {:induction false} RenameBoolean(f: Formula, to: Renaming, sigma: Trace, tau: Trace)
    requires IsBoolean(f) && KeepsConstants(to) && AgreeOn(Through(sigma, to), tau, Atoms(f))
    ensures Same(Sem(sigma, Rename(f, to)), Sem(tau, f))
    decreases f, 0
  {
    AgreeOnParts(f.left, f.right, Through(sigma, to), tau);
    RenameMeans(f.left, to, sigma, tau);
    RenameMeans(f.right, to, sigma, tau);
    SameBoolean(Sem(sigma, Rename(f.left, to)), Sem(sigma, Rename(f.right, to)), Sem(tau, f.left), Sem(tau, f.right));
  }

  lemma {:induction false} RenameTemporal(f: Formula, to: Renaming, sigma: Trace, tau: Trace)
    requires (f.Until? || f.Release? || f.WeakUntil?) && KeepsConstants(to)
    requires AgreeOn(Through(sigma, to), tau, Atoms(f))
    ensures Same(Sem(sigma, Rename(f, to)), Sem(tau, f))
    decreases f, 0
  {
    hide UP, RP, WP, Same, AgreeOn, AtomP;
    AgreeOnParts(f.left, f.right, Through(sigma, to), tau);
    RenameMeans(f.left, to, sigma, tau);
    RenameMeans(f.right, to, sigma, tau);
    SameTemporal(Sem(sigma, Rename(f.left, to)), Sem(sigma, Rename(f.right, to)), Sem(tau, f.left), Sem(tau, f.right));
  }

  lemma AgreeOnParts(g: Formula, h: Formula, sigma: Trace, tau: Trace)
    requires AgreeOn(sigma, tau, Atoms(g) + Atoms(h))
    ensures AgreeOn(sigma, tau, Atoms(g)) && AgreeOn(sigma, tau, Atoms(h))
  {}

  lemma AtomRename(name: string, to: Renaming, sigma: Trace, tau: Trace)
    requires KeepsConstants(to) && AgreeOn(Through(sigma, to), tau, Atoms(Atom(name)))
    ensures Same(Sem(sigma, Atom(to(name))), Sem(tau, Atom(name)))
  {
    forall t: nat ensures AtomP(sigma, to(name))(t) <==> AtomP(tau, name)(t) {
      if !IsConstantAtom(name) { assert Through(sigma, to)(t, name) == tau(t, name); }
    }
  }

  // -- The game ---------------------------------------------------------------------------------

  /** Which names the environment controls; the system controls the others. */
  type Side = string -> bool

  /** The system's values at a position, given the inputs so far (and, in the type, more). */
  type Strategy = (nat, Trace) -> (string -> bool)

  ghost predicate SameInputs(inputs: Side, e: Trace, e': Trace, t: nat) {
    forall u: nat, name :: u <= t && inputs(name) ==> e(u, name) == e'(u, name)
  }

  /** A strategy reads nothing but the inputs up to its own position. */
  ghost predicate Causal(strategy: Strategy, inputs: Side) {
    forall t: nat, e: Trace, e': Trace :: SameInputs(inputs, e, e', t) ==> SameValues(strategy(t, e), strategy(t, e'))
  }

  ghost predicate SameValues(v: string -> bool, w: string -> bool) {
    forall name :: v(name) == w(name)
  }

  /** The trace of inputs `e` answered by a strategy. */
  ghost function Play(strategy: Strategy, inputs: Side, e: Trace): Trace {
    (t: nat, name: string) => if inputs(name) then e(t, name) else strategy(t, e)(name)
  }

  ghost predicate Wins(strategy: Strategy, inputs: Side, f: Formula) {
    forall e: Trace :: Holds(Play(strategy, inputs, e), f, 0)
  }

  /** Some causal strategy makes `f` true against all inputs. */
  ghost predicate Realizable(f: Formula, inputs: Side) {
    exists strategy: Strategy :: Causal(strategy, inputs) && Wins(strategy, inputs, f)
  }

  // -- Renaming the signals ---------------------------------------------------------------------

  /** `to` renames the atoms of a formula one to one and each to its own side; `back` undoes it. */
  ghost predicate SideBySide(names: set<string>, to: Renaming, back: Renaming, inputs: Side, inputs': Side) {
    forall name :: name in names ==> back(to(name)) == name && (inputs'(to(name)) <==> inputs(name))
  }

  /** A trace over the new names, read over the old. */
  ghost function Pulled(e: Trace, to: Renaming, names: set<string>): Trace {
    (t: nat, name: string) => name in names && e(t, to(name))
  }

  /** A trace over the old names, read over the new. */
  ghost function Pushed(e: Trace, to: Renaming, back: Renaming, names: set<string>): Trace {
    (t: nat, name: string) => back(name) in names && to(back(name)) == name && e(t, back(name))
  }

  /** The strategy over the new names that plays the old one. */
  ghost function Forward(strategy: Strategy, to: Renaming, back: Renaming, names: set<string>): Strategy {
    (t: nat, e: Trace) => (name: string) => strategy(t, Pulled(e, to, names))(back(name))
  }

  /** The strategy over the old names that plays the new one. */
  ghost function Backward(strategy: Strategy, to: Renaming, back: Renaming, names: set<string>): Strategy {
    (t: nat, e: Trace) => (name: string) => strategy(t, Pushed(e, to, back, names))(to(name))
  }

  /** An old strategy that may see more than the atoms: restricted to their inputs. */
  lemma PulledInputs(e: Trace, e': Trace, to: Renaming, names: set<string>, back: Renaming, inputs: Side,
                     inputs': Side, t: nat)
    requires SideBySide(names, to, back, inputs, inputs') && SameInputs(inputs', e, e', t)
    ensures SameInputs(inputs, Pulled(e, to, names), Pulled(e', to, names), t)
  {
    forall u: nat, name | u <= t && inputs(name) ensures Pulled(e, to, names)(u, name) == Pulled(e', to, names)(u, name) {
      if name in names { assert inputs'(to(name)); }
    }
  }

  lemma PushedInputs(e: Trace, e': Trace, to: Renaming, names: set<string>, back: Renaming, inputs: Side,
                     inputs': Side, t: nat)
    requires SideBySide(names, to, back, inputs, inputs') && SameInputs(inputs, e, e', t)
    ensures SameInputs(inputs', Pushed(e, to, back, names), Pushed(e', to, back, names), t)
  {
    forall u: nat, name | u <= t && inputs'(name)
      ensures Pushed(e, to, back, names)(u, name) == Pushed(e', to, back, names)(u, name)
    {
      if back(name) in names && to(back(name)) == name { assert inputs(back(name)); }
    }
  }

  lemma ForwardCausal(strategy: Strategy, to: Renaming, back: Renaming, names: set<string>, inputs: Side, inputs': Side)
    requires SideBySide(names, to, back, inputs, inputs') && Causal(strategy, inputs)
    ensures Causal(Forward(strategy, to, back, names), inputs')
  {
    var forward := Forward(strategy, to, back, names);
    forall t: nat, e: Trace, e': Trace | SameInputs(inputs', e, e', t) ensures SameValues(forward(t, e), forward(t, e')) {
      PulledInputs(e, e', to, names, back, inputs, inputs', t);
      assert SameValues(strategy(t, Pulled(e, to, names)), strategy(t, Pulled(e', to, names)));
    }
  }

  lemma BackwardCausal(strategy: Strategy, to: Renaming, back: Renaming, names: set<string>, inputs: Side,
                       inputs': Side)
    requires SideBySide(names, to, back, inputs, inputs') && Causal(strategy, inputs')
    ensures Causal(Backward(strategy, to, back, names), inputs)
  {
    var backward := Backward(strategy, to, back, names);
    forall t: nat, e: Trace, e': Trace | SameInputs(inputs, e, e', t) ensures SameValues(backward(t, e), backward(t, e')) {
      PushedInputs(e, e', to, names, back, inputs, inputs', t);
      assert SameValues(strategy(t, Pushed(e, to, back, names)), strategy(t, Pushed(e', to, back, names)));
    }
  }

  lemma ForwardPlay(strategy: Strategy, to: Renaming, back: Renaming, names: set<string>, inputs: Side, inputs': Side,
                    e: Trace)
    requires SideBySide(names, to, back, inputs, inputs')
    ensures AgreeOn(Through(Play(Forward(strategy, to, back, names), inputs', e), to),
                    Play(strategy, inputs, Pulled(e, to, names)), names)
  {}

  lemma BackwardPlay(strategy: Strategy, to: Renaming, back: Renaming, names: set<string>, inputs: Side,
                     inputs': Side, e: Trace)
    requires SideBySide(names, to, back, inputs, inputs')
    ensures AgreeOn(Through(Play(strategy, inputs', Pushed(e, to, back, names)), to),
                    Play(Backward(strategy, to, back, names), inputs, e), names)
  {}

  /** Renaming a formula's signals one to one, each to its own side, does not change whether the
      system can win, whatever else the two alphabets hold. */
  lemma RenamingKeepsRealizability(f: Formula, to: Renaming, back: Renaming, inputs: Side, inputs': Side)
    requires KeepsConstants(to) && SideBySide(Atoms(f), to, back, inputs, inputs')
    ensures Realizable(f, inputs) <==> Realizable(Rename(f, to), inputs')
  {
    if Realizable(f, inputs) { ForwardWins(f, to, back, inputs, inputs'); }
    if Realizable(Rename(f, to), inputs') { BackwardWins(f, to, back, inputs, inputs'); }
  }

  lemma ForwardWins(f: Formula, to: Renaming, back: Renaming, inputs: Side, inputs': Side)
    requires KeepsConstants(to) && SideBySide(Atoms(f), to, back, inputs, inputs') && Realizable(f, inputs)
    ensures Realizable(Rename(f, to), inputs')
  {
    var names := Atoms(f);
    var strategy: Strategy :| Causal(strategy, inputs) && Wins(strategy, inputs, f);
    var forward := Forward(strategy, to, back, names);
    ForwardCausal(strategy, to, back, names, inputs, inputs');
    forall e: Trace ensures Holds(Play(forward, inputs', e), Rename(f, to), 0) {
      var tau := Play(strategy, inputs, Pulled(e, to, names));
      ForwardPlay(strategy, to, back, names, inputs, inputs', e);
      RenameMeans(f, to, Play(forward, inputs', e), tau);
      assert Holds(tau, f, 0);
    }
    assert Wins(forward, inputs', Rename(f, to));
  }

  lemma BackwardWins(f: Formula, to: Renaming, back: Renaming, inputs: Side, inputs': Side)
    requires KeepsConstants(to) && SideBySide(Atoms(f), to, back, inputs, inputs') && Realizable(Rename(f, to), inputs')
    ensures Realizable(f, inputs)
  {
    var names := Atoms(f);
    var strategy: Strategy :| Causal(strategy, inputs') && Wins(strategy, inputs', Rename(f, to));
    var backward := Backward(strategy, to, back, names);
    BackwardCausal(strategy, to, back, names, inputs, inputs');
    forall e: Trace ensures Holds(Play(backward, inputs, e), f, 0) {
      var sigma := Play(strategy, inputs', Pushed(e, to, back, names));
      BackwardPlay(strategy, to, back, names, inputs, inputs', e);
      RenameMeans(f, to, sigma, Play(backward, inputs, e));
      assert Holds(sigma, Rename(f, to), 0);
    }
    assert Wins(backward, inputs, f);
  }

  /** Formulas that mean the same are realizable together. */
  lemma SameMeaningSameRealizability(f: Formula, g: Formula, inputs: Side)
    requires forall sigma: Trace, t: nat :: Holds(sigma, f, t) <==> Holds(sigma, g, t)
    ensures Realizable(f, inputs) <==> Realizable(g, inputs)
  {
    forall strategy: Strategy ensures Wins(strategy, inputs, f) <==> Wins(strategy, inputs, g) {
      forall e: Trace ensures Holds(Play(strategy, inputs, e), f, 0) <==> Holds(Play(strategy, inputs, e), g, 0) {}
    }
  }
}
