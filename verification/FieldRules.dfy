/** The rules for the propositional fields against what they decide: when a requirement implies itself with
    another response, condition or stop, whatever its other fields are. */
module FieldRules {
  import opened Ltl
  import opened Fretish
  import opened FretishSemantics
  import opened ConditionOrder
  import opened Realizability
  import opened RuleSearches
  import opened ScopeOrder
  import opened TimingExact

  // -- What one propositional formula says of another -------------------------------------------

  ghost predicate PropEntails(f: Formula, g: Formula) {
    forall sigma: Trace, t: nat :: Sem(sigma, f)(t) ==> Sem(sigma, g)(t)
  }

  ghost predicate PropEquivalent(f: Formula, g: Formula) {
    PropEntails(f, g) && PropEntails(g, f)
  }

  ghost predicate Valid(f: Formula) {
    forall sigma: Trace, t: nat :: Sem(sigma, f)(t)
  }

  ghost predicate Unsatisfiable(f: Formula) {
    forall sigma: Trace, t: nat :: !Sem(sigma, f)(t)
  }

  lemma EntailsOn(f: Formula, g: Formula, sigma: Trace)
    ensures PropEntails(f, g) ==> Entails(Sem(sigma, f), Sem(sigma, g))
    ensures PropEquivalent(f, g) ==> Same(Sem(sigma, f), Sem(sigma, g))
  {}

  lemma SettledOn(f: Formula, sigma: Trace)
    ensures Valid(f) ==> forall t: nat :: Sem(sigma, f)(t)
    ensures Unsatisfiable(f) ==> Never(Sem(sigma, f))
  {}

  /** A formula without temporal operators reads one position of a trace. */
  lemma {:induction false} ReadsOnePosition(f: Formula, sigma: Trace, t: nat, tau: Trace, u: nat)
    requires IsPropositional(f) && forall x :: x in Atoms(f) ==> sigma(t, x) == tau(u, x)
    ensures Sem(sigma, f)(t) <==> Sem(tau, f)(u)
  {
    if f.Not? {
      ReadsOnePosition(f.child, sigma, t, tau, u);
    } else if !f.Atom? {
      ReadsOnePosition(f.left, sigma, t, tau, u);
      ReadsOnePosition(f.right, sigma, t, tau, u);
    }
  }

  // -- Traces made of moments of others, with names of their own --------------------------------

  /** A position of a trace. */
  datatype Moment = Moment(sigma: Trace, at: nat)

  ghost predicate Shows(v: Moment, f: Formula) {
    Sem(v.sigma, f)(v.at)
  }

  /** Four names not used so far. */
  datatype Names = Names(c: string, r: string, s: string, m: string)

  predicate New(names: Names, used: set<string>) {
    && names.c !in used && names.r !in used && names.s !in used && names.m !in used
    && !IsConstantAtom(names.c) && !IsConstantAtom(names.r) && !IsConstantAtom(names.s) && !IsConstantAtom(names.m)
    && names.c != names.r && names.c != names.s && names.c != names.m && names.r != names.s && names.r != names.m
    && names.s != names.m
  }

  lemma {:induction false} LongName(used: set<string>) returns (n: nat)
    ensures n > 5 && forall x :: x in used ==> |x| < n
  {
    if used == {} {
      n := 6;
    } else {
      var y :| y in used;
      var k := LongName(used - {y});
      n := if |y| < k then k else |y| + 1;
      assert used == (used - {y}) + {y};
    }
  }

  lemma NewNames(used: set<string>) returns (names: Names)
    ensures New(names, used)
  {
    var n := LongName(used);
    var stem := seq(n, i => 'n');
    names := Names(stem + "c", stem + "r", stem + "s", stem + "m");
    assert names.c[n] == 'c' && names.r[n] == 'r' && names.s[n] == 's' && names.m[n] == 'm';
    assert |names.c| == |names.r| == |names.s| == |names.m| == n + 1;
    assert |TRUE_NAME| == 4 && |FALSE_NAME| == 5;
  }

  ghost function Played(v: nat -> Moment, names: Names, c: Pred, r: Pred, s: Pred, m: Pred): Trace {
    (t: nat, name: string) =>
      if name == names.c then c(t) else if name == names.r then r(t) else if name == names.s then s(t)
      else if name == names.m then m(t) else v(t).sigma(v(t).at, name)
  }

  lemma PlayedShows(f: Formula, v: nat -> Moment, names: Names, c: Pred, r: Pred, s: Pred, m: Pred, used: set<string>)
    requires IsPropositional(f) && New(names, used) && Atoms(f) <= used
    ensures forall t: nat :: Sem(Played(v, names, c, r, s, m), f)(t) <==> Shows(v(t), f)
  {
    forall t: nat ensures Sem(Played(v, names, c, r, s, m), f)(t) <==> Shows(v(t), f) {
      ReadsOnePosition(f, Played(v, names, c, r, s, m), t, v(t).sigma, v(t).at);
    }
  }

  lemma PlayedAtoms(v: nat -> Moment, names: Names, c: Pred, r: Pred, s: Pred, m: Pred, used: set<string>, scope: ScopeKind)
    requires New(names, used + {""})
    ensures var sigma := Played(v, names, c, r, s, m);
      && Same(Sem(sigma, Atom(names.c)), c) && Same(Sem(sigma, Atom(names.r)), r) && Same(Sem(sigma, Atom(names.s)), s)
      && (scope.Global? || Same(AtomP(sigma, ScopeAt(scope, names.m).mode), m))
  {}

  // -- A requirement by its fields --------------------------------------------------------------

  ghost predicate HoldsWith(sigma: Trace, c: Formula, r: Formula, kind: Kind, s: Formula, ct: ConditionType,
                            scope: ScopeKind, mode: string) {
    Holds(sigma, RequirementToLtl(RequirementAt(c, r, kind, s, ct, scope, mode)), 0)
  }

  lemma HoldsWithMeans(sigma: Trace, c: Formula, r: Formula, kind: Kind, s: Formula, ct: ConditionType,
                       scope: ScopeKind, mode: string)
    ensures HoldsWith(sigma, c, r, kind, s, ct, scope, mode)
       <==> Lower(scope, ct, c == TRUE, kind, Sem(sigma, s), AtomP(sigma, ScopeAt(scope, mode).mode), Sem(sigma, c),
                  Sem(sigma, r))(0)
  {
    hide Sem, Lower, Wrap, RequirementToLtl;
    var req := RequirementAt(c, r, kind, s, ct, scope, mode);
    LoweringMeans(sigma, req);
    WithStopMeans(sigma, kind, s);
    if !kind.UntilK? && !kind.BeforeK? {
      LowerStopUnused(scope, ct, c == TRUE, kind, StopP(sigma, req.timing), Sem(sigma, s), AtomP(sigma, req.scope.mode),
                      Sem(sigma, c), Sem(sigma, r));
    }
  }

  lemma BodiesGiveHolds(sigma: Trace, c: Formula, r: Formula, r': Formula, kind: Kind, s: Formula, s': Formula,
                        ct: ConditionType, scope: ScopeKind, mode: string)
    requires var m := AtomP(sigma, ScopeAt(scope, mode).mode);
      Entails(ScopedBody(scope, kind, Sem(sigma, s), m, Sem(sigma, r)), ScopedBody(scope, kind, Sem(sigma, s'), m, Sem(sigma, r')))
    requires HoldsWith(sigma, c, r, kind, s, ct, scope, mode)
    ensures HoldsWith(sigma, c, r', kind, s', ct, scope, mode)
  {
    hide Sem, ScopedBody, Inner, Wrap, HoldsWith;
    HoldsWithMeans(sigma, c, r, kind, s, ct, scope, mode);
    HoldsWithMeans(sigma, c, r', kind, s', ct, scope, mode);
    var m := AtomP(sigma, ScopeAt(scope, mode).mode);
    BodiesGiveLowered(scope, ct, c == TRUE, m, Sem(sigma, c), ScopedBody(scope, kind, Sem(sigma, s), m, Sem(sigma, r)),
                      ScopedBody(scope, kind, Sem(sigma, s'), m, Sem(sigma, r')));
  }

  /** Due at one position under a mode without boundary, a requirement is its body there. */
  lemma HoldsAtPoint(sigma: Trace, names: Names, r: Formula, kind: Kind, s: Formula, ct: ConditionType, scope: ScopeKind,
                     used: set<string>)
    requires New(names, used)
    requires Same(Sem(sigma, Atom(names.c)), At(Position(scope)))
    requires scope.Global? || Same(AtomP(sigma, ScopeAt(scope, names.m).mode), FreeMode(scope))
    ensures Never(BoundaryP(scope, AtomP(sigma, ScopeAt(scope, names.m).mode)))
    ensures HoldsWith(sigma, Atom(names.c), r, kind, s, ct, scope, names.m)
       <==> ScopedBody(scope, kind, Sem(sigma, s), AtomP(sigma, ScopeAt(scope, names.m).mode), Sem(sigma, r))(Position(scope))
  {
    hide ScopedBody, HoldsWith;
    var m := AtomP(sigma, ScopeAt(scope, names.m).mode);
    HoldsWithMeans(sigma, Atom(names.c), r, kind, s, ct, scope, names.m);
    assert Atom(names.c) != TRUE;
    if scope.Global? { GlobalAtPoint(kind, ct, m, Sem(sigma, Atom(names.c)), Sem(sigma, r), Sem(sigma, s)); }
    else { FreePlaces(kind, scope, ct, m, Sem(sigma, Atom(names.c)), Sem(sigma, r), Sem(sigma, s)); }
  }

  lemma GlobalAtPoint(kind: Kind, ct: ConditionType, m: Pred, c: Pred, p: Pred, s: Pred)
    requires Same(c, At(0))
    ensures Lower(Global, ct, false, kind, s, m, c, p)(0) <==> ScopedBody(Global, kind, s, m, p)(0)
  {
    InnerAtPoint(false, ff, ct, c, ScopedBody(Global, kind, s, m, p), 0);
  }

  // -- The response -----------------------------------------------------------------------------

  /** Whatever the condition, the stop and the mode, the requirement with response `r` implies it with `r'`. */
  ghost predicate ResponseStepHolds(r: Formula, r': Formula, kind: Kind, scope: ScopeKind, ct: ConditionType) {
    forall sigma: Trace, c: Formula, s: Formula, mode: string
      | IsPropositional(c) && IsPropositional(s) && HoldsWith(sigma, c, r, kind, s, ct, scope, mode)
      :: HoldsWith(sigma, c, r', kind, s, ct, scope, mode)
  }

  ghost predicate ResponseAllows(r: Formula, r': Formula, kind: Kind, scope: ScopeKind) {
    if kind.AfterK? then PropEquivalent(r, r') else if IsOnlyScope(scope) then PropEntails(r', r) else PropEntails(r, r')
  }

  /** `after` takes the response at both polarities; there a response that says nothing is a case of its
      own. No plain `after` holds of a valid response, nor, without a boundary, of an unsatisfiable one; an
      only `after` holds of either. */
  ghost predicate ResponseMissed(r: Formula, r': Formula, kind: Kind, scope: ScopeKind) {
    kind.AfterK? &&
    if IsOnlyScope(scope) then Valid(r') || Unsatisfiable(r')
    else Valid(r) || (Unsatisfiable(r) && !HasBoundary(scope))
  }

  lemma ResponseSeparates(r: Formula, r': Formula, kind: Kind, scope: ScopeKind, ct: ConditionType, v: nat -> Moment, s0: Pred)
    returns (p: Pred, q: Pred, s: Pred, m: Pred)
    requires IsPropositional(r) && IsPropositional(r')
    ensures Same(s, s0) && Never(BoundaryP(scope, m))
    ensures forall t: nat :: (p(t) <==> Shows(v(t), r)) && (q(t) <==> Shows(v(t), r'))
    ensures ScopedBody(scope, kind, s, m, p)(Position(scope)) && !ScopedBody(scope, kind, s, m, q)(Position(scope))
        ==> !ResponseStepHolds(r, r', kind, scope, ct)
  {
    hide ScopedBody, HoldsWith, Sem, Shows, Played, AtomP, ResponseStepHolds;
    var used := Atoms(r) + Atoms(r');
    var names := NewNames(used + {""});
    var c0, m0 := At(Position(scope)), FreeMode(scope);
    var sigma := Played(v, names, c0, ff, s0, m0);
    PlayedAtoms(v, names, c0, ff, s0, m0, used, scope);
    PlayedShows(r, v, names, c0, ff, s0, m0, used);
    PlayedShows(r', v, names, c0, ff, s0, m0, used);
    p, q, s, m := Sem(sigma, r), Sem(sigma, r'), Sem(sigma, Atom(names.s)), AtomP(sigma, ScopeAt(scope, names.m).mode);
    HoldsAtPoint(sigma, names, r, kind, Atom(names.s), ct, scope, used);
    HoldsAtPoint(sigma, names, r', kind, Atom(names.s), ct, scope, used);
    if HoldsWith(sigma, Atom(names.c), r, kind, Atom(names.s), ct, scope, names.m)
       && !HoldsWith(sigma, Atom(names.c), r', kind, Atom(names.s), ct, scope, names.m) {
      ResponseRefuted(sigma, Atom(names.c), r, r', kind, Atom(names.s), ct, scope, names.m);
    }
  }

  lemma ResponseRefuted(sigma: Trace, c: Formula, r: Formula, r': Formula, kind: Kind, s: Formula, ct: ConditionType,
                        scope: ScopeKind, mode: string)
    requires c.Atom? && s.Atom? && HoldsWith(sigma, c, r, kind, s, ct, scope, mode)
    requires !HoldsWith(sigma, c, r', kind, s, ct, scope, mode)
    ensures !ResponseStepHolds(r, r', kind, scope, ct)
  {}

  /** A stop with which a body that has its response throughout holds and one that never does fails. */
  ghost function ApartStop(kind: Kind, u: nat): Pred { if kind.BeforeK? then At(u + 1) else ff }

  lemma HeldAndLacked(kind: Kind, u: nat, b: Pred, s: Pred, p: Pred, q: Pred)
    requires !kind.AfterK? && Never(b) && Same(s, ApartStop(kind, u)) && (forall t: nat :: p(t)) && Never(q)
    ensures Body(kind, s, b, p)(u) && !Body(kind, s, b, q)(u)
  {
    assert p(u) && !q(u);
    match kind {
      case WithinK(n) => assert SomeUpTo(n, p)(u);
      case ForK(n) => assert AllUpTo(n, p)(u); if RP(b, q)(u) { ReleaseNow(b, q, u); }
      case EvK => assert forall i: nat :: u <= i < u ==> NotP(b)(i);
      case AlwK => if RP(b, q)(u) { ReleaseNow(b, q, u); }
      case UntilK => assert GP(p)(u) && !GP(q)(u); if RP(b, q)(u) { ReleaseNow(b, q, u); }
      case BeforeK => BeforeApart(u, b, s, p, q);
      case _ =>
    }
  }

  lemma BeforeApart(u: nat, b: Pred, s: Pred, p: Pred, q: Pred)
    requires Never(b) && Same(s, At(u + 1)) && (forall t: nat :: p(t)) && Never(q)
    ensures RP(OrP(p, b), NotP(s))(u) && !RP(OrP(q, b), NotP(s))(u)
  {
    var pb, qb, ns := OrP(p, b), OrP(q, b), NotP(s);
    assert pb(u) && ns(u);
    if RP(qb, ns)(u) { ReleaseNow(qb, ns, u); }
  }

  lemma MomentOf(f: Formula, g: Formula) returns (v: Moment)
    requires !PropEntails(f, g)
    ensures Shows(v, f) && !Shows(v, g)
  {
    var sigma: Trace, t: nat :| Sem(sigma, f)(t) && !Sem(sigma, g)(t);
    v := Moment(sigma, t);
  }

  lemma MomentWith(f: Formula) returns (v: Moment)
    requires !Unsatisfiable(f)
    ensures Shows(v, f)
  {
    var sigma: Trace, t: nat :| Sem(sigma, f)(t);
    v := Moment(sigma, t);
  }

  lemma MomentWithout(f: Formula) returns (v: Moment)
    requires !Valid(f)
    ensures !Shows(v, f)
  {
    var sigma: Trace, t: nat :| !Sem(sigma, f)(t);
    v := Moment(sigma, t);
  }

  lemma PlainResponseNeeded(r: Formula, r': Formula, kind: Kind, scope: ScopeKind, ct: ConditionType)
    requires IsPropositional(r) && IsPropositional(r') && !kind.AfterK? && !ResponseAllows(r, r', kind, scope)
    ensures !ResponseStepHolds(r, r', kind, scope, ct)
  {
    hide Body, Shows, ResponseStepHolds;
    var u := Position(scope);
    if IsOnlyScope(scope) {
      var v := MomentOf(r', r);
      var p, q, s, m := ResponseSeparates(r, r', kind, scope, ct, (t: nat) => v, ApartStop(Dual(kind), u));
      HeldAndLacked(Dual(kind), u, BoundaryP(scope, m), s, NotP(p), NotP(q));
    } else {
      var v := MomentOf(r, r');
      var p, q, s, m := ResponseSeparates(r, r', kind, scope, ct, (t: nat) => v, ApartStop(kind, u));
      HeldAndLacked(kind, u, BoundaryP(scope, m), s, p, q);
    }
  }

  /** One moment at `u + n + 1`, another before and after. */
  function Arriving(v: Moment, rest: Moment, at: nat): nat -> Moment {
    (t: nat) => if t == at then v else rest
  }

  /** A response that arrives on time against one that is absent then, or there before. */
  lemma AfterArrives(n: nat, u: nat, b: Pred, s: Pred, p: Pred, q: Pred)
    requires Never(b) && Same(p, At(u + n + 1)) && (!q(u + n + 1) || q(u))
    ensures Body(AfterK(n), s, b, p)(u) && !Body(AfterK(n), s, b, q)(u)
  {
    UnboundedAfter(n, b, s, p, u);
    UnboundedAfter(n, b, s, q, u);
  }

  lemma PlainAfterNeeded(r: Formula, r': Formula, n: nat, scope: ScopeKind, ct: ConditionType)
    requires IsPropositional(r) && IsPropositional(r') && !IsOnlyScope(scope)
    requires !PropEquivalent(r, r') && !Valid(r) && !Unsatisfiable(r)
    ensures !ResponseStepHolds(r, r', AfterK(n), scope, ct)
  {
    hide Body, ResponseStepHolds, PropEntails, Valid, Unsatisfiable;
    var u := Position(scope);
    var first, rest;
    if !PropEntails(r, r') {
      first := MomentOf(r, r');
      rest := MomentWithout(r);
    } else {
      rest := MomentOf(r', r);
      first := MomentWith(r);
    }
    assert Shows(first, r) && !Shows(rest, r) && (!Shows(first, r') || Shows(rest, r'));
    var p, q, s, m := ResponseSeparates(r, r', AfterK(n), scope, ct, Arriving(first, rest, u + n + 1), ff);
    AfterArrives(n, u, BoundaryP(scope, m), s, p, q);
  }

  /** A boundary at once discharges the absent response, not the one that is there. */
  lemma EdgeApart(n: nat, b: Pred, s: Pred, p: Pred, q: Pred)
    requires b(0) && Never(p) && forall t: nat :: q(t)
    ensures Body(AfterK(n), s, b, p)(0) && !Body(AfterK(n), s, b, q)(0)
  {
    assert AllUpTo(n, NotP(p))(0) && SomeBefore(n + 1, b)(0);
    assert !NotP(q)(0);
    if RP(b, NotP(q))(0) { ReleaseNow(b, NotP(q), 0); }
  }

  lemma EdgeAfterNeeded(r: Formula, r': Formula, n: nat, scope: ScopeKind, ct: ConditionType)
    requires IsPropositional(r) && IsPropositional(r') && !IsOnlyScope(scope) && HasBoundary(scope)
    requires Unsatisfiable(r) && !PropEquivalent(r, r')
    ensures !ResponseStepHolds(r, r', AfterK(n), scope, ct)
  {
    hide Body, Lower, Sem, Shows, Played, AtomP, HoldsWith;
    var v := MomentOf(r', r);
    var used := Atoms(r) + Atoms(r');
    var names := NewNames(used + {""});
    var c0, m0 := At(0), EdgeMode(scope);
    var sigma := Played((t: nat) => v, names, c0, ff, ff, m0);
    PlayedAtoms((t: nat) => v, names, c0, ff, ff, m0, used, scope);
    PlayedShows(r, (t: nat) => v, names, c0, ff, ff, m0, used);
    PlayedShows(r', (t: nat) => v, names, c0, ff, ff, m0, used);
    var m, c, p, q, s := AtomP(sigma, ScopeAt(scope, names.m).mode), Sem(sigma, Atom(names.c)), Sem(sigma, r),
                         Sem(sigma, r'), Sem(sigma, Atom(names.s));
    assert Atom(names.c) != TRUE;
    HoldsWithMeans(sigma, Atom(names.c), r, AfterK(n), Atom(names.s), ct, scope, names.m);
    HoldsWithMeans(sigma, Atom(names.c), r', AfterK(n), Atom(names.s), ct, scope, names.m);
    EdgePlaces(AfterK(n), scope, ct, m, c, p, s);
    EdgePlaces(AfterK(n), scope, ct, m, c, q, s);
    EdgeApart(n, BoundaryP(scope, m), s, p, q);
    assert IsPropositional(Atom(names.c)) && IsPropositional(Atom(names.s));
  }

  /** Under an only scope: the one response comes in time, or neither comes up to the end, where the other
      does. */
  lemma OnlyAfterApart(n: nat, u: nat, b: Pred, s: Pred, p: Pred, q: Pred)
    requires Never(b) && q(u + n + 1) && (forall t: nat :: u <= t <= u + n ==> !q(t))
    requires p(u) || forall t: nat :: u <= t <= u + n + 1 ==> !p(t)
    ensures OnlyBody(AfterK(n), s, b, p)(u) && !OnlyBody(AfterK(n), s, b, q)(u)
  {
    if p(u) { assert SomeUpTo(n, p)(u); } else { assert AllUpTo(n + 1, NotP(p))(u); }
    UnboundedFor(n + 1, b, NotP(q), u);
    UnboundedWithin(n, b, q, u);
    assert !NotP(q)(u + n + 1);
  }

  /** One moment at `u`, one at `u + n + 1`, a third elsewhere. */
  function Twice(first: Moment, last: Moment, rest: Moment, u: nat, n: nat): nat -> Moment {
    (t: nat) => if t == u then first else if t == u + n + 1 then last else rest
  }

  lemma OnlyAfterSeparates(r: Formula, r': Formula, n: nat, scope: ScopeKind, ct: ConditionType, first: Moment,
                           last: Moment, rest: Moment)
    requires IsPropositional(r) && IsPropositional(r') && IsOnlyScope(scope)
    requires !Shows(first, r') && !Shows(rest, r') && Shows(last, r')
    requires Shows(first, r) || (!Shows(first, r) && !Shows(rest, r) && !Shows(last, r))
    ensures !ResponseStepHolds(r, r', AfterK(n), scope, ct)
  {
    hide OnlyBody, ResponseStepHolds, Shows;
    var u := Position(scope);
    var p, q, s, m := ResponseSeparates(r, r', AfterK(n), scope, ct, Twice(first, last, rest, u, n), ff);
    OnlyAfterApart(n, u, BoundaryP(scope, m), s, p, q);
  }

  lemma OnlyAfterNeeded(r: Formula, r': Formula, n: nat, scope: ScopeKind, ct: ConditionType)
    requires IsPropositional(r) && IsPropositional(r') && IsOnlyScope(scope)
    requires !PropEquivalent(r, r') && !Valid(r') && !Unsatisfiable(r')
    ensures !ResponseStepHolds(r, r', AfterK(n), scope, ct)
  {
    hide ResponseStepHolds, PropEntails, Valid, Unsatisfiable;
    var rest := MomentWithout(r');
    if !PropEntails(r, r') {
      var first := MomentOf(r, r');
      var last := MomentWith(r');
      OnlyAfterSeparates(r, r', n, scope, ct, first, last, rest);
    } else {
      var last := MomentOf(r', r);
      EntailsOn(r, r', rest.sigma);
      OnlyAfterSeparates(r, r', n, scope, ct, rest, last, rest);
    }
  }

  lemma ResponseNeeded(r: Formula, r': Formula, kind: Kind, scope: ScopeKind, ct: ConditionType)
    requires IsPropositional(r) && IsPropositional(r')
    requires !ResponseAllows(r, r', kind, scope) && !ResponseMissed(r, r', kind, scope)
    ensures !ResponseStepHolds(r, r', kind, scope, ct)
  {
    hide ResponseStepHolds;
    if !kind.AfterK? { PlainResponseNeeded(r, r', kind, scope, ct); }
    else if IsOnlyScope(scope) { OnlyAfterNeeded(r, r', kind.n, scope, ct); }
    else if Unsatisfiable(r) { EdgeAfterNeeded(r, r', kind.n, scope, ct); }
    else { PlainAfterNeeded(r, r', kind.n, scope, ct); }
  }

  /** No plain `after` holds of a response that is always there, nor, without a boundary, of one that never
      is; an only `after` holds of both. */
  lemma SettledAfter(scope: ScopeKind, n: nat, s: Pred, m: Pred, p: Pred, t: nat)
    requires (forall j: nat :: p(j)) || Never(p)
    ensures IsOnlyScope(scope) ==> ScopedBody(scope, AfterK(n), s, m, p)(t)
    ensures !IsOnlyScope(scope) && ((forall j: nat :: p(j)) || !HasBoundary(scope)) ==>
              !ScopedBody(scope, AfterK(n), s, m, p)(t)
  {
    var b, q := BoundaryP(scope, m), NotP(p);
    if IsOnlyScope(scope) {
      if p(t) { assert SomeUpTo(n, p)(t); } else { assert Never(p) && AllUpTo(n + 1, q)(t); }
    } else if p(t) {
      assert !q(t);
      if RP(b, q)(t) { ReleaseNow(b, q, t); }
    } else if !HasBoundary(scope) {
      UnboundedAfter(n, b, s, p, t);
    }
  }

  lemma ResponseEnough(r: Formula, r': Formula, kind: Kind, scope: ScopeKind, s: Pred, m: Pred, sigma: Trace)
    requires ResponseAllows(r, r', kind, scope) || ResponseMissed(r, r', kind, scope)
    ensures Entails(ScopedBody(scope, kind, s, m, Sem(sigma, r)), ScopedBody(scope, kind, s, m, Sem(sigma, r')))
  {
    hide ScopedBody, Sem, ResponseMissed, PropEntails, PropEquivalent;
    if ResponseAllows(r, r', kind, scope) {
      EntailsOn(r, r', sigma);
      EntailsOn(r', r, sigma);
      ResponseMono(scope, kind, s, m, Sem(sigma, r), Sem(sigma, r'));
    } else {
      MissedEnough(r, r', kind, scope, s, m, sigma);
    }
  }

  lemma MissedEnough(r: Formula, r': Formula, kind: Kind, scope: ScopeKind, s: Pred, m: Pred, sigma: Trace)
    requires ResponseMissed(r, r', kind, scope)
    ensures Entails(ScopedBody(scope, kind, s, m, Sem(sigma, r)), ScopedBody(scope, kind, s, m, Sem(sigma, r')))
  {
    hide ScopedBody, Sem, Valid, Unsatisfiable;
    var p, q := Sem(sigma, r), Sem(sigma, r');
    var settled := if IsOnlyScope(scope) then q else p;
    SettledOn(r, sigma);
    SettledOn(r', sigma);
    forall t: nat | ScopedBody(scope, kind, s, m, p)(t) ensures ScopedBody(scope, kind, s, m, q)(t) {
      SettledAfter(scope, kind.n, s, m, settled, t);
    }
  }

  /** The response's polarity, exactly: the step holds in every company where the rule allows it, and for
      `after` besides where the response settles it. */
  lemma ResponseRuleExact(r: Formula, r': Formula, kind: Kind, scope: ScopeKind, ct: ConditionType)
    requires IsPropositional(r) && IsPropositional(r')
    ensures ResponseStepHolds(r, r', kind, scope, ct)
       <==> ResponseAllows(r, r', kind, scope) || ResponseMissed(r, r', kind, scope)
  {
    hide ResponseAllows, ResponseMissed, HoldsWith;
    if ResponseAllows(r, r', kind, scope) || ResponseMissed(r, r', kind, scope) {
      forall sigma: Trace, c: Formula, s: Formula, mode: string | HoldsWith(sigma, c, r, kind, s, ct, scope, mode)
        ensures HoldsWith(sigma, c, r', kind, s, ct, scope, mode)
      {
        ResponseEnough(r, r', kind, scope, Sem(sigma, s), AtomP(sigma, ScopeAt(scope, mode).mode), sigma);
        BodiesGiveHolds(sigma, c, r, r', kind, s, s, ct, scope, mode);
      }
    } else {
      ResponseNeeded(r, r', kind, scope, ct);
    }
  }

  // -- The condition ----------------------------------------------------------------------------

  /** Whatever the response, the stop and the mode, the requirement under condition `c` implies it under `c'`. */
  ghost predicate ConditionStepHolds(c: Formula, c': Formula, kind: Kind, scope: ScopeKind, ct: ConditionType) {
    forall sigma: Trace, r: Formula, s: Formula, mode: string
      | IsPropositional(r) && IsPropositional(s) && HoldsWith(sigma, c, r, kind, s, ct, scope, mode)
      :: HoldsWith(sigma, c', r, kind, s, ct, scope, mode)
  }

  ghost predicate ConditionAllows(c: Formula, c': Formula, ct: ConditionType) {
    if ct.Continual? then PropEntails(c', c) else PropEquivalent(c, c')
  }

  /** A trigger over a body that lasts up to the boundary once it is due. */
  predicate LastsOnceDue(kind: Kind, scope: ScopeKind) {
    if IsOnlyScope(scope) then kind.EvK? else kind.AlwK?
  }

  /** Over such a body a trigger is as good as continual, and a trigger that never fires asks nothing. */
  ghost predicate ConditionMissed(c: Formula, c': Formula, kind: Kind, scope: ScopeKind, ct: ConditionType) {
    ct.Trigger? && ((LastsOnceDue(kind, scope) && PropEntails(c', c)) || Unsatisfiable(c'))
  }

  /** The requirement under two conditions on a trace of moments, with a response, a stop and a mode of its
      own. */
  lemma ConditionSeparates(c: Formula, c': Formula, kind: Kind, scope: ScopeKind, ct: ConditionType, v: nat -> Moment,
                           r0: Pred, s0: Pred)
    returns (d: Pred, d': Pred, p: Pred, s: Pred, m: Pred)
    requires IsPropositional(c) && IsPropositional(c')
    ensures Same(p, r0) && Same(s, s0) && (scope.Global? || Same(m, FreeMode(scope)))
    ensures forall t: nat :: (d(t) <==> Shows(v(t), c)) && (d'(t) <==> Shows(v(t), c'))
    ensures Lower(scope, ct, c == TRUE, kind, s, m, d, p)(0) && !Lower(scope, ct, c' == TRUE, kind, s, m, d', p)(0)
        ==> !ConditionStepHolds(c, c', kind, scope, ct)
  {
    hide Lower, HoldsWith, FreeMode, Sem, Shows, Played, AtomP, ConditionStepHolds;
    var used := Atoms(c) + Atoms(c');
    var names := NewNames(used + {""});
    var m0 := FreeMode(scope);
    var sigma := Played(v, names, ff, r0, s0, m0);
    PlayedAtoms(v, names, ff, r0, s0, m0, used, scope);
    PlayedShows(c, v, names, ff, r0, s0, m0, used);
    PlayedShows(c', v, names, ff, r0, s0, m0, used);
    d, d', p, s, m := Sem(sigma, c), Sem(sigma, c'), Sem(sigma, Atom(names.r)), Sem(sigma, Atom(names.s)),
                      AtomP(sigma, ScopeAt(scope, names.m).mode);
    HoldsWithMeans(sigma, c, Atom(names.r), kind, Atom(names.s), ct, scope, names.m);
    HoldsWithMeans(sigma, c', Atom(names.r), kind, Atom(names.s), ct, scope, names.m);
    if HoldsWith(sigma, c, Atom(names.r), kind, Atom(names.s), ct, scope, names.m)
       && !HoldsWith(sigma, c', Atom(names.r), kind, Atom(names.s), ct, scope, names.m) {
      ConditionRefuted(sigma, c, c', Atom(names.r), kind, Atom(names.s), ct, scope, names.m);
    }
  }

  lemma ConditionRefuted(sigma: Trace, c: Formula, c': Formula, r: Formula, kind: Kind, s: Formula, ct: ConditionType,
                         scope: ScopeKind, mode: string)
    requires r.Atom? && s.Atom? && HoldsWith(sigma, c, r, kind, s, ct, scope, mode)
    requires !HoldsWith(sigma, c', r, kind, s, ct, scope, mode)
    ensures !ConditionStepHolds(c, c', kind, scope, ct)
  {}

  lemma FreeReads(scope: ScopeKind, m: Pred, x: Pred)
    requires scope.Global? || Same(m, FreeMode(scope))
    ensures Never(BoundaryP(scope, m))
    ensures Wrap(scope, m, x)(0) <==> x(Position(scope))
  {
    if !scope.Global? { WrapFree(scope, m, x); }
  }

  /** A condition that never holds asks nothing. */
  lemma UnaskedInner(bounded: bool, b: Pred, ct: ConditionType, c: Pred, x: Pred, t: nat)
    requires Never(c)
    ensures Inner(bounded, b, ct, false, c, x)(t)
  {
    assert forall j: nat :: ImpP(c, x)(j);
    var edges := ImpP(AndP(NotP(c), AndP(XP(c), NotP(b))), AndP(XP(x), NotP(b)));
    assert forall j: nat :: edges(j) && ImpP(AndP(NotP(c), XP(c)), XP(x))(j);
  }

  lemma AskedInner(bounded: bool, b: Pred, ct: ConditionType, isTrue: bool, c: Pred, x: Pred, t: nat)
    requires Never(b) && c(t) && Inner(bounded, b, ct, isTrue, c, x)(t)
    ensures x(t)
  {
    if ct.Continual? && bounded { ReleaseNow(b, ImpP(c, x), t); }
    if ct.Continual? && !bounded { assert ImpP(c, x)(t); }
  }

  /** A body that fails where it is asked. */
  ghost function FailingResponse(kind: Kind, scope: ScopeKind): Pred {
    if IsOnlyScope(scope) then TopResponse(kind, Position(scope)) else ff
  }

  ghost function FailingStop(kind: Kind, scope: ScopeKind): Pred {
    if IsOnlyScope(scope) then TopStop(kind) else BottomStop(kind)
  }

  lemma FailingBody(kind: Kind, scope: ScopeKind, s: Pred, m: Pred, p: Pred)
    requires Never(BoundaryP(scope, m)) && Same(p, FailingResponse(kind, scope)) && Same(s, FailingStop(kind, scope))
    ensures !ScopedBody(scope, kind, s, m, p)(Position(scope))
  {
    hide Body, OnlyBody, TopResponse;
    if IsOnlyScope(scope) { TopOnly(kind, Position(scope), BoundaryP(scope, m), s, p); }
    else { BottomPlain(kind, Position(scope), BoundaryP(scope, m), s, p); }
  }

  /** The weaker condition asks where the stronger does not. */
  lemma WiderConditionNeeded(c: Formula, c': Formula, kind: Kind, scope: ScopeKind, ct: ConditionType)
    requires IsPropositional(c) && IsPropositional(c') && !PropEntails(c', c)
    ensures !ConditionStepHolds(c, c', kind, scope, ct)
  {
    hide ScopedBody, ConditionStepHolds, FailingResponse, FailingStop, Wrap, Inner, Shows;
    var v := MomentOf(c', c);
    var d, d', p, s, m := ConditionSeparates(c, c', kind, scope, ct, (t: nat) => v, FailingResponse(kind, scope),
                                             FailingStop(kind, scope));
    var u, b, bounded, x := Position(scope), BoundaryP(scope, m), HasBoundary(scope), ScopedBody(scope, kind, s, m, p);
    assert c != TRUE by { TrueShows(v); }
    FreeReads(scope, m, Inner(bounded, b, ct, false, d, x));
    FreeReads(scope, m, Inner(bounded, b, ct, c' == TRUE, d', x));
    UnaskedInner(bounded, b, ct, d, x, u);
    FailingBody(kind, scope, s, m, p);
    if Inner(bounded, b, ct, c' == TRUE, d', x)(u) { AskedInner(bounded, b, ct, c' == TRUE, d', x, u); }
  }

  lemma TrueShows(v: Moment)
    ensures Shows(v, TRUE)
  {}

  /** A body that holds where it is first asked and no longer one position on. */
  ghost function LapsingResponse(kind: Kind, scope: ScopeKind): Pred {
    if IsOnlyScope(scope) then OnlyLapseResponse(kind, Position(scope)) else LapseResponse(kind, Position(scope))
  }

  ghost function LapsingStop(kind: Kind, scope: ScopeKind): Pred {
    if IsOnlyScope(scope) then LapseStop(Dual(kind), Position(scope)) else LapseStop(kind, Position(scope))
  }

  lemma LapsingBody(kind: Kind, scope: ScopeKind, s: Pred, m: Pred, p: Pred)
    requires !LastsOnceDue(kind, scope) && Never(BoundaryP(scope, m))
    requires Same(p, LapsingResponse(kind, scope)) && Same(s, LapsingStop(kind, scope))
    ensures ScopedBody(scope, kind, s, m, p)(Position(scope)) && !ScopedBody(scope, kind, s, m, p)(Position(scope) + 1)
  {
    hide Body, OnlyBody, LapseResponse, LapseStop, OnlyLapseResponse;
    if IsOnlyScope(scope) { OnlyLapses(kind, Position(scope), BoundaryP(scope, m), s, p); }
    else { Lapses(kind, Position(scope), BoundaryP(scope, m), s, p); }
  }

  /** A condition that always holds fires a trigger once. */
  lemma SteadyTrigger(bounded: bool, b: Pred, isTrue: bool, c: Pred, x: Pred, t: nat)
    requires (forall j: nat :: c(j)) && x(t)
    ensures Inner(bounded, b, Trigger, isTrue, c, x)(t)
  {
    assert forall j: nat :: !AndP(NotP(c), AndP(XP(c), NotP(b)))(j) && !AndP(NotP(c), XP(c))(j);
  }

  /** One that rises fires at the rise. */
  lemma RisingTrigger(bounded: bool, b: Pred, c: Pred, x: Pred, t: nat)
    requires Never(b) && !c(t) && c(t + 1) && Inner(bounded, b, Trigger, false, c, x)(t)
    ensures x(t + 1)
  {
    var edge, landing := AndP(NotP(c), AndP(XP(c), NotP(b))), AndP(XP(x), NotP(b));
    assert edge(t) && AndP(NotP(c), XP(c))(t);
    if bounded { ReleaseNow(b, ImpP(edge, landing), t); } else { assert ImpP(AndP(NotP(c), XP(c)), XP(x))(t); }
  }

  /** One moment up to `u`, another from then on. */
  function Turning(before: Moment, after: Moment, u: nat): nat -> Moment {
    (t: nat) => if t <= u then before else after
  }

  /** A narrower condition rises where the wider one has long held. */
  lemma NarrowerConditionNeeded(c: Formula, c': Formula, kind: Kind, scope: ScopeKind)
    requires IsPropositional(c) && IsPropositional(c') && PropEntails(c', c) && !PropEntails(c, c')
    requires !LastsOnceDue(kind, scope) && !Unsatisfiable(c')
    ensures !ConditionStepHolds(c, c', kind, scope, Trigger)
  {
    hide ConditionStepHolds, Unsatisfiable, PropEntails;
    var before := MomentOf(c, c');
    var after := MomentWith(c');
    EntailsOn(c', c, after.sigma);
    NarrowerSeparates(c, c', kind, scope, before, after);
  }

  lemma NarrowerSeparates(c: Formula, c': Formula, kind: Kind, scope: ScopeKind, before: Moment, after: Moment)
    requires IsPropositional(c) && IsPropositional(c') && !LastsOnceDue(kind, scope)
    requires Shows(before, c) && !Shows(before, c') && Shows(after, c) && Shows(after, c')
    ensures !ConditionStepHolds(c, c', kind, scope, Trigger)
  {
    hide ScopedBody, ConditionStepHolds, LapsingResponse, LapsingStop, Wrap, Inner, Shows, LastsOnceDue;
    var u := Position(scope);
    var d, d', p, s, m := ConditionSeparates(c, c', kind, scope, Trigger, Turning(before, after, u),
                                             LapsingResponse(kind, scope), LapsingStop(kind, scope));
    var b, bounded, x := BoundaryP(scope, m), HasBoundary(scope), ScopedBody(scope, kind, s, m, p);
    assert c' != TRUE by { TrueShows(before); }
    FreeReads(scope, m, Inner(bounded, b, Trigger, c == TRUE, d, x));
    FreeReads(scope, m, Inner(bounded, b, Trigger, false, d', x));
    LapsingBody(kind, scope, s, m, p);
    SteadyTrigger(bounded, b, c == TRUE, d, x, u);
    if Inner(bounded, b, Trigger, false, d', x)(u) { RisingTrigger(bounded, b, d', x, u); }
  }

  lemma ConditionEnough(c: Formula, c': Formula, kind: Kind, scope: ScopeKind, ct: ConditionType, s: Pred, m: Pred,
                        p: Pred, sigma: Trace)
    requires ConditionAllows(c, c', ct) || ConditionMissed(c, c', kind, scope, ct)
    ensures Entails(Lower(scope, ct, c == TRUE, kind, s, m, Sem(sigma, c), p),
                    Lower(scope, ct, c' == TRUE, kind, s, m, Sem(sigma, c'), p))
  {
    hide ScopedBody, Inner, Wrap, Sem, ConditionAllows, ConditionMissed;
    var b, bounded, x := BoundaryP(scope, m), HasBoundary(scope), ScopedBody(scope, kind, s, m, p);
    InnerEnough(c, c', kind, scope, ct, s, m, p, sigma);
    WrapMono(scope, m, Inner(bounded, b, ct, c == TRUE, Sem(sigma, c), x), Inner(bounded, b, ct, c' == TRUE, Sem(sigma, c'), x));
  }

  lemma InnerEnough(c: Formula, c': Formula, kind: Kind, scope: ScopeKind, ct: ConditionType, s: Pred, m: Pred,
                    p: Pred, sigma: Trace)
    requires ConditionAllows(c, c', ct) || ConditionMissed(c, c', kind, scope, ct)
    ensures var b, x := BoundaryP(scope, m), ScopedBody(scope, kind, s, m, p);
      Entails(Inner(HasBoundary(scope), b, ct, c == TRUE, Sem(sigma, c), x),
              Inner(HasBoundary(scope), b, ct, c' == TRUE, Sem(sigma, c'), x))
  {
    hide ScopedBody, Inner, Sem, PropEntails, PropEquivalent, Unsatisfiable;
    var b, bounded, x := BoundaryP(scope, m), HasBoundary(scope), ScopedBody(scope, kind, s, m, p);
    var d, d' := Sem(sigma, c), Sem(sigma, c');
    TrueMeans(sigma, c);
    TrueMeans(sigma, c');
    EntailsOn(c', c, sigma);
    EntailsOn(c, c', sigma);
    SettledOn(c', sigma);
    if ConditionAllows(c, c', ct) {
      ConditionMono(bounded, b, ct, c == TRUE, c' == TRUE, d, d', x);
    } else if Unsatisfiable(c') {
      assert !d'(0);
      UnaskedEverywhere(bounded, b, c' == TRUE, d', x, Inner(bounded, b, ct, c == TRUE, d, x));
    } else {
      LastingConditions(bounded, b, c == TRUE, c' == TRUE, d, d', x, kind, scope, s, m, p);
    }
  }

  lemma TrueMeans(sigma: Trace, c: Formula)
    ensures c == TRUE ==> Same(Sem(sigma, c), tt)
  {}

  lemma UnaskedEverywhere(bounded: bool, b: Pred, isTrue: bool, d: Pred, x: Pred, y: Pred)
    requires Never(d) && !isTrue
    ensures Entails(y, Inner(bounded, b, Trigger, isTrue, d, x))
  {
    hide Inner;
    forall t: nat | y(t) ensures Inner(bounded, b, Trigger, isTrue, d, x)(t) { UnaskedInner(bounded, b, Trigger, d, x, t); }
  }

  /** From a trigger to continual, to the narrower condition, and back. */
  lemma LastingConditions(bounded: bool, b: Pred, isTrue: bool, isTrue': bool, d: Pred, d': Pred, x: Pred, kind: Kind,
                          scope: ScopeKind, s: Pred, m: Pred, p: Pred)
    requires LastsOnceDue(kind, scope) && Entails(d', d) && (isTrue ==> Same(d, tt)) && (isTrue' ==> Same(d', tt))
    requires b == BoundaryP(scope, m) && bounded == HasBoundary(scope) && x == ScopedBody(scope, kind, s, m, p)
    ensures Entails(Inner(bounded, b, Trigger, isTrue, d, x), Inner(bounded, b, Trigger, isTrue', d', x))
  {
    hide Inner;
    var q := if IsOnlyScope(scope) then NotP(p) else p;
    assert x == RP(b, q);
    InnerStep(bounded, b, Trigger, isTrue, d, x, q);
    ConditionMono(bounded, b, Continual, isTrue, isTrue', d, d', x);
    InnerStep(bounded, b, Continual, isTrue', d', x, q);
  }

  lemma ConditionsGiveHolds(sigma: Trace, c: Formula, c': Formula, r: Formula, kind: Kind, s: Formula, ct: ConditionType,
                            scope: ScopeKind, mode: string)
    requires ConditionAllows(c, c', ct) || ConditionMissed(c, c', kind, scope, ct)
    requires HoldsWith(sigma, c, r, kind, s, ct, scope, mode)
    ensures HoldsWith(sigma, c', r, kind, s, ct, scope, mode)
  {
    hide HoldsWith, Lower, Sem, ConditionAllows, ConditionMissed;
    HoldsWithMeans(sigma, c, r, kind, s, ct, scope, mode);
    HoldsWithMeans(sigma, c', r, kind, s, ct, scope, mode);
    ConditionEnough(c, c', kind, scope, ct, Sem(sigma, s), AtomP(sigma, ScopeAt(scope, mode).mode), Sem(sigma, r), sigma);
  }

  /** The condition's polarity, exactly. */
  lemma ConditionRuleExact(c: Formula, c': Formula, kind: Kind, scope: ScopeKind, ct: ConditionType)
    requires IsPropositional(c) && IsPropositional(c')
    ensures ConditionStepHolds(c, c', kind, scope, ct)
       <==> ConditionAllows(c, c', ct) || ConditionMissed(c, c', kind, scope, ct)
  {
    hide HoldsWith, Unsatisfiable, Lower, ConditionAllows, ConditionMissed;
    if ConditionAllows(c, c', ct) || ConditionMissed(c, c', kind, scope, ct) {
      forall sigma: Trace, r: Formula, s: Formula, mode: string | HoldsWith(sigma, c, r, kind, s, ct, scope, mode)
        ensures HoldsWith(sigma, c', r, kind, s, ct, scope, mode)
      {
        ConditionsGiveHolds(sigma, c, c', r, kind, s, ct, scope, mode);
      }
    } else {
      ConditionNeeded(c, c', kind, scope, ct);
    }
  }

  lemma ConditionNeeded(c: Formula, c': Formula, kind: Kind, scope: ScopeKind, ct: ConditionType)
    requires IsPropositional(c) && IsPropositional(c')
    requires !ConditionAllows(c, c', ct) && !ConditionMissed(c, c', kind, scope, ct)
    ensures !ConditionStepHolds(c, c', kind, scope, ct)
  {
    hide ConditionStepHolds, PropEntails, Unsatisfiable;
    if !PropEntails(c', c) { WiderConditionNeeded(c, c', kind, scope, ct); }
    else { NarrowerConditionNeeded(c, c', kind, scope); }
  }

  // -- The stop ---------------------------------------------------------------------------------

  /** Whatever the condition, the response and the mode, the requirement with stop `s` implies it with `s'`. */
  ghost predicate StopStepHolds(s: Formula, s': Formula, kind: Kind, scope: ScopeKind, ct: ConditionType) {
    forall sigma: Trace, c: Formula, r: Formula, mode: string
      | IsPropositional(c) && IsPropositional(r) && HoldsWith(sigma, c, r, kind, s, ct, scope, mode)
      :: HoldsWith(sigma, c, r, kind, s', ct, scope, mode)
  }

  /** Positive in `until`, negative in `before`, and the other way round in an only scope. */
  ghost predicate StopAllows(s: Formula, s': Formula, kind: Kind, scope: ScopeKind) {
    if kind.UntilK? <==> IsOnlyScope(scope) then PropEntails(s', s) else PropEntails(s, s')
  }

  lemma StopSeparates(s: Formula, s': Formula, kind: Kind, scope: ScopeKind, ct: ConditionType, v: Moment, r0: Pred)
    returns (p: Pred, e: Pred, e': Pred, m: Pred)
    requires IsPropositional(s) && IsPropositional(s')
    ensures Same(p, r0) && Never(BoundaryP(scope, m))
    ensures forall t: nat :: (e(t) <==> Shows(v, s)) && (e'(t) <==> Shows(v, s'))
    ensures ScopedBody(scope, kind, e, m, p)(Position(scope)) && !ScopedBody(scope, kind, e', m, p)(Position(scope))
        ==> !StopStepHolds(s, s', kind, scope, ct)
  {
    hide ScopedBody, HoldsWith, Sem, Shows, Played, AtomP;
    var used := Atoms(s) + Atoms(s');
    var names := NewNames(used + {""});
    var c0, m0, always := At(Position(scope)), FreeMode(scope), (t: nat) => v;
    var sigma := Played(always, names, c0, r0, ff, m0);
    PlayedAtoms(always, names, c0, r0, ff, m0, used, scope);
    PlayedShows(s, always, names, c0, r0, ff, m0, used);
    PlayedShows(s', always, names, c0, r0, ff, m0, used);
    p, e, e', m := Sem(sigma, Atom(names.r)), Sem(sigma, s), Sem(sigma, s'), AtomP(sigma, ScopeAt(scope, names.m).mode);
    HoldsAtPoint(sigma, names, Atom(names.r), kind, s, ct, scope, used);
    HoldsAtPoint(sigma, names, Atom(names.r), kind, s', ct, scope, used);
    if StopStepHolds(s, s', kind, scope, ct) {
      assert IsPropositional(Atom(names.c)) && IsPropositional(Atom(names.r));
    }
  }

  /** With a response that never comes an `until` needs its stop and a `before` its absence. */
  lemma StopDecides(kind: Kind, u: nat, b: Pred, s: Pred, p: Pred)
    requires (kind.UntilK? || kind.BeforeK?) && Never(b) && Never(p) && ((forall t: nat :: s(t)) || Never(s))
    ensures Body(kind, s, b, p)(u) <==> (kind.UntilK? <==> s(u))
  {
    if kind.UntilK? {
      assert !p(u) && !GP(p)(u);
      if RP(b, p)(u) { ReleaseNow(b, p, u); }
      if s(u) { assert UP(p, s)(u); } else { assert Never(s); }
    } else {
      if s(u) && RP(OrP(p, b), NotP(s))(u) { ReleaseNow(OrP(p, b), NotP(s), u); }
      if !s(u) { assert forall t: nat :: NotP(s)(t); }
    }
  }

  lemma StopNeeded(s: Formula, s': Formula, kind: Kind, scope: ScopeKind, ct: ConditionType)
    requires IsPropositional(s) && IsPropositional(s') && (kind.UntilK? || kind.BeforeK?) && !StopAllows(s, s', kind, scope)
    ensures !StopStepHolds(s, s', kind, scope, ct)
  {
    hide Body, StopStepHolds, Shows;
    var u := Position(scope);
    var v;
    if kind.UntilK? <==> IsOnlyScope(scope) { v := MomentOf(s', s); } else { v := MomentOf(s, s'); }
    var p, e, e', m := StopSeparates(s, s', kind, scope, ct, v, if IsOnlyScope(scope) then tt else ff);
    if IsOnlyScope(scope) {
      StopDecides(Dual(kind), u, BoundaryP(scope, m), e, NotP(p));
      StopDecides(Dual(kind), u, BoundaryP(scope, m), e', NotP(p));
    } else {
      StopDecides(kind, u, BoundaryP(scope, m), e, p);
      StopDecides(kind, u, BoundaryP(scope, m), e', p);
    }
  }

  lemma StopEnough(sigma: Trace, c: Formula, r: Formula, s: Formula, s': Formula, kind: Kind, scope: ScopeKind,
                   ct: ConditionType, mode: string)
    requires (kind.UntilK? || kind.BeforeK?) && StopAllows(s, s', kind, scope)
    requires HoldsWith(sigma, c, r, kind, s, ct, scope, mode)
    ensures HoldsWith(sigma, c, r, kind, s', ct, scope, mode)
  {
    hide Sem, ScopedBody, HoldsWith, PropEntails;
    EntailsOn(s, s', sigma);
    EntailsOn(s', s, sigma);
    ScopedStopMono(scope, kind, Sem(sigma, s), Sem(sigma, s'), AtomP(sigma, ScopeAt(scope, mode).mode), Sem(sigma, r));
    BodiesGiveHolds(sigma, c, r, r, kind, s, s', ct, scope, mode);
  }

  /** The stop's polarity, exactly. */
  lemma StopRuleExact(s: Formula, s': Formula, kind: Kind, scope: ScopeKind, ct: ConditionType)
    requires IsPropositional(s) && IsPropositional(s') && (kind.UntilK? || kind.BeforeK?)
    ensures StopStepHolds(s, s', kind, scope, ct) <==> StopAllows(s, s', kind, scope)
  {
    hide HoldsWith, StopAllows;
    if StopAllows(s, s', kind, scope) {
      forall sigma: Trace, c: Formula, r: Formula, mode: string | HoldsWith(sigma, c, r, kind, s, ct, scope, mode)
        ensures HoldsWith(sigma, c, r, kind, s', ct, scope, mode)
      {
        StopEnough(sigma, c, r, s, s', kind, scope, ct, mode);
      }
    } else {
      StopNeeded(s, s', kind, scope, ct);
    }
  }

  // -- The rules of the search ------------------------------------------------------------------

  /** An oracle that decides implication between formulas without temporal operators. */
  ghost predicate DecidesImplication(implies: Oracle) {
    forall f: Formula, g: Formula :: IsPropositional(f) && IsPropositional(g) ==> (implies(f, g) <==> PropEntails(f, g))
  }

  /** With such an oracle the search finds a chain between two requirements that differ in the response
      exactly when the step holds in every company, but for `after` with a response that settles it. */
  lemma ResponseStepExact(implies: Oracle, a: Requirement, r: Formula)
    requires DecidesImplication(implies) && !IsZeroTickBound(a.timing) && r != a.response
    requires IsPropositional(a.response) && IsPropositional(r)
    ensures var b, kind, scope := a.(response := r), KindOf(a.timing), a.scope.kind;
      (exists path :: RuleChain(implies, path, b) && path[0] == a) || ResponseMissed(a.response, r, kind, scope)
      <==> ResponseStepHolds(a.response, r, kind, scope, a.conditionType)
  {
    hide ResponseMissed, ResponseStepHolds, PropEntails;
    OneFieldChain(implies, a, a.(response := r));
    ResponseRuleExact(a.response, r, KindOf(a.timing), a.scope.kind, a.conditionType);
  }

  /** The same of the condition, but for a trigger that never fires or whose body lasts once it is due. */
  lemma ConditionStepExact(implies: Oracle, a: Requirement, c: Formula)
    requires DecidesImplication(implies) && !IsZeroTickBound(a.timing) && c != a.condition
    requires IsPropositional(a.condition) && IsPropositional(c)
    ensures var b, kind, scope := a.(condition := c), KindOf(a.timing), a.scope.kind;
      (exists path :: RuleChain(implies, path, b) && path[0] == a)
      || ConditionMissed(a.condition, c, kind, scope, a.conditionType)
      <==> ConditionStepHolds(a.condition, c, kind, scope, a.conditionType)
  {
    hide ConditionMissed, ConditionStepHolds, PropEntails;
    OneFieldChain(implies, a, a.(condition := c));
    ConditionRuleExact(a.condition, c, KindOf(a.timing), a.scope.kind, a.conditionType);
  }

  /** And of the stop, without exception. */
  lemma StopStepExact(implies: Oracle, a: Requirement, s: Formula)
    requires DecidesImplication(implies) && CarriesStop(a.timing) && s != a.timing.stop
    requires IsPropositional(a.timing.stop) && IsPropositional(s)
    ensures var b := a.(timing := if a.timing.Until? then Timing.Until(s) else Before(s));
      (exists path :: RuleChain(implies, path, b) && path[0] == a)
      <==> StopStepHolds(a.timing.stop, s, KindOf(a.timing), a.scope.kind, a.conditionType)
  {
    hide StopStepHolds, PropEntails;
    OneFieldChain(implies, a, a.(timing := if a.timing.Until? then Timing.Until(s) else Before(s)));
    StopRuleExact(a.timing.stop, s, KindOf(a.timing), a.scope.kind, a.conditionType);
  }
}
