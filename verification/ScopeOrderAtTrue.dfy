/** The scope order at the one condition the lowering treats specially, the literal `true`: which
    implications hold there that the table, made for all conditions, leaves out. */
module ScopeOrderAtTrue {
  import opened Ltl
  import opened Fretish
  import opened FretishSemantics
  import opened BoundaryDuality
  import opened TimingExact
  import opened ConditionOrder
  import opened ScopeOrder

  // -- A requirement without a condition --------------------------------------------------------

  /** What a scope's interval asks of the body `x`: once, or up to the boundary. */
  ghost function Asks(b: Pred, ct: ConditionType, x: Pred): Pred {
    if ct.Trigger? then x else RP(b, x)
  }

  lemma InnerAsks(bounded: bool, b: Pred, ct: ConditionType, c: Pred, x: Pred)
    requires Same(c, tt) && (!bounded ==> b == ff)
    ensures Same(Inner(bounded, b, ct, true, c, x), Asks(b, ct, x))
  {
    ReleaseMono(b, b, ImpP(c, x), x);
    ReleaseMono(b, b, x, ImpP(c, x));
    ReleaseFf(ImpP(c, x));
  }

  /** The body `x` under a scope. */
  ghost function PlacedBy(scope: ScopeKind, ct: ConditionType, m: Pred, x: Pred): Pred {
    Wrap(scope, m, Asks(BoundaryP(scope, m), ct, x))
  }

  ghost function Placed(scope: ScopeKind, ct: ConditionType, kind: Kind, s: Pred, m: Pred, p: Pred): Pred {
    PlacedBy(scope, ct, m, ScopedBody(scope, kind, s, m, p))
  }

  lemma LowerPlaces(scope: ScopeKind, ct: ConditionType, kind: Kind, s: Pred, m: Pred, c: Pred, p: Pred)
    requires Same(c, tt)
    ensures Same(Lower(scope, ct, true, kind, s, m, c, p), Placed(scope, ct, kind, s, m, p))
  {
    hide ScopedBody, Wrap, Inner, Asks;
    var b, x := BoundaryP(scope, m), ScopedBody(scope, kind, s, m, p);
    InnerAsks(HasBoundary(scope), b, ct, c, x);
    WrapMono(scope, m, Inner(HasBoundary(scope), b, ct, true, c, x), Asks(b, ct, x));
    WrapMono(scope, m, Asks(b, ct, x), Inner(HasBoundary(scope), b, ct, true, c, x));
  }

  lemma AsksNow(b: Pred, ct: ConditionType, x: Pred, u: nat)
    ensures Asks(b, ct, x)(u) ==> x(u)
    ensures x(u) && b(u) ==> Asks(b, ct, x)(u)
    ensures ct.Continual? && Never(b) && Asks(b, ct, x)(u) ==> x(u + 1)
  {
    if RP(b, x)(u) { ReleaseNow(b, x, u); }
  }

  lemma AsksOfAll(b: Pred, ct: ConditionType, x: Pred)
    requires forall u: nat :: x(u)
    ensures forall u: nat :: Asks(b, ct, x)(u)
  {}

  // -- Responses that meet a body at its boundary and no further --------------------------------

  predicate Instant(kind: Kind) {
    kind.ImmK? || ZeroTick(kind)
  }

  ghost function ExitResponse(kind: Kind, u: nat): Pred { if kind.AlwK? then At(u) else LapseResponse(kind, u) }

  /** Met where the interval ends. */
  lemma ExitMeets(kind: Kind, u: nat, b: Pred, s: Pred, p: Pred)
    requires b(u) && Same(p, ExitResponse(kind, u)) && Same(s, LapseStop(kind, u))
    ensures Body(kind, s, b, p)(u)
  {
    if kind.EvK? {
      assert p(u);
      assert forall i: nat :: u <= i < u ==> NotP(b)(i);
    } else if !kind.AlwK? {
      assert Never(ff);
      Lapses(kind, u, ff, s, p);
      BodyBoundMono(kind, s, ff, b, p);
    }
  }

  /** Missed one position on. */
  lemma ExitMisses(kind: Kind, u: nat, b: Pred, s: Pred, p: Pred)
    requires Never(b) && Same(p, ExitResponse(kind, u)) && Same(s, LapseStop(kind, u))
    ensures !Body(kind, s, b, p)(u + 1)
  {
    if kind.AlwK? {
      assert p(u) && !p(u + 1);
      BodyFails(kind, u + 1, b, s, p);
    } else {
      Lapses(kind, u, b, s, p);
    }
  }

  /** The same for an only scope. */
  ghost function OnlyExitResponse(kind: Kind, u: nat): Pred {
    if kind.EvK? then NotP(At(u)) else OnlyLapseResponse(kind, u)
  }

  lemma OnlyExitMeets(kind: Kind, u: nat, b: Pred, s: Pred, p: Pred)
    requires b(u) && Same(p, OnlyExitResponse(kind, u)) && Same(s, LapseStop(Dual(kind), u))
    ensures OnlyBody(kind, s, b, p)(u)
  {
    if kind.AfterK? {
      assert NotP(p)(u) && RP(b, NotP(p))(u);
    } else {
      assert Same(NotP(p), ExitResponse(Dual(kind), u));
      ExitMeets(Dual(kind), u, b, s, NotP(p));
    }
  }

  lemma OnlyExitMisses(kind: Kind, u: nat, b: Pred, s: Pred, p: Pred)
    requires Never(b) && Same(p, OnlyExitResponse(kind, u)) && Same(s, LapseStop(Dual(kind), u))
    ensures !OnlyBody(kind, s, b, p)(u + 1)
  {
    if kind.AfterK? {
      OnlyLapses(kind, u, b, s, p);
    } else {
      assert Same(NotP(p), ExitResponse(Dual(kind), u));
      ExitMisses(Dual(kind), u, b, s, NotP(p));
    }
  }

  lemma NeverAlwaysMisses(b: Pred, s: Pred, p: Pred, u: nat)
    requires Never(b) && Same(p, NotP(At(u)))
    ensures !OnlyBody(EvK, s, b, p)(u)
  {
    ReleaseNever(b, NotP(p), u);
    assert !NotP(p)(u + 1);
  }

  /** A response, and a stop one position on, that only the boundary makes enough. */
  ghost function DischargedResponse(kind: Kind, u: nat): Pred {
    if kind.ForK? || kind.AlwK? || kind.UntilK? then At(u) else ff
  }

  ghost function DischargedStop(kind: Kind, u: nat): Pred { if kind.BeforeK? then At(u + 1) else ff }

  lemma DischargeMeets(kind: Kind, u: nat, b: Pred, s: Pred, p: Pred)
    requires !Instant(kind) && !kind.EvK? && b(u)
    requires Same(p, DischargedResponse(kind, u)) && Same(s, DischargedStop(kind, u))
    ensures Body(kind, s, b, p)(u)
  {
    match kind {
      case WithinK(n) => assert SomeBefore(n, b)(u);
      case ForK(n) => assert p(u) && RP(b, p)(u);
      case AfterK(n) => assert AllUpTo(n, NotP(p))(u); assert SomeBefore(n + 1, b)(u);
      case AlwK => assert p(u);
      case UntilK => assert p(u) && RP(b, p)(u);
      case BeforeK => assert OrP(p, b)(u) && NotP(s)(u);
      case _ =>
    }
  }

  lemma DischargeMisses(kind: Kind, u: nat, b: Pred, s: Pred, p: Pred)
    requires !Instant(kind) && !kind.EvK? && Never(b)
    requires Same(p, DischargedResponse(kind, u)) && Same(s, DischargedStop(kind, u))
    ensures !Body(kind, s, b, p)(u)
  {
    assert !p(u + 1);
    if kind.BeforeK? {
      if Body(kind, s, b, p)(u) { ReleaseNow(OrP(p, b), NotP(s), u); }
    } else {
      BodyFails(kind, u, b, s, p);
    }
  }

  // -- The pairs that hold at `true` and are not in the table -----------------------------------

  /** A trigger without a condition asks once. Then `not in` covers `after` where the boundary gives
      nothing away, and `only after` reads nothing but the first position where the timing does. And
      no response comes for the first time `n + 1` ticks after every position of an interval longer
      than one, so that a continual `after n` says little enough to imply its only forms. */
  predicate MissedAtTrue(strong: ScopeKind, weak: ScopeKind, sameMode: bool, kind: Kind, ct: ConditionType) {
    if ct.Trigger? then
      || (sameMode && strong.NotIn? && weak.AfterMode? && (Instant(kind) || kind.EvK?))
      || (strong.OnlyAfter? && weak.OnlyAfter? && Instant(kind))
    else
      && kind.AfterK?
      && ((strong.Global? && IsOnlyScope(weak)) || (sameMode && strong.NotIn? && weak.OnlyIn?))
  }

  lemma InstantBody(kind: Kind, s: Pred, b: Pred, p: Pred)
    requires Instant(kind)
    ensures Same(Body(kind, s, b, p), p)
  {
    hide Body, WithinP, ForP;
    TickBodiesAre(0, s, b, p);
    ZeroTicks(b, p);
  }

  lemma InstantOnlyBody(kind: Kind, s: Pred, b: Pred, p: Pred)
    requires Instant(kind)
    ensures Same(OnlyBody(kind, s, b, p), NotP(p))
  {
    InstantBody(Dual(kind), s, b, NotP(p));
  }

  lemma NotInGivesAfter(kind: Kind, s: Pred, m: Pred, p: Pred)
    requires Instant(kind) || kind.EvK?
    ensures Entails(Placed(NotIn, Trigger, kind, s, m, p), Placed(AfterMode, Trigger, kind, s, m, p))
  {
    hide Body;
    var x, y := Body(kind, s, SomP(m), p), Body(kind, s, ff, p);
    if kind.EvK? { BodyBoundMono(kind, s, ff, SomP(m), p); }
    else { InstantBody(kind, s, SomP(m), p); InstantBody(kind, s, ff, p); }
    WrapMono(AfterMode, m, x, y);
    forall t: nat | Reentry(EomP(m), x)(t) ensures FirstEntry(EomP(m), x)(t) { ReentryGivesFirst(EomP(m), x, t); }
  }

  lemma ReentryGivesFirst(e: Pred, x: Pred, t: nat)
    requires Reentry(e, x)(t)
    ensures FirstEntry(e, x)(t)
  {
    if !GP(NotP(e))(t) {
      var u: nat :| t <= u && !NotP(e)(u);
      var j := First(e, t, u);
      assert OrP(NotP(e), XP(x))(j);
      assert AndP(e, XP(x))(j);
    }
  }

  lemma HoldsUpTo(b: Pred, q: Pred, t: nat, k: nat)
    requires t <= k && b(k) && forall i: nat :: t <= i <= k ==> q(i)
    ensures RP(b, q)(t)
  {}

  lemma FailsBefore(b: Pred, q: Pred, t: nat, k: nat)
    requires t <= k && !q(k) && forall i: nat :: t <= i < k ==> !b(i)
    ensures !RP(b, q)(t)
  {}

  /** A plain `after n` without its only form: the response arrives on time and no boundary is near. */
  lemma ArrivesOnTime(n: nat, s: Pred, b: Pred, p: Pred, t: nat)
    requires Body(AfterK(n), s, b, p)(t) && !OnlyBody(AfterK(n), s, b, p)(t)
    ensures p(t + n + 1) && forall k: nat :: t <= k <= t + n ==> !b(k)
  {
    hide AllUpTo, RP, WithinP;
    NoBoundaryBefore(n, b, p, t);
  }

  lemma NoBoundaryBefore(n: nat, b: Pred, p: Pred, t: nat)
    requires AllUpTo(n, NotP(p))(t) && !AllUpTo(n + 1, NotP(p))(t) && !RP(b, NotP(p))(t)
    ensures p(t + n + 1) && forall k: nat :: t <= k <= t + n ==> !b(k)
  {
    hide RP;
    forall k: nat | t <= k <= t + n ensures !b(k) {
      if b(k) { HoldsUpTo(b, NotP(p), t, k); }
    }
  }

  /** It cannot do so at two positions running. */
  lemma ArrivesOnce(n: nat, s: Pred, b: Pred, p: Pred, t: nat)
    requires p(t + n + 1) && forall k: nat :: t <= k <= t + n ==> !b(k)
    ensures !Body(AfterK(n), s, b, p)(t + 1)
  {
    var q := NotP(p);
    FailsBefore(b, q, t + 1, t + n + 1);
    assert !q(t + 1 + n);
    assert !AllUpTo(n, q)(t + 1);
  }

  lemma AfterGivesOnly(n: nat, s: Pred, b: Pred, p: Pred)
    ensures Entails(RP(b, Body(AfterK(n), s, b, p)), RP(b, OnlyBody(AfterK(n), s, b, p)))
  {
    hide Body, OnlyBody;
    var x, y := Body(AfterK(n), s, b, p), OnlyBody(AfterK(n), s, b, p);
    forall t: nat | RP(b, x)(t) ensures RP(b, y)(t) {
      forall j: nat | t <= j ensures y(j) || exists i: nat :: t <= i < j && b(i) {
        assert x(j) || exists i: nat :: t <= i < j && b(i);
        if x(j) && !y(j) {
          ArrivesOnTime(n, s, b, p, j);
          ArrivesOnce(n, s, b, p, j);
          assert x(j + 1) || exists i: nat :: t <= i < j + 1 && b(i);
        }
      }
    }
  }

  lemma SameIntervals(m: Pred, x: Pred)
    ensures Wrap(NotIn, m, x) == Wrap(OnlyIn, m, x)
  {}

  lemma NotInGivesOnlyIn(n: nat, s: Pred, m: Pred, p: Pred)
    ensures Entails(Placed(NotIn, Continual, AfterK(n), s, m, p), Placed(OnlyIn, Continual, AfterK(n), s, m, p))
  {
    var b := SomP(m);
    var x, y := RP(b, Body(AfterK(n), s, b, p)), RP(b, OnlyBody(AfterK(n), s, b, p));
    AfterGivesOnly(n, s, b, p);
    WrapMono(NotIn, m, x, y);
    SameIntervals(m, y);
    assert Placed(NotIn, Continual, AfterK(n), s, m, p) == Wrap(NotIn, m, x);
    assert Placed(OnlyIn, Continual, AfterK(n), s, m, p) == Wrap(OnlyIn, m, y);
  }

  /** Without a boundary a continual `after n` never holds. */
  lemma NeverAfter(n: nat, s: Pred, p: Pred, t: nat)
    ensures !RP(ff, Body(AfterK(n), s, ff, p))(t)
  {
    var x := Body(AfterK(n), s, ff, p);
    if RP(ff, x)(t) {
      ReleaseNow(ff, x, t);
      UnboundedAfter(n, ff, s, p, t);
      UnboundedAfter(n, ff, s, p, t + 1);
    }
  }

  lemma GlobalNever(n: nat, s: Pred, m: Pred, p: Pred)
    ensures !Placed(Global, Continual, AfterK(n), s, m, p)(0)
  {
    NeverAfter(n, s, p, 0);
  }

  lemma MissedHolds(strong: ScopeKind, weak: ScopeKind, sameMode: bool, kind: Kind, ct: ConditionType,
                    s: Pred, m: Pred, m': Pred, p: Pred)
    requires MissedAtTrue(strong, weak, sameMode, kind, ct) && (sameMode && !strong.Global? ==> m' == m)
    requires Placed(strong, ct, kind, s, m, p)(0)
    ensures Placed(weak, ct, kind, s, m', p)(0)
  {
    if strong.Global? { GlobalNever(kind.n, s, m, p); }
    else if strong.OnlyAfter? { InstantOnlyBody(kind, s, EomP(m), p); InstantOnlyBody(kind, s, EomP(m'), p); }
    else if ct.Trigger? { NotInGivesAfter(kind, s, m, p); }
    else { NotInGivesOnlyIn(kind.n, s, m, p); }
  }

  // -- Separations ------------------------------------------------------------------------------

  /** The requirement without a condition under `strong` implies the one under `weak`. */
  ghost predicate ScopeOrderHoldsAtTrue(strong: ScopeKind, weak: ScopeKind, sameMode: bool, kind: Kind,
                                        ct: ConditionType) {
    forall sigma: Trace, r: Formula, s: Formula, mode: string, mode': string
      | IsPropositional(r) && IsPropositional(s) && (sameMode ==> mode' == mode)
        && Holds(sigma, RequirementToLtl(RequirementAt(TRUE, r, kind, s, ct, strong, mode)), 0)
      :: Holds(sigma, RequirementToLtl(RequirementAt(TRUE, r, kind, s, ct, weak, mode')), 0)
  }

  lemma PlacedMeans(scope: ScopeKind, mode: string, kind: Kind, ct: ConditionType, sigma: Trace)
    ensures Holds(sigma, RequirementToLtl(RequirementOver(TRUE, kind, ct, scope, mode)), 0)
       <==> Placed(scope, ct, kind, Sem(sigma, Atom("s")), AtomP(sigma, ScopeAt(scope, mode).mode),
                   Sem(sigma, Atom("r")))(0)
  {
    RequirementOverMeans(TRUE, kind, ct, scope, mode, sigma);
    LowerPlaces(scope, ct, kind, Sem(sigma, Atom("s")), AtomP(sigma, ScopeAt(scope, mode).mode), Sem(sigma, TRUE),
                Sem(sigma, Atom("r")));
  }

  lemma Separated(strong: ScopeKind, weak: ScopeKind, sameMode: bool, kind: Kind, ct: ConditionType, sigma: Trace)
    requires Holds(sigma, RequirementToLtl(RequirementOver(TRUE, kind, ct, strong, "m")), 0)
    requires !Holds(sigma, RequirementToLtl(RequirementOver(TRUE, kind, ct, weak, if sameMode then "m" else "n")), 0)
    ensures !ScopeOrderHoldsAtTrue(strong, weak, sameMode, kind, ct)
  {}

  /** A response, a stop and two modes following given predicates: a separation on the fields is one
      between the lowered requirements. */
  lemma SeparateAtTrue(strong: ScopeKind, weak: ScopeKind, sameMode: bool, kind: Kind, ct: ConditionType,
                       r0: Pred, s0: Pred, m0: Pred, n0: Pred)
      returns (p: Pred, s: Pred, m: Pred, n: Pred)
    requires sameMode || weak.Global? ==> n0 == m0
    ensures Same(p, r0) && Same(s, s0) && Same(m, m0) && Same(n, n0)
    ensures Placed(strong, ct, kind, s, m, p)(0) && !Placed(weak, ct, kind, s, n, p)(0)
        ==> !ScopeOrderHoldsAtTrue(strong, weak, sameMode, kind, ct)
  {
    var sigma := TwoModes(tt, r0, s0, m0, n0);
    TwoModesAtoms(tt, r0, s0, m0, n0);
    var mode' := if sameMode then "m" else "n";
    p, s := Sem(sigma, Atom("r")), Sem(sigma, Atom("s"));
    m, n := AtomP(sigma, ScopeAt(strong, "m").mode), AtomP(sigma, ScopeAt(weak, mode').mode);
    PlacedMeans(strong, "m", kind, ct, sigma);
    PlacedMeans(weak, mode', kind, ct, sigma);
    if Placed(strong, ct, kind, s, m, p)(0) && !Placed(weak, ct, kind, s, n, p)(0) {
      Separated(strong, weak, sameMode, kind, ct, sigma);
    }
  }

  /** A pair told apart by modes that never change. */
  predicate ConstantsSeparate(strong: ScopeKind, weak: ScopeKind, kind: Kind, ct: ConditionType, v: bool, v': bool) {
    && Reads(weak, v')
    && (Reads(strong, v) ==>
          if IsOnlyScope(strong) then !IsOnlyScope(weak) else IsOnlyScope(weak) && (ct.Trigger? || !kind.AfterK?))
  }

  lemma SeparatedBodies(strong: ScopeKind, weak: ScopeKind, kind: Kind, ct: ConditionType, b: Pred, s: Pred, p: Pred)
    requires Never(b) && Same(p, SeparatingResponse(weak, kind)) && Same(s, SeparatingStop(weak, kind))
    requires IsOnlyScope(strong) <==> !IsOnlyScope(weak)
    requires IsOnlyScope(strong) || ct.Trigger? || !kind.AfterK?
    ensures Asks(b, ct, if IsOnlyScope(strong) then OnlyBody(kind, s, b, p) else Body(kind, s, b, p))(0)
  {
    if IsOnlyScope(strong) {
      forall u: nat ensures OnlyBody(kind, s, b, p)(u) { Bottom(kind, u, b, s, p); }
    } else if ct.Trigger? {
      Top(kind, 0, b, s, p);
    } else {
      forall u: nat ensures Body(kind, s, b, p)(u) { Top(kind, u, b, s, p); }
    }
  }

  lemma WeakBodyFails(weak: ScopeKind, kind: Kind, b: Pred, s: Pred, p: Pred)
    requires Never(b) && Same(p, SeparatingResponse(weak, kind)) && Same(s, SeparatingStop(weak, kind))
    ensures IsOnlyScope(weak) ==> !OnlyBody(kind, s, b, p)(0)
    ensures !IsOnlyScope(weak) ==> !Body(kind, s, b, p)(0)
  {
    if IsOnlyScope(weak) {
      Top(kind, 0, b, s, p);
    } else {
      assert Never(p);
      Bottom(kind, 0, b, s, p);
    }
  }

  lemma ConstantWeakFails(weak: ScopeKind, ct: ConditionType, kind: Kind, s: Pred, m: Pred, p: Pred, v: bool)
    requires Reads(weak, v) && forall t: nat :: m(t) == v
    requires Same(p, SeparatingResponse(weak, kind)) && Same(s, SeparatingStop(weak, kind))
    ensures !Placed(weak, ct, kind, s, m, p)(0)
  {
    var b, x := BoundaryP(weak, m), ScopedBody(weak, kind, s, m, p);
    WrapConstant(weak, m, Asks(b, ct, x), v);
    WeakBodyFails(weak, kind, b, s, p);
    AsksNow(b, ct, x, 0);
  }

  lemma ConstantStrongHolds(strong: ScopeKind, weak: ScopeKind, ct: ConditionType, kind: Kind, s: Pred, m: Pred, p: Pred,
                            v: bool)
    requires Reads(strong, v) ==>
               (IsOnlyScope(strong) <==> !IsOnlyScope(weak)) && (IsOnlyScope(strong) || ct.Trigger? || !kind.AfterK?)
    requires forall t: nat :: m(t) == v
    requires Same(p, SeparatingResponse(weak, kind)) && Same(s, SeparatingStop(weak, kind))
    ensures Placed(strong, ct, kind, s, m, p)(0)
  {
    var b, x := BoundaryP(strong, m), ScopedBody(strong, kind, s, m, p);
    WrapConstant(strong, m, Asks(b, ct, x), v);
    if Reads(strong, v) { SeparatedBodies(strong, weak, kind, ct, b, s, p); }
  }

  lemma ConstantsRejectAtTrue(strong: ScopeKind, weak: ScopeKind, sameMode: bool, kind: Kind, ct: ConditionType,
                              v: bool, v': bool)
    requires ConstantsSeparate(strong, weak, kind, ct, v, v') && (sameMode || weak.Global? ==> v == v')
    ensures !ScopeOrderHoldsAtTrue(strong, weak, sameMode, kind, ct)
  {
    var p, s, m, n := SeparateAtTrue(strong, weak, sameMode, kind, ct, SeparatingResponse(weak, kind),
                                     SeparatingStop(weak, kind), Constant(v), Constant(v'));
    ConstantStrongHolds(strong, weak, ct, kind, s, m, p, v);
    ConstantWeakFails(weak, ct, kind, s, n, p, v');
  }

  lemma OnlyBottomAtTrue(scope: ScopeKind, ct: ConditionType, kind: Kind, s: Pred, m: Pred, p: Pred)
    requires IsOnlyScope(scope) && Never(p) && Same(s, BottomStop(kind))
    ensures Placed(scope, ct, kind, s, m, p)(0)
  {
    var b := BoundaryP(scope, m);
    var x := OnlyBody(kind, s, b, p);
    forall u: nat ensures x(u) { Bottom(kind, u, b, s, p); }
    AsksOfAll(b, ct, x);
    WrapEverywhere(scope, m, Asks(b, ct, x));
  }

  /** A scope read at 1 over a body that fails there. */
  lemma FailsAtExit(weak: ScopeKind, ct: ConditionType, m: Pred, x: Pred)
    requires weak.NotIn? || weak.OnlyIn? || weak.AfterMode?
    requires Same(m, At(0)) && !x(1)
    ensures !PlacedBy(weak, ct, m, x)(0)
  {
    var b := BoundaryP(weak, m);
    ExitPlaces(weak, m, Asks(b, ct, x));
    AsksNow(b, ct, x, 1);
  }

  lemma BottomFailsAtExit(weak: ScopeKind, ct: ConditionType, kind: Kind, s: Pred, m: Pred, p: Pred)
    requires weak.NotIn? || weak.AfterMode?
    requires Same(m, At(0)) && Never(p) && Same(s, BottomStop(kind))
    ensures !Placed(weak, ct, kind, s, m, p)(0)
  {
    var b := BoundaryP(weak, m);
    assert Never(SomP(m)) && Never(b);
    Bottom(kind, 1, b, s, p);
    FailsAtExit(weak, ct, m, Body(kind, s, b, p));
  }

  lemma BottomRejectsAtTrue(strong: ScopeKind, weak: ScopeKind, sameMode: bool, kind: Kind, ct: ConditionType)
    requires BottomPair(strong, weak)
    ensures !ScopeOrderHoldsAtTrue(strong, weak, sameMode, kind, ct)
  {
    var p, s, m, n := SeparateAtTrue(strong, weak, sameMode, kind, ct, ff, BottomStop(kind), At(0), At(0));
    BottomFailsAtExit(weak, ct, kind, s, n, p);
    if IsOnlyScope(strong) { OnlyBottomAtTrue(strong, ct, kind, s, m, p); }
  }

  lemma InAtExit(ct: ConditionType, m: Pred, x: Pred)
    requires Same(m, At(0)) && x(0)
    ensures PlacedBy(In, ct, m, x)(0)
  {
    var b := EomP(m);
    assert b(0) && Never(SomP(m));
    AsksNow(b, ct, x, 0);
  }

  /** `in` ends at once; `after` then reads on. */
  lemma InHoldsAtExit(ct: ConditionType, kind: Kind, s: Pred, m: Pred, p: Pred)
    requires Same(p, ExitResponse(kind, 0)) && Same(s, LapseStop(kind, 0)) && Same(m, At(0))
    ensures Placed(In, ct, kind, s, m, p)(0)
  {
    var b := EomP(m);
    assert b(0);
    ExitMeets(kind, 0, b, s, p);
    InAtExit(ct, m, Body(kind, s, b, p));
  }

  lemma AfterFailsAtExit(ct: ConditionType, kind: Kind, s: Pred, m: Pred, p: Pred)
    requires Same(p, ExitResponse(kind, 0)) && Same(s, LapseStop(kind, 0)) && Same(m, At(0))
    ensures !Placed(AfterMode, ct, kind, s, m, p)(0)
  {
    hide Body, ExitResponse, LapseStop;
    assert Never(ff);
    ExitMisses(kind, 0, ff, s, p);
    FailsAtExit(AfterMode, ct, m, Body(kind, s, ff, p));
  }

  lemma InRejectedAfter(sameMode: bool, kind: Kind, ct: ConditionType)
    ensures !ScopeOrderHoldsAtTrue(In, AfterMode, sameMode, kind, ct)
  {
    var p, s, m, n := SeparateAtTrue(In, AfterMode, sameMode, kind, ct, ExitResponse(kind, 0), LapseStop(kind, 0), At(0), At(0));
    InHoldsAtExit(ct, kind, s, m, p);
    AfterFailsAtExit(ct, kind, s, n, p);
  }

  /** `not in` over an interval of one position; `after` reads on. */
  lemma NotInReadsGap(ct: ConditionType, m: Pred, x: Pred)
    requires Same(m, Gap()) && x(1)
    ensures PlacedBy(NotIn, ct, m, x)(0)
  {
    var b := SomP(m);
    assert m(0) && b(1);
    AsksNow(b, ct, x, 1);
    assert forall t: nat :: t >= 1 ==> !EomP(m)(t);
    ReentryOnce(EomP(m), Asks(b, ct, x));
  }

  lemma AfterReadsPastGap(ct: ConditionType, m: Pred, x: Pred)
    requires Same(m, Gap()) && (!x(1) || (ct.Continual? && !x(2)))
    ensures !PlacedBy(AfterMode, ct, m, x)(0)
  {
    AsksNow(ff, ct, x, 1);
    assert EomP(m)(0);
    FirstEntryAtZero(EomP(m), Asks(ff, ct, x));
  }

  /** The response under which the gap tells the two apart. */
  ghost function GapResponse(kind: Kind): Pred {
    if Instant(kind) || kind.EvK? then ExitResponse(kind, 1) else DischargedResponse(kind, 1)
  }

  ghost function GapStop(kind: Kind): Pred {
    if Instant(kind) || kind.EvK? then LapseStop(kind, 1) else DischargedStop(kind, 1)
  }

  lemma NotInHoldsAtGap(ct: ConditionType, kind: Kind, s: Pred, m: Pred, p: Pred)
    requires Same(m, Gap()) && Same(p, GapResponse(kind)) && Same(s, GapStop(kind))
    ensures Placed(NotIn, ct, kind, s, m, p)(0)
  {
    var b := SomP(m);
    assert b(1);
    if Instant(kind) || kind.EvK? { ExitMeets(kind, 1, b, s, p); } else { DischargeMeets(kind, 1, b, s, p); }
    NotInReadsGap(ct, m, Body(kind, s, b, p));
  }

  lemma AfterFailsAtGap(ct: ConditionType, kind: Kind, s: Pred, m: Pred, p: Pred)
    requires Same(m, Gap()) && Same(p, GapResponse(kind)) && Same(s, GapStop(kind))
    requires Instant(kind) || kind.EvK? ==> ct.Continual?
    ensures !Placed(AfterMode, ct, kind, s, m, p)(0)
  {
    assert Never(ff);
    if Instant(kind) || kind.EvK? { ExitMisses(kind, 1, ff, s, p); } else { DischargeMisses(kind, 1, ff, s, p); }
    AfterReadsPastGap(ct, m, Body(kind, s, ff, p));
  }

  lemma NotInRejectedAfter(sameMode: bool, kind: Kind, ct: ConditionType)
    requires !MissedAtTrue(NotIn, AfterMode, sameMode, kind, ct)
    ensures !ScopeOrderHoldsAtTrue(NotIn, AfterMode, sameMode, kind, ct)
  {
    if (Instant(kind) || kind.EvK?) && ct.Trigger? {
      VacuousRejectsAfter(NotIn, sameMode, kind, ct);
    } else {
      var p, s, m, n := SeparateAtTrue(NotIn, AfterMode, sameMode, kind, ct, GapResponse(kind), GapStop(kind), Gap(), Gap());
      NotInHoldsAtGap(ct, kind, s, m, p);
      AfterFailsAtGap(ct, kind, s, n, p);
    }
  }

  /** At two modes: `strong` reads nothing where its mode never changes, `after` an exit of its own. */
  lemma VacuousRejectsAfter(strong: ScopeKind, sameMode: bool, kind: Kind, ct: ConditionType)
    requires !sameMode && (strong.NotIn? || strong.AfterMode?)
    ensures !ScopeOrderHoldsAtTrue(strong, AfterMode, sameMode, kind, ct)
  {
    hide Body;
    var p, s, m, n := SeparateAtTrue(strong, AfterMode, sameMode, kind, ct, ff, BottomStop(kind), Constant(true), At(0));
    WrapConstant(strong, m, Asks(BoundaryP(strong, m), ct, ScopedBody(strong, kind, s, m, p)), true);
    BottomFailsAtExit(AfterMode, ct, kind, s, n, p);
  }

  /** Global `eventually` waits past the boundary of a bounded scope. */
  lemma GlobalArrivesAtTrue(ct: ConditionType, s: Pred, m: Pred, p: Pred)
    requires Same(p, Rise())
    ensures Placed(Global, ct, EvK, s, m, p)(0)
  {
    var x := UP(NotP(ff), p);
    UntilFf(p);
    forall u: nat ensures x(u) { assert p(u + 1); assert FP(p)(u); }
    AsksOfAll(ff, ct, x);
  }

  lemma BoundaryComesFirst(weak: ScopeKind, ct: ConditionType, s: Pred, m: Pred, p: Pred)
    requires weak.In? || weak.NotIn? || weak.BeforeMode?
    requires Same(m, EdgeMode(weak)) && Same(p, Rise())
    ensures !Placed(weak, ct, EvK, s, m, p)(0)
  {
    hide UP, Asks;
    var b := BoundaryP(weak, m);
    var x := UP(NotP(b), p);
    WrapEdge(weak, m, Asks(b, ct, x));
    NoEarlyArrival(b, p);
    AsksNow(b, ct, x, 0);
  }

  lemma NoEarlyArrival(b: Pred, p: Pred)
    requires b(0) && Same(p, Rise())
    ensures !UP(NotP(b), p)(0)
  {
    assert !NotP(b)(0) && !p(0);
  }

  /** A global trigger asks once; a scope whose interval begins later asks there. */
  lemma GlobalAsksOnce(kind: Kind, s: Pred, m: Pred, p: Pred)
    requires !kind.AlwK? && Same(p, LapseResponse(kind, 0)) && Same(s, LapseStop(kind, 0))
    ensures Placed(Global, Trigger, kind, s, m, p)(0)
  {
    assert Never(ff);
    Lapses(kind, 0, ff, s, p);
  }

  lemma LaterIntervalAsks(weak: ScopeKind, kind: Kind, s: Pred, m: Pred, p: Pred)
    requires (weak.In? || weak.NotIn? || weak.AfterMode?) && !kind.AlwK?
    requires Same(m, if weak.In? then Rise() else At(0))
    requires Same(p, LapseResponse(kind, 0)) && Same(s, LapseStop(kind, 0))
    ensures !Placed(weak, Trigger, kind, s, m, p)(0)
  {
    hide Body;
    var b := BoundaryP(weak, m);
    var x := Body(kind, s, b, p);
    PlacesAtOne(weak, m, x);
    assert !x(1) by { Lapses(kind, 0, b, s, p); }
  }

  lemma GlobalRejectedAtTrue(weak: ScopeKind, sameMode: bool, kind: Kind, ct: ConditionType)
    requires weak.In? || weak.NotIn? || weak.BeforeMode? || weak.AfterMode?
    requires ScopeEdge(Global, weak) !in ScopeEdges(WithStop(kind, TRUE), ct)
    ensures !ScopeOrderHoldsAtTrue(Global, weak, sameMode, kind, ct)
  {
    hide Placed, LapseResponse, LapseStop;
    if kind.EvK? && !weak.AfterMode? {
      var p, s, m, n := SeparateAtTrue(Global, weak, sameMode, kind, ct, Rise(), ff, EdgeMode(weak), EdgeMode(weak));
      GlobalArrivesAtTrue(ct, s, m, p);
      BoundaryComesFirst(weak, ct, s, n, p);
    } else {
      var m0 := if weak.In? then Rise() else At(0);
      var p, s, m, n := SeparateAtTrue(Global, weak, sameMode, kind, ct, LapseResponse(kind, 0), LapseStop(kind, 0), m0, m0);
      GlobalAsksOnce(kind, s, m, p);
      LaterIntervalAsks(weak, kind, s, n, p);
    }
  }

  /** `only after` ends at once; the other scope reads on, or reads without that boundary. */
  lemma OnlyAfterAtExit(ct: ConditionType, m: Pred, x: Pred)
    requires Same(m, At(0)) && x(0)
    ensures PlacedBy(OnlyAfter, ct, m, x)(0)
  {
    var b := EomP(m);
    assert b(0);
    AsksNow(b, ct, x, 0);
  }

  /** Where each only scope reads its body, on the modes used. */
  lemma OnlyReads(weak: ScopeKind, ct: ConditionType, m: Pred, x: Pred)
    requires IsOnlyScope(weak) && if weak.OnlyAfter? then Never(m) else Same(m, At(0))
    requires !x(1) && (weak.OnlyIn? || ct.Continual? || !x(0))
    ensures !PlacedBy(weak, ct, m, x)(0)
  {
    if weak.OnlyIn? {
      FailsAtExit(weak, ct, m, x);
    } else {
      var b := BoundaryP(weak, m);
      assert Never(b);
      AsksNow(b, ct, x, 0);
    }
  }

  lemma OnlyAfterHoldsAtExit(ct: ConditionType, kind: Kind, s: Pred, m: Pred, p: Pred)
    requires Same(m, At(0)) && Same(p, OnlyExitResponse(kind, 0)) && Same(s, LapseStop(Dual(kind), 0))
    ensures Placed(OnlyAfter, ct, kind, s, m, p)(0)
  {
    hide OnlyBody;
    var b := EomP(m);
    assert b(0);
    OnlyExitMeets(kind, 0, b, s, p);
    OnlyAfterAtExit(ct, m, OnlyBody(kind, s, b, p));
  }

  lemma OnlyFailsAtExit(weak: ScopeKind, ct: ConditionType, kind: Kind, s: Pred, m: Pred, p: Pred)
    requires IsOnlyScope(weak) && (weak.OnlyIn? || ct.Continual? || (kind.EvK? && weak.OnlyBefore?))
    requires if weak.OnlyAfter? then Never(m) else Same(m, At(0))
    requires Same(p, OnlyExitResponse(kind, 0)) && Same(s, LapseStop(Dual(kind), 0))
    ensures !Placed(weak, ct, kind, s, m, p)(0)
  {
    hide OnlyBody, LapseStop;
    var b := BoundaryP(weak, m);
    assert Never(b);
    OnlyExitMisses(kind, 0, b, s, p);
    if kind.EvK? { NeverAlwaysMisses(b, s, p, 0); }
    OnlyReads(weak, ct, m, OnlyBody(kind, s, b, p));
  }

  /** `only before` whose interval begins at 1. */
  lemma OnlyBeforeAtRise(m: Pred, x: Pred)
    requires Same(m, Rise())
    ensures Wrap(OnlyBefore, m, x)(0) <==> x(1)
  {
    assert SomP(m)(0) && !m(0);
    FirstEntryAtZero(SomP(m), x);
  }

  lemma OnlyLapsesAtStart(kind: Kind, b: Pred, s: Pred, p: Pred)
    requires !kind.EvK? && Never(b)
    requires Same(p, OnlyLapseResponse(kind, 0)) && Same(s, LapseStop(Dual(kind), 0))
    ensures OnlyBody(kind, s, b, p)(0) && !OnlyBody(kind, s, b, p)(1)
  {
    OnlyLapses(kind, 0, b, s, p);
  }

  lemma OnlyBeforeFailsAtRise(kind: Kind, s: Pred, m: Pred, p: Pred)
    requires !kind.EvK? && Same(m, Rise())
    requires Same(p, OnlyLapseResponse(kind, 0)) && Same(s, LapseStop(Dual(kind), 0))
    ensures !Placed(OnlyBefore, Trigger, kind, s, m, p)(0)
  {
    hide OnlyBody, OnlyLapseResponse, LapseStop;
    assert Never(ff);
    OnlyLapsesAtStart(kind, ff, s, p);
    OnlyBeforeReadsPastRise(m, OnlyBody(kind, s, ff, p));
  }

  lemma OnlyBeforeReadsPastRise(m: Pred, x: Pred)
    requires Same(m, Rise()) && !x(1)
    ensures !PlacedBy(OnlyBefore, Trigger, m, x)(0)
  {
    OnlyBeforeAtRise(m, x);
  }

  lemma OnlyAfterHoldsAtRise(kind: Kind, s: Pred, m: Pred, p: Pred)
    requires !kind.EvK? && Same(m, Rise())
    requires Same(p, OnlyLapseResponse(kind, 0)) && Same(s, LapseStop(Dual(kind), 0))
    ensures Placed(OnlyAfter, Trigger, kind, s, m, p)(0)
  {
    var b := EomP(m);
    assert Never(b);
    OnlyLapsesAtStart(kind, b, s, p);
    OnlyAfterReads(m, OnlyBody(kind, s, b, p));
  }

  /** Only the first `only after` has its boundary at the start. */
  ghost function OnlyDischargedResponse(kind: Kind): Pred {
    if kind.AfterK? then At(kind.n + 1) else NotP(DischargedResponse(Dual(kind), 0))
  }

  lemma OnlyDischargeMeets(kind: Kind, b: Pred, s: Pred, p: Pred)
    requires !Instant(kind) && !kind.AlwK? && b(0)
    requires Same(p, OnlyDischargedResponse(kind)) && Same(s, DischargedStop(Dual(kind), 0))
    ensures OnlyBody(kind, s, b, p)(0)
  {
    if kind.AfterK? {
      assert NotP(p)(0);
      HoldsUpTo(b, NotP(p), 0, 0);
    } else {
      assert Same(NotP(p), DischargedResponse(Dual(kind), 0));
      DischargeMeets(Dual(kind), 0, b, s, NotP(p));
    }
  }

  lemma OnlyDischargeMisses(kind: Kind, b: Pred, s: Pred, p: Pred)
    requires !Instant(kind) && !kind.AlwK? && Never(b)
    requires Same(p, OnlyDischargedResponse(kind)) && Same(s, DischargedStop(Dual(kind), 0))
    ensures !OnlyBody(kind, s, b, p)(0)
  {
    if kind.AfterK? {
      OnlyAfterFails(kind.n, 0, b, s, p);
    } else {
      assert Same(NotP(p), DischargedResponse(Dual(kind), 0));
      DischargeMisses(Dual(kind), 0, b, s, NotP(p));
    }
  }

  /** The negated `always` is the one a boundary makes harder. */
  lemma OnlyAlwaysArrives(b: Pred, b': Pred, s: Pred, p: Pred)
    requires Never(b) && b'(0) && Same(p, At(0))
    ensures OnlyBody(AlwK, s, b, p)(0) && !OnlyBody(AlwK, s, b', p)(0)
  {
    var q := NotP(p);
    assert q(1) && NotP(b)(0) && !q(0) && !NotP(b')(0);
    assert forall i: nat :: 0 <= i < 1 ==> NotP(b)(i);
  }

  lemma OnlyAfterReads(m: Pred, x: Pred)
    ensures PlacedBy(OnlyAfter, Trigger, m, x) == x
  {}

  lemma EndedModeHolds(kind: Kind, s: Pred, m: Pred, p: Pred)
    requires !Instant(kind) && !kind.AlwK? && Same(m, At(0))
    requires Same(p, OnlyDischargedResponse(kind)) && Same(s, DischargedStop(Dual(kind), 0))
    ensures Placed(OnlyAfter, Trigger, kind, s, m, p)(0)
  {
    var b := EomP(m);
    assert b(0);
    OnlyDischargeMeets(kind, b, s, p);
    OnlyAfterReads(m, OnlyBody(kind, s, b, p));
  }

  lemma EndlessModeFails(kind: Kind, s: Pred, m: Pred, p: Pred)
    requires !Instant(kind) && !kind.AlwK? && Never(m)
    requires Same(p, OnlyDischargedResponse(kind)) && Same(s, DischargedStop(Dual(kind), 0))
    ensures !Placed(OnlyAfter, Trigger, kind, s, m, p)(0)
  {
    var b := EomP(m);
    assert Never(b);
    OnlyDischargeMisses(kind, b, s, p);
    OnlyAfterReads(m, OnlyBody(kind, s, b, p));
  }

  /** Two modes, one of which ends at 0. */
  lemma OneExitRejects(kind: Kind)
    requires !Instant(kind) && !kind.AlwK?
    ensures !ScopeOrderHoldsAtTrue(OnlyAfter, OnlyAfter, false, kind, Trigger)
  {
    var p, s, m, n := SeparateAtTrue(OnlyAfter, OnlyAfter, false, kind, Trigger, OnlyDischargedResponse(kind),
                                     DischargedStop(Dual(kind), 0), At(0), ff);
    assert Never(n);
    EndedModeHolds(kind, s, m, p);
    EndlessModeFails(kind, s, n, p);
  }

  lemma OneExitRejectsAlways()
    ensures !ScopeOrderHoldsAtTrue(OnlyAfter, OnlyAfter, false, AlwK, Trigger)
  {
    var p, s, m, n := SeparateAtTrue(OnlyAfter, OnlyAfter, false, AlwK, Trigger, At(0), ff, ff, At(0));
    var b, b' := EomP(m), EomP(n);
    assert Never(b) && b'(0);
    OnlyAlwaysArrives(b, b', s, p);
    OnlyAfterReads(m, OnlyBody(AlwK, s, b, p));
    OnlyAfterReads(n, OnlyBody(AlwK, s, b', p));
  }

  lemma ExitRejects(weak: ScopeKind, sameMode: bool, kind: Kind, ct: ConditionType)
    requires weak.OnlyIn? || weak.OnlyBefore? || (weak.OnlyAfter? && !sameMode)
    requires weak.OnlyIn? || ct.Continual? || (kind.EvK? && weak.OnlyBefore?)
    ensures !ScopeOrderHoldsAtTrue(OnlyAfter, weak, sameMode, kind, ct)
  {
    var n0 := if weak.OnlyAfter? then ff else At(0);
    var p, s, m, n := SeparateAtTrue(OnlyAfter, weak, sameMode, kind, ct, OnlyExitResponse(kind, 0),
                                     LapseStop(Dual(kind), 0), At(0), n0);
    OnlyAfterHoldsAtExit(ct, kind, s, m, p);
    OnlyFailsAtExit(weak, ct, kind, s, n, p);
  }

  lemma RiseRejects(sameMode: bool, kind: Kind)
    requires !kind.EvK?
    ensures !ScopeOrderHoldsAtTrue(OnlyAfter, OnlyBefore, sameMode, kind, Trigger)
  {
    var p, s, m, n := SeparateAtTrue(OnlyAfter, OnlyBefore, sameMode, kind, Trigger, OnlyLapseResponse(kind, 0),
                                     LapseStop(Dual(kind), 0), Rise(), Rise());
    OnlyAfterHoldsAtRise(kind, s, m, p);
    OnlyBeforeFailsAtRise(kind, s, n, p);
  }

  lemma OnlyAfterRejectedAtTrue(weak: ScopeKind, sameMode: bool, kind: Kind, ct: ConditionType)
    requires weak.OnlyIn? || weak.OnlyBefore? || (weak.OnlyAfter? && !sameMode)
    requires !MissedAtTrue(OnlyAfter, weak, sameMode, kind, ct)
    ensures !ScopeOrderHoldsAtTrue(OnlyAfter, weak, sameMode, kind, ct)
  {
    if weak.OnlyIn? || ct.Continual? || (kind.EvK? && weak.OnlyBefore?) { ExitRejects(weak, sameMode, kind, ct); }
    else if weak.OnlyBefore? { RiseRejects(sameMode, kind); }
    else if kind.AlwK? { OneExitRejectsAlways(); }
    else { OneExitRejects(kind); }
  }

  // -- A continual `after n` --------------------------------------------------------------------

  /** A response that first comes `n + 1` ticks after position 1, where an only scope then reads. */
  lemma LateResponseFails(weak: ScopeKind, n: nat, s: Pred, m: Pred, p: Pred)
    requires weak.OnlyBefore? || weak.OnlyIn?
    requires Same(m, At(0)) && Same(p, At(n + 2))
    ensures !Placed(weak, Continual, AfterK(n), s, m, p)(0)
  {
    assert Never(BoundaryP(weak, m));
    OnlyAfterFails(n, 1, BoundaryP(weak, m), s, p);
    OnlyReads(weak, Continual, m, OnlyBody(AfterK(n), s, BoundaryP(weak, m), p));
  }

  lemma LateResponseHolds(strong: ScopeKind, n: nat, s: Pred, m: Pred, p: Pred)
    requires strong.In? || strong.BeforeMode?
    requires Same(m, At(0)) && Same(p, At(n + 2))
    ensures Placed(strong, Continual, AfterK(n), s, m, p)(0)
  {
    if strong.In? {
      var b := EomP(m);
      assert b(0) && NotP(p)(0);
      HoldsUpTo(b, NotP(p), 0, 0);
      assert SomeBefore(n + 1, b)(0);
      InAtExit(Continual, m, Body(AfterK(n), s, b, p));
    }
  }

  lemma LateResponseRejects(strong: ScopeKind, weak: ScopeKind, sameMode: bool, n: nat)
    requires (strong.In? && weak.OnlyBefore?) || (strong.BeforeMode? && weak.OnlyIn?)
    ensures !ScopeOrderHoldsAtTrue(strong, weak, sameMode, AfterK(n), Continual)
  {
    var p, s, m, m' := SeparateAtTrue(strong, weak, sameMode, AfterK(n), Continual, At(n + 2), ff, At(0), At(0));
    LateResponseHolds(strong, n, s, m, p);
    LateResponseFails(weak, n, s, m', p);
  }

  // -- The theorem ------------------------------------------------------------------------------

  lemma CasesAtTrue(strong: ScopeKind, weak: ScopeKind, sameMode: bool, kind: Kind, ct: ConditionType)
    requires strong != weak && !(strong.NotIn? && weak.BeforeMode?) && !MissedAtTrue(strong, weak, sameMode, kind, ct)
    ensures || ConstantsSeparate(strong, weak, kind, ct, false, false)
            || ConstantsSeparate(strong, weak, kind, ct, true, true)
            || (!sameMode && !weak.Global? && ConstantsSeparate(strong, weak, kind, ct, true, false))
            || (strong.Global? && (weak.In? || weak.NotIn? || weak.BeforeMode? || weak.AfterMode?))
            || BottomPair(strong, weak)
            || (strong.OnlyAfter? && (weak.OnlyIn? || weak.OnlyBefore?))
            || ((strong.In? || strong.NotIn?) && weak.AfterMode?)
            || (kind.AfterK? && ct.Continual? && ((strong.In? && weak.OnlyBefore?) || (strong.BeforeMode? && weak.OnlyIn?)))
  {}

  lemma DistinctRejectedAtTrue(strong: ScopeKind, weak: ScopeKind, sameMode: bool, kind: Kind, ct: ConditionType)
    requires strong != weak && ScopeEdge(strong, weak) !in ScopeEdges(WithStop(kind, TRUE), ct)
    requires !MissedAtTrue(strong, weak, sameMode, kind, ct)
    ensures !ScopeOrderHoldsAtTrue(strong, weak, sameMode, kind, ct)
  {
    EdgesListed(strong, weak, WithStop(kind, TRUE), ct);
    CasesAtTrue(strong, weak, sameMode, kind, ct);
    if ConstantsSeparate(strong, weak, kind, ct, false, false) { ConstantsRejectAtTrue(strong, weak, sameMode, kind, ct, false, false); }
    else if ConstantsSeparate(strong, weak, kind, ct, true, true) { ConstantsRejectAtTrue(strong, weak, sameMode, kind, ct, true, true); }
    else if strong.Global? { GlobalRejectedAtTrue(weak, sameMode, kind, ct); }
    else if BottomPair(strong, weak) { BottomRejectsAtTrue(strong, weak, sameMode, kind, ct); }
    else if strong.OnlyAfter? { OnlyAfterRejectedAtTrue(weak, sameMode, kind, ct); }
    else if strong.In? && weak.AfterMode? { InRejectedAfter(sameMode, kind, ct); }
    else if weak.AfterMode? { NotInRejectedAfter(sameMode, kind, ct); }
    else if (strong.In? && weak.OnlyBefore?) || (strong.BeforeMode? && weak.OnlyIn?) { LateResponseRejects(strong, weak, sameMode, kind.n); }
    else { ConstantsRejectAtTrue(strong, weak, sameMode, kind, ct, true, false); }
  }

  lemma TwoModesRejectedAtTrue(strong: ScopeKind, weak: ScopeKind, kind: Kind, ct: ConditionType)
    requires !strong.Global? && (strong == weak || (strong.NotIn? && weak.BeforeMode?))
    requires !MissedAtTrue(strong, weak, false, kind, ct)
    ensures !ScopeOrderHoldsAtTrue(strong, weak, false, kind, ct)
  {
    if strong.AfterMode? { VacuousRejectsAfter(strong, false, kind, ct); }
    else if strong.OnlyAfter? { OnlyAfterRejectedAtTrue(weak, false, kind, ct); }
    else {
      var v := strong.NotIn? || strong.BeforeMode? || strong.OnlyIn?;
      ConstantsRejectAtTrue(strong, weak, false, kind, ct, v, !v);
    }
  }

  lemma AcceptedAtTrue(strong: ScopeKind, weak: ScopeKind, sameMode: bool, kind: Kind, ct: ConditionType)
    requires ScopeTable(strong, weak, sameMode, kind, ct)
    ensures ScopeOrderHoldsAtTrue(strong, weak, sameMode, kind, ct)
  {
    forall sigma: Trace, r: Formula, s: Formula, mode: string, mode': string | sameMode ==> mode' == mode
      ensures Holds(sigma, RequirementToLtl(RequirementAt(TRUE, r, kind, s, ct, strong, mode)), 0)
          ==> Holds(sigma, RequirementToLtl(RequirementAt(TRUE, r, kind, s, ct, weak, mode')), 0)
    {
      ScopeAccepted(strong, weak, sameMode, kind, ct, sigma, TRUE, r, s, mode, mode');
    }
  }

  lemma RequirementAtTrueMeans(scope: ScopeKind, mode: string, kind: Kind, ct: ConditionType, sigma: Trace, r: Formula,
                               s: Formula)
    ensures Holds(sigma, RequirementToLtl(RequirementAt(TRUE, r, kind, s, ct, scope, mode)), 0)
       <==> Placed(scope, ct, kind, StopP(sigma, WithStop(kind, s)), AtomP(sigma, ScopeAt(scope, mode).mode), Sem(sigma, r))(0)
  {
    LoweringMeans(sigma, RequirementAt(TRUE, r, kind, s, ct, scope, mode));
    WithStopMeans(sigma, kind, s);
    LowerPlaces(scope, ct, kind, StopP(sigma, WithStop(kind, s)), AtomP(sigma, ScopeAt(scope, mode).mode), Sem(sigma, TRUE), Sem(sigma, r));
  }

  lemma MissedMeans(strong: ScopeKind, weak: ScopeKind, sameMode: bool, kind: Kind, ct: ConditionType, sigma: Trace,
                    r: Formula, s: Formula, mode: string, mode': string)
    requires MissedAtTrue(strong, weak, sameMode, kind, ct) && (sameMode ==> mode' == mode)
    requires Holds(sigma, RequirementToLtl(RequirementAt(TRUE, r, kind, s, ct, strong, mode)), 0)
    ensures Holds(sigma, RequirementToLtl(RequirementAt(TRUE, r, kind, s, ct, weak, mode')), 0)
  {
    RequirementAtTrueMeans(strong, mode, kind, ct, sigma, r, s);
    RequirementAtTrueMeans(weak, mode', kind, ct, sigma, r, s);
    MissedHolds(strong, weak, sameMode, kind, ct, StopP(sigma, WithStop(kind, s)), AtomP(sigma, ScopeAt(strong, mode).mode),
                AtomP(sigma, ScopeAt(weak, mode').mode), Sem(sigma, r));
  }

  lemma MissedIsAccepted(strong: ScopeKind, weak: ScopeKind, sameMode: bool, kind: Kind, ct: ConditionType)
    requires MissedAtTrue(strong, weak, sameMode, kind, ct)
    ensures ScopeOrderHoldsAtTrue(strong, weak, sameMode, kind, ct)
  {
    forall sigma: Trace, r: Formula, s: Formula, mode: string, mode': string
      | (sameMode ==> mode' == mode) && Holds(sigma, RequirementToLtl(RequirementAt(TRUE, r, kind, s, ct, strong, mode)), 0)
      ensures Holds(sigma, RequirementToLtl(RequirementAt(TRUE, r, kind, s, ct, weak, mode')), 0)
    {
      MissedMeans(strong, weak, sameMode, kind, ct, sigma, r, s, mode, mode');
    }
  }

  /** The scope order at the literal `true`, exactly: what the table accepts and, besides, the four
      families `MissedAtTrue` lists. */
  lemma ScopeOrderExactAtTrue(strong: ScopeKind, weak: ScopeKind, sameMode: bool, kind: Kind, ct: ConditionType)
    ensures ScopeTable(strong, weak, sameMode, kind, ct) || MissedAtTrue(strong, weak, sameMode, kind, ct)
       <==> ScopeOrderHoldsAtTrue(strong, weak, sameMode, kind, ct)
  {
    TableCases(strong, weak, sameMode, kind, ct);
    EdgesListed(strong, weak, WithStop(kind, TRUE), ct);
    if ScopeTable(strong, weak, sameMode, kind, ct) { AcceptedAtTrue(strong, weak, sameMode, kind, ct); }
    else if MissedAtTrue(strong, weak, sameMode, kind, ct) { MissedIsAccepted(strong, weak, sameMode, kind, ct); }
    else if strong == weak || (strong.NotIn? && weak.BeforeMode?) { TwoModesRejectedAtTrue(strong, weak, kind, ct); }
    else { DistinctRejectedAtTrue(strong, weak, sameMode, kind, ct); }
  }
}
