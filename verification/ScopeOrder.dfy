/** `ScopeImplies` decides implication between scopes: sound on every trace, and exact. */
module ScopeOrder {
  import opened Ltl
  import opened Fretish
  import opened FretishSemantics
  import opened BoundaryDuality
  import opened TimingExact
  import opened ConditionOrder

  // -- Soundness --------------------------------------------------------------------------------

  /** A conditioned obligation survives being given a boundary and a weaker body. */
  lemma InnerRelax(b: Pred, ct: ConditionType, isTrue: bool, c: Pred, x: Pred, y: Pred)
    requires Entails(x, y)
    ensures Entails(Inner(false, ff, ct, isTrue, c, x), Inner(true, b, ct, isTrue, c, y))
  {
    var obligation := ImpP(c, y);
    var edgeU, edge := AndP(NotP(c), XP(c)), AndP(NotP(c), AndP(XP(c), NotP(b)));
    var edges := ImpP(edge, AndP(XP(y), NotP(b)));
    forall t: nat | Inner(false, ff, ct, isTrue, c, x)(t) ensures Inner(true, b, ct, isTrue, c, y)(t) {
      if ct.Continual? {
        forall j: nat | t <= j ensures obligation(j) { assert ImpP(c, x)(j); }
      } else if !isTrue {
        assert GP(ImpP(edgeU, XP(x)))(t);
        forall j: nat | t <= j ensures edges(j) { assert ImpP(edgeU, XP(x))(j); }
      }
    }
  }

  ghost function GlobalInner(ct: ConditionType, isTrue: bool, kind: Kind, s: Pred, c: Pred, p: Pred): Pred {
    Inner(false, ff, ct, isTrue, c, Body(kind, s, ff, p))
  }

  /** What a global requirement asks it goes on asking, if its condition is continual or its timing
      `always`. */
  lemma GlobalSuffix(ct: ConditionType, isTrue: bool, kind: Kind, s: Pred, c: Pred, p: Pred, t: nat, u: nat)
    requires ct.Continual? || kind.AlwK?
    requires isTrue ==> Same(c, tt)
    requires t <= u && GlobalInner(ct, isTrue, kind, s, c, p)(t)
    ensures GlobalInner(ct, isTrue, kind, s, c, p)(u)
  {
    var x := Body(kind, s, ff, p);
    var continual := Inner(false, ff, Continual, isTrue, c, x);
    if ct.Trigger? { TriggerGivesContinual(false, ff, isTrue, c, p); }
    assert continual(t);
    assert continual(u);
    if ct.Trigger? { ContinualGivesTrigger(false, ff, isTrue, c, x); }
  }

  lemma FirstEntryOfAll(e: Pred, x: Pred, t: nat)
    requires forall u: nat :: t < u ==> x(u)
    ensures FirstEntry(e, x)(t)
  {
    if !GP(NotP(e))(t) {
      var u: nat :| t <= u && !NotP(e)(u);
      var j := First(e, t, u);
      assert AndP(e, XP(x))(j);
    }
  }

  lemma GlobalGivesInner(weaker: ScopeKind, ct: ConditionType, isTrue: bool, kind: Kind, s: Pred, m: Pred, c: Pred,
                         p: Pred)
    requires HasBoundary(weaker) ==> !kind.EvK?
    ensures Entails(GlobalInner(ct, isTrue, kind, s, c, p),
                    Inner(HasBoundary(weaker), BoundaryP(weaker, m), ct, isTrue, c, Body(kind, s, BoundaryP(weaker, m), p)))
  {
    if HasBoundary(weaker) {
      var b := BoundaryP(weaker, m);
      BodyBoundMono(kind, s, ff, b, p);
      InnerRelax(b, ct, isTrue, c, Body(kind, s, ff, p), Body(kind, s, b, p));
    }
  }

  lemma WrapOfAll(scope: ScopeKind, m: Pred, x: Pred, t: nat)
    requires scope.In? || scope.NotIn? || scope.AfterMode?
    requires forall u: nat :: t <= u ==> x(u)
    ensures Wrap(scope, m, x)(t)
  {
    FirstEntryOfAll(EomP(m), x, t);
  }

  predicate GlobalCovers(weaker: ScopeKind, ct: ConditionType, kind: Kind) {
    && (weaker.In? || weaker.NotIn? || weaker.BeforeMode? || weaker.AfterMode?)
    && (weaker.AfterMode? || !kind.EvK?)
    && (weaker.BeforeMode? || ct.Continual? || kind.AlwK?)
  }

  /** Global to each scope, on the fields. The boundary differs on the two sides. */
  lemma FromGlobal(weaker: ScopeKind, ct: ConditionType, isTrue: bool, kind: Kind, s: Pred, m: Pred, m': Pred,
                   c: Pred, p: Pred)
    requires GlobalCovers(weaker, ct, kind)
    requires isTrue ==> Same(c, tt)
    ensures Entails(Lower(Global, ct, isTrue, kind, s, m, c, p), Lower(weaker, ct, isTrue, kind, s, m', c, p))
  {
    var global := GlobalInner(ct, isTrue, kind, s, c, p);
    var inner := Inner(HasBoundary(weaker), BoundaryP(weaker, m'), ct, isTrue, c, Body(kind, s, BoundaryP(weaker, m'), p));
    GlobalGivesInner(weaker, ct, isTrue, kind, s, m', c, p);
    forall t: nat | global(t) ensures Wrap(weaker, m', inner)(t) {
      if !weaker.BeforeMode? {
        forall u: nat | t <= u ensures inner(u) { GlobalSuffix(ct, isTrue, kind, s, c, p, t, u); }
        WrapOfAll(weaker, m', inner, t);
      }
    }
    LowerPlain(Global, ct, isTrue, kind, s, m, c, p);
    LowerPlain(weaker, ct, isTrue, kind, s, m', c, p);
  }

  lemma LowerPlain(scope: ScopeKind, ct: ConditionType, isTrue: bool, kind: Kind, s: Pred, m: Pred, c: Pred, p: Pred)
    requires !IsOnlyScope(scope)
    ensures Lower(scope, ct, isTrue, kind, s, m, c, p)
         == Wrap(scope, m, Inner(HasBoundary(scope), BoundaryP(scope, m), ct, isTrue, c,
                                 Body(kind, s, BoundaryP(scope, m), p)))
  {}

  lemma EdgesListed(stronger: ScopeKind, weaker: ScopeKind, timing: Timing, ct: ConditionType)
    ensures ScopeEdge(stronger, weaker) in ScopeEdges(timing, ct)
       <==> (stronger.Global? && GlobalCovers(weaker, ct, KindOf(timing))
             && (timing.Eventually? ==> weaker.AfterMode? && ct.Continual?))
            || (stronger.NotIn? && weaker.BeforeMode?)
  {}

  lemma NotInGivesBefore(ct: ConditionType, isTrue: bool, kind: Kind, s: Pred, m: Pred, c: Pred, p: Pred)
    ensures Entails(Lower(NotIn, ct, isTrue, kind, s, m, c, p), Lower(BeforeMode, ct, isTrue, kind, s, m, c, p))
  {}

  lemma ScopeFieldsSound(req: Requirement, weaker: Scope, sigma: Trace)
    requires req.scope != weaker && ScopeImplies(req.scope, weaker, req.timing, req.conditionType)
    ensures Entails(RequirementP(sigma, req), RequirementP(sigma, req.(scope := weaker)))
  {
    EdgesListed(req.scope.kind, weaker.kind, req.timing, req.conditionType);
    var kind, s := KindOf(req.timing), StopP(sigma, req.timing);
    var m, m' := AtomP(sigma, req.scope.mode), AtomP(sigma, weaker.mode);
    var c, p := Sem(sigma, req.condition), Sem(sigma, req.response);
    if req.scope.kind.Global? {
      FromGlobal(weaker.kind, req.conditionType, req.condition == TRUE, kind, s, m, m', c, p);
    } else {
      NotInGivesBefore(req.conditionType, req.condition == TRUE, kind, s, m, c, p);
    }
  }

  /** An accepted pair never turns a requirement that holds into one that does not. */
  lemma ScopeOrderSound(req: Requirement, weaker: Scope, sigma: Trace)
    requires ScopeImplies(req.scope, weaker, req.timing, req.conditionType)
    ensures Entails(Sem(sigma, RequirementToLtl(req)), Sem(sigma, RequirementToLtl(req.(scope := weaker))))
  {
    var dest := req.(scope := weaker);
    LoweringMeans(sigma, req);
    LoweringMeans(sigma, dest);
    if req.scope != weaker { ScopeFieldsSound(req, weaker, sigma); }
    Chain(Sem(sigma, RequirementToLtl(req)), RequirementP(sigma, req), RequirementP(sigma, dest),
          Sem(sigma, RequirementToLtl(dest)));
  }

  // -- Responses that satisfy one form and falsify the other ------------------------------------

  ghost function BottomStop(kind: Kind): Pred { if kind.BeforeK? then tt else ff }

  /** A response that never comes falsifies the plain body, and satisfies the negated one at every boundary. */
  lemma Bottom(kind: Kind, u: nat, b: Pred, s: Pred, p: Pred)
    requires Never(p) && Same(s, BottomStop(kind))
    ensures Never(b) ==> !Body(kind, s, b, p)(u)
    ensures OnlyBody(kind, s, b, p)(u)
  {
    if Never(b) { BottomPlain(kind, u, b, s, p); }
    BottomNegated(kind, u, b, s, p);
  }

  lemma BottomNegated(kind: Kind, u: nat, b: Pred, s: Pred, p: Pred)
    requires Never(p) && Same(s, BottomStop(kind))
    ensures OnlyBody(kind, s, b, p)(u)
  {
    var q := NotP(p);
    assert forall t: nat :: q(t);
    match kind {
      case WithinK(n) => assert AllUpTo(n, q)(u);
      case ForK(n) => assert q(u); assert SomeUpTo(n, q)(u);
      case AfterK(n) => assert AllUpTo(n + 1, q)(u);
      case AlwK => assert q(u); assert forall i: nat :: u <= i < u ==> NotP(b)(i);
      case UntilK => assert forall t: nat :: NotP(s)(t);
      case BeforeK => assert s(u); assert UP(q, s)(u);
      case _ =>
    }
  }

  lemma BottomPlain(kind: Kind, u: nat, b: Pred, s: Pred, p: Pred)
    requires Never(b) && Never(p) && Same(s, BottomStop(kind))
    ensures !Body(kind, s, b, p)(u)
  {
    assert u <= u && !p(u);
    BodyFails(kind, u, b, s, p);
  }

  ghost function TopResponse(kind: Kind, u: nat): Pred { if kind.AfterK? then At(u + kind.n + 1) else tt }
  ghost function TopStop(kind: Kind): Pred { if kind.UntilK? then tt else ff }

  /** A response that satisfies the plain body at `u` and falsifies the negated one there. */
  lemma Top(kind: Kind, u: nat, b: Pred, s: Pred, p: Pred)
    requires Never(b) && Same(p, TopResponse(kind, u)) && Same(s, TopStop(kind))
    ensures Body(kind, s, b, p)(u) && !OnlyBody(kind, s, b, p)(u)
  {
    match kind {
      case WithinK(n) => assert p(u); assert SomeUpTo(n, p)(u);
      case ForK(n) => assert AllUpTo(n, p)(u);
      case AfterK(n) => UnboundedAfter(n, b, s, p, u);
      case EvK => assert p(u); assert forall i: nat :: u <= i < u ==> NotP(b)(i);
      case UntilK => assert s(u); assert UP(p, s)(u);
      case BeforeK => assert forall t: nat :: NotP(s)(t);
      case _ =>
    }
    TopOnly(kind, u, b, s, p);
  }

  lemma TopOnly(kind: Kind, u: nat, b: Pred, s: Pred, p: Pred)
    requires Never(b) && Same(p, TopResponse(kind, u)) && Same(s, TopStop(kind))
    ensures !OnlyBody(kind, s, b, p)(u)
  {
    if kind.AfterK? {
      OnlyAfterFails(kind.n, u, b, s, p);
    } else {
      var q := NotP(p);
      assert !q(u);
      assert forall t: nat :: !q(t);
      BodyFails(Dual(kind), u, b, s, q);
    }
  }

  // -- How each scope reads its obligation on the traces used -----------------------------------

  /** Whether a scope reads its obligation at 0 when its mode never changes. */
  predicate Reads(scope: ScopeKind, always: bool) {
    if always then scope.Global? || scope.In? || scope.OnlyBefore? || scope.OnlyAfter?
    else !scope.In? && !scope.AfterMode? && !scope.OnlyBefore?
  }

  lemma FirstEntryNever(e: Pred, x: Pred, t: nat)
    requires Never(e)
    ensures FirstEntry(e, x)(t)
  {}

  lemma WrapConstant(scope: ScopeKind, m: Pred, x: Pred, always: bool)
    requires forall t: nat :: m(t) == always
    ensures Never(BoundaryP(scope, m))
    ensures Wrap(scope, m, x)(0) <==> (Reads(scope, always) ==> x(0))
  {
    assert Never(SomP(m)) && Never(EomP(m));
    FirstEntryNever(SomP(m), x, 0);
    FirstEntryNever(EomP(m), x, 0);
  }

  lemma ConstantPlaces(scope: ScopeKind, ct: ConditionType, kind: Kind, s: Pred, m: Pred, c: Pred, p: Pred,
                       always: bool)
    requires (forall t: nat :: m(t) == always) && Same(c, At(0))
    ensures Never(BoundaryP(scope, m))
    ensures Lower(scope, ct, false, kind, s, m, c, p)(0)
       <==> (Reads(scope, always) ==> ScopedBody(scope, kind, s, m, p)(0))
  {
    var body := ScopedBody(scope, kind, s, m, p);
    WrapConstant(scope, m, Inner(HasBoundary(scope), BoundaryP(scope, m), ct, false, c, body), always);
    InnerAtPoint(HasBoundary(scope), BoundaryP(scope, m), ct, c, body, 0);
  }

  /** A pair told apart by modes that never change. */
  predicate ConstantSeparates(strong: ScopeKind, weak: ScopeKind, m: bool, m': bool) {
    Reads(weak, m') && (Reads(strong, m) ==> (IsOnlyScope(strong) <==> !IsOnlyScope(weak)))
  }

  ghost function SeparatingResponse(weak: ScopeKind, kind: Kind): Pred {
    if IsOnlyScope(weak) then TopResponse(kind, 0) else ff
  }

  ghost function SeparatingStop(weak: ScopeKind, kind: Kind): Pred {
    if IsOnlyScope(weak) then TopStop(kind) else BottomStop(kind)
  }

  lemma SeparatedByConstants(strong: ScopeKind, weak: ScopeKind, ct: ConditionType, kind: Kind,
                             s: Pred, m: Pred, m': Pred, c: Pred, p: Pred, v: bool, v': bool)
    requires ConstantSeparates(strong, weak, v, v')
    requires (forall t: nat :: m(t) == v) && (forall t: nat :: m'(t) == v') && Same(c, At(0))
    requires Same(p, SeparatingResponse(weak, kind)) && Same(s, SeparatingStop(weak, kind))
    ensures Lower(strong, ct, false, kind, s, m, c, p)(0) && !Lower(weak, ct, false, kind, s, m', c, p)(0)
  {
    ConstantPlaces(strong, ct, kind, s, m, c, p, v);
    ConstantPlaces(weak, ct, kind, s, m', c, p, v');
    if IsOnlyScope(weak) {
      Top(kind, 0, BoundaryP(strong, m), s, p);
      Top(kind, 0, BoundaryP(weak, m'), s, p);
    } else {
      Bottom(kind, 0, BoundaryP(strong, m), s, p);
      Bottom(kind, 0, BoundaryP(weak, m'), s, p);
    }
  }

  /** An interval that ends where it begins, before the condition could come, asks nothing. */
  lemma InnerVacuous(b: Pred, ct: ConditionType, c: Pred, x: Pred, t: nat)
    requires b(t) && !c(t) && !c(t + 1)
    ensures Inner(true, b, ct, false, c, x)(t)
  {
    var obligation := ImpP(c, x);
    var edges := ImpP(AndP(NotP(c), AndP(XP(c), NotP(b))), AndP(XP(x), NotP(b)));
    assert obligation(t) && edges(t);
    forall j: nat | t <= j ensures obligation(j) || exists i: nat :: t <= i < j && b(i) {}
    forall j: nat | t <= j ensures edges(j) || exists i: nat :: t <= i < j && b(i) {}
  }

  /** Wherever the condition comes up once, its obligation falls due. */
  lemma InnerAtLater(bounded: bool, b: Pred, ct: ConditionType, c: Pred, x: Pred, t: nat, u: nat)
    requires Never(b) && Same(c, At(u)) && t < u
    requires Inner(bounded, b, ct, false, c, x)(t)
    ensures x(u)
  {
    if ct.Continual? {
      var obligation := ImpP(c, x);
      ReleaseNever(b, obligation, t);
      assert obligation(u);
    } else {
      var edges := ImpP(AndP(NotP(c), AndP(XP(c), NotP(b))), AndP(XP(x), NotP(b)));
      var edgesU := ImpP(AndP(NotP(c), XP(c)), XP(x));
      ReleaseNever(b, edges, t);
      if bounded { assert edges(u - 1); } else { assert edgesU(u - 1); }
    }
  }

  lemma InnerAlways(bounded: bool, b: Pred, ct: ConditionType, c: Pred, x: Pred, t: nat)
    requires Never(b) && Same(c, tt) && Inner(bounded, b, ct, false, c, x)(t)
    ensures x(t)
  {
    AlwaysConditioned(bounded, b, false, c, x, t);
  }

  lemma InnerEverywhere(bounded: bool, b: Pred, ct: ConditionType, c: Pred, x: Pred, t: nat)
    requires forall u: nat :: x(u)
    requires !bounded ==> b == ff
    ensures Inner(bounded, b, ct, false, c, x)(t)
  {
    var obligation := ImpP(c, x);
    assert forall j: nat :: obligation(j);
    assert Inner(bounded, b, Continual, false, c, x)(t);
    ContinualGivesTrigger(bounded, b, false, c, x);
  }

  // -- Modes that change ------------------------------------------------------------------------

  /** The mode ends at 0: each scope that reads its obligation then reads it at 1. */
  lemma ExitPlaces(scope: ScopeKind, m: Pred, x: Pred)
    requires Same(m, At(0))
    requires scope.NotIn? || scope.OnlyIn? || scope.AfterMode?
    ensures Never(BoundaryP(scope, m))
    ensures Wrap(scope, m, x)(0) <==> x(1)
  {
    assert EomP(m)(0) && Never(SomP(m));
    FirstEntryAtZero(EomP(m), x);
    assert forall t: nat :: t >= 1 ==> !EomP(m)(t);
    var entry := OrP(NotP(EomP(m)), XP(x));
    assert entry(0) <==> x(1);
    assert forall t: nat :: t >= 1 ==> entry(t);
  }

  ghost function Constant(v: bool): Pred { (t: nat) => v }
  ghost function Rise(): Pred { (t: nat) => t >= 1 }
  ghost function Gap(): Pred { (t: nat) => t != 1 }

  lemma InVacuous(ct: ConditionType, kind: Kind, s: Pred, m: Pred, c: Pred, p: Pred)
    requires Same(m, At(0)) && Same(c, At(2))
    ensures Lower(In, ct, false, kind, s, m, c, p)(0)
  {
    hide Body, Inner;
    assert EomP(m)(0) && Never(SomP(m));
    InnerVacuous(EomP(m), ct, c, Body(kind, s, EomP(m), p), 0);
  }

  lemma NotInVacuous(ct: ConditionType, kind: Kind, s: Pred, m: Pred, c: Pred, p: Pred)
    requires Same(m, Gap()) && Same(c, At(3))
    ensures Lower(NotIn, ct, false, kind, s, m, c, p)(0)
  {
    hide Body, Inner;
    var x := Body(kind, s, SomP(m), p);
    var inner := Inner(true, SomP(m), ct, false, c, x);
    assert m(0) && SomP(m)(1);
    InnerVacuous(SomP(m), ct, c, x, 1);
    assert forall t: nat :: t >= 1 ==> !EomP(m)(t);
    ReentryOnce(EomP(m), inner);
  }

  lemma ReentryOnce(e: Pred, x: Pred)
    requires x(1) && forall t: nat :: t >= 1 ==> !e(t)
    ensures Reentry(e, x)(0)
  {
    var entry := OrP(NotP(e), XP(x));
    assert entry(0);
    assert forall t: nat :: t >= 1 ==> entry(t);
  }

  /** `after` reads the condition that comes once the mode has ended. */
  lemma AfterFailsLater(ct: ConditionType, kind: Kind, s: Pred, m: Pred, c: Pred, p: Pred, u: nat)
    requires m(0) && !m(1) && u > 1 && Same(c, At(u))
    requires Never(p) && Same(s, BottomStop(kind))
    ensures !Lower(AfterMode, ct, false, kind, s, m, c, p)(0)
  {
    var x := Body(kind, s, ff, p);
    AfterReadsAtOne(ct, kind, s, m, c, p);
    Bottom(kind, u, ff, s, p);
    if Inner(false, ff, ct, false, c, x)(1) { InnerAtLater(false, ff, ct, c, x, 1, u); }
  }

  lemma AfterReadsAtOne(ct: ConditionType, kind: Kind, s: Pred, m: Pred, c: Pred, p: Pred)
    requires m(0) && !m(1)
    ensures Lower(AfterMode, ct, false, kind, s, m, c, p)(0)
       <==> Inner(false, ff, ct, false, c, Body(kind, s, ff, p))(1)
  {
    hide Body;
    assert EomP(m)(0);
    FirstEntryAtZero(EomP(m), Inner(false, ff, ct, false, c, Body(kind, s, ff, p)));
  }

  /** Past the exit at 0 the obligation is unmet, as nothing ever responds. */
  lemma ExitFails(weak: ScopeKind, ct: ConditionType, kind: Kind, s: Pred, m: Pred, c: Pred, p: Pred)
    requires weak.NotIn? || weak.AfterMode?
    requires Same(m, At(0)) && Same(c, tt) && Never(p) && Same(s, BottomStop(kind))
    ensures !Lower(weak, ct, false, kind, s, m, c, p)(0)
  {
    hide Body, Inner, Wrap;
    var b := BoundaryP(weak, m);
    var x := Body(kind, s, b, p);
    var inner := Inner(HasBoundary(weak), b, ct, false, c, x);
    LowerPlain(weak, ct, false, kind, s, m, c, p);
    ExitPlaces(weak, m, inner);
    if inner(1) { InnerAlways(HasBoundary(weak), b, ct, c, x, 1); }
    Bottom(kind, 1, b, s, p);
  }

  /** Without a response nothing is delivered outside an interval, wherever intervals lie. */
  lemma WrapEverywhere(scope: ScopeKind, m: Pred, x: Pred)
    requires forall u: nat :: x(u)
    ensures Wrap(scope, m, x)(0)
  {
    FirstEntryOfAll(EomP(m), x, 0);
    FirstEntryOfAll(SomP(m), x, 0);
    assert forall t: nat :: OrP(NotP(EomP(m)), XP(x))(t) && OrP(NotP(SomP(m)), XP(x))(t);
  }

  lemma OnlyBottom(scope: ScopeKind, ct: ConditionType, kind: Kind, s: Pred, m: Pred, c: Pred, p: Pred)
    requires IsOnlyScope(scope) && Never(p) && Same(s, BottomStop(kind))
    ensures Lower(scope, ct, false, kind, s, m, c, p)(0)
  {
    hide OnlyBody, Inner, Wrap;
    var b := BoundaryP(scope, m);
    var x := OnlyBody(kind, s, b, p);
    var inner := Inner(HasBoundary(scope), b, ct, false, c, x);
    forall u: nat ensures x(u) { Bottom(kind, u, b, s, p); }
    forall u: nat ensures inner(u) { InnerEverywhere(HasBoundary(scope), b, ct, c, x, u); }
    WrapEverywhere(scope, m, inner);
  }

  /** `only after` asks nothing when its interval is over before the condition comes. */
  lemma OnlyAfterVacuous(ct: ConditionType, kind: Kind, s: Pred, m: Pred, c: Pred, p: Pred)
    requires Same(m, At(0)) && Same(c, At(2))
    ensures Lower(OnlyAfter, ct, false, kind, s, m, c, p)(0)
  {
    hide OnlyBody;
    assert EomP(m)(0);
    InnerVacuous(EomP(m), ct, c, OnlyBody(kind, s, EomP(m), p), 0);
  }

  /** The other only scopes, and `only after` over a mode that never holds, are not. */
  lemma OnlyReadLater(weak: ScopeKind, ct: ConditionType, kind: Kind, s: Pred, m: Pred, c: Pred, p: Pred)
    requires IsOnlyScope(weak) && Same(c, At(2))
    requires if weak.OnlyAfter? then Never(m) else Same(m, At(0))
    requires Same(p, TopResponse(kind, 2)) && Same(s, TopStop(kind))
    ensures !Lower(weak, ct, false, kind, s, m, c, p)(0)
  {
    var b := BoundaryP(weak, m);
    var x := OnlyBody(kind, s, b, p);
    var inner := Inner(HasBoundary(weak), b, ct, false, c, x);
    if weak.OnlyIn? { ExitPlaces(weak, m, inner); }
    assert Never(b);
    Top(kind, 2, b, s, p);
    if inner(0) { InnerAtLater(HasBoundary(weak), b, ct, c, x, 0, 2); }
    if inner(1) { InnerAtLater(HasBoundary(weak), b, ct, c, x, 1, 2); }
  }

  /** Global `eventually` lets the response arrive after the boundary; a bounded scope does not. */
  lemma GlobalArrives(ct: ConditionType, s: Pred, m: Pred, c: Pred, p: Pred)
    requires Same(c, At(0)) && Same(p, At(1))
    ensures Lower(Global, ct, false, EvK, s, m, c, p)(0)
  {
    var x := UP(NotP(ff), p);
    assert p(1);
    assert forall i: nat :: 0 <= i < 1 ==> NotP(ff)(i);
    assert x(0);
    InnerAtPoint(false, ff, ct, c, x, 0);
  }

  lemma ArrivalAfterBoundary(weak: ScopeKind, ct: ConditionType, s: Pred, m: Pred, c: Pred, p: Pred)
    requires weak.In? || weak.NotIn? || weak.BeforeMode?
    requires Same(m, EdgeMode(weak)) && Same(c, At(0)) && Same(p, At(1))
    ensures !Lower(weak, ct, false, EvK, s, m, c, p)(0)
  {
    var b := BoundaryP(weak, m);
    EdgePlaces(EvK, weak, ct, m, c, p, s);
    NoArrival(b, p);
  }

  lemma NoArrival(b: Pred, p: Pred)
    requires b(0) && Same(p, At(1))
    ensures !UP(NotP(b), p)(0)
  {
    assert !NotP(b)(0) && forall j: nat :: p(j) ==> j == 1;
  }

  /** A global trigger over a condition that always holds fires once; a later interval fires again. */
  lemma FiresOnce(kind: Kind, s: Pred, m: Pred, c: Pred, p: Pred)
    requires !kind.AlwK? && Same(c, tt)
    requires Same(p, LapseResponse(kind, 0)) && Same(s, LapseStop(kind, 0))
    ensures Lower(Global, Trigger, false, kind, s, m, c, p)(0)
  {
    Lapses(kind, 0, ff, s, p);
    AlwaysConditioned(false, ff, false, c, Body(kind, s, ff, p), 0);
  }

  lemma FiresAgain(weak: ScopeKind, kind: Kind, s: Pred, m: Pred, c: Pred, p: Pred)
    requires weak.In? || weak.NotIn? || weak.AfterMode?
    requires !kind.AlwK? && Same(m, if weak.In? then Rise() else At(0)) && Same(c, tt)
    requires Same(p, LapseResponse(kind, 0)) && Same(s, LapseStop(kind, 0))
    ensures !Lower(weak, Trigger, false, kind, s, m, c, p)(0)
  {
    hide Body;
    var b := BoundaryP(weak, m);
    var x := Body(kind, s, b, p);
    var inner := Inner(HasBoundary(weak), b, Trigger, false, c, x);
    PlacesAtOne(weak, m, inner);
    assert !x(1) by { Lapses(kind, 0, b, s, p); }
    AlwaysConditioned(HasBoundary(weak), b, false, c, x, 1);
    LowerPlain(weak, Trigger, false, kind, s, m, c, p);
  }

  lemma PlacesAtOne(weak: ScopeKind, m: Pred, x: Pred)
    requires weak.In? || weak.NotIn? || weak.AfterMode?
    requires Same(m, if weak.In? then Rise() else At(0))
    ensures Never(BoundaryP(weak, m))
    ensures Wrap(weak, m, x)(0) ==> x(1)
  {
    if weak.In? { RisePlaces(m, x); } else { ExitPlaces(weak, m, x); }
  }

  lemma RisePlaces(m: Pred, x: Pred)
    requires Same(m, Rise())
    ensures Never(EomP(m))
    ensures Wrap(In, m, x)(0) ==> x(1)
  {
    assert SomP(m)(0);
    if Wrap(In, m, x)(0) { assert OrP(NotP(SomP(m)), XP(x))(0); }
  }

  // -- The theorem ------------------------------------------------------------------------------

  /** Read from the start of any trace, over any modes and propositional fields, the requirement placed by
      `strong` implies it placed by `weak`. */
  ghost predicate ScopeOrderHolds(strong: ScopeKind, weak: ScopeKind, sameMode: bool, kind: Kind, ct: ConditionType) {
    forall sigma: Trace, c: Formula, r: Formula, s: Formula, mode: string, mode': string
      | IsPropositional(c) && IsPropositional(r) && IsPropositional(s) && (sameMode ==> mode' == mode)
        && Holds(sigma, RequirementToLtl(RequirementAt(c, r, kind, s, ct, strong, mode)), 0)
      :: Holds(sigma, RequirementToLtl(RequirementAt(c, r, kind, s, ct, weak, mode')), 0)
  }

  predicate ScopeTable(strong: ScopeKind, weak: ScopeKind, sameMode: bool, kind: Kind, ct: ConditionType) {
    ScopeImplies(ScopeAt(strong, "m"), ScopeAt(weak, if sameMode then "m" else "n"), WithStop(kind, TRUE), ct)
  }

  ghost function TwoModes(c: Pred, r: Pred, s: Pred, m: Pred, n: Pred): Trace {
    (t: nat, name: string) =>
      if name == "c" then c(t) else if name == "r" then r(t) else if name == "s" then s(t)
      else if name == "n" then n(t) else m(t)
  }

  lemma TwoModesAtoms(c: Pred, r: Pred, s: Pred, m: Pred, n: Pred)
    ensures Same(Sem(TwoModes(c, r, s, m, n), Atom("c")), c) && Same(Sem(TwoModes(c, r, s, m, n), Atom("r")), r)
    ensures Same(Sem(TwoModes(c, r, s, m, n), Atom("s")), s) && Same(AtomP(TwoModes(c, r, s, m, n), "m"), m)
    ensures Same(AtomP(TwoModes(c, r, s, m, n), "n"), n) && Same(AtomP(TwoModes(c, r, s, m, n), ""), m)
  {
    assert "m"[0] == 'm' && "c"[0] == 'c' && "r"[0] == 'r' && "s"[0] == 's' && "n"[0] == 'n';
    assert |"m"| == 1 && |"n"| == 1 && |""| == 0 && |TRUE_NAME| == 4 && |FALSE_NAME| == 5;
  }

  /** Four free atoms and two modes following given predicates: a separation on the fields is one
      between the lowered requirements. A global scope's own mode is `m`'s. */
  lemma Separate(strong: ScopeKind, weak: ScopeKind, sameMode: bool, kind: Kind, ct: ConditionType,
                 c0: Pred, r0: Pred, s0: Pred, m0: Pred, n0: Pred)
      returns (c: Pred, p: Pred, s: Pred, m: Pred, n: Pred)
    requires sameMode || weak.Global? ==> n0 == m0
    ensures Same(c, c0) && Same(p, r0) && Same(s, s0) && Same(m, m0) && Same(n, n0)
    ensures Lower(strong, ct, false, kind, s, m, c, p)(0) && !Lower(weak, ct, false, kind, s, n, c, p)(0)
        ==> !ScopeOrderHolds(strong, weak, sameMode, kind, ct)
  {
    var sigma := TwoModes(c0, r0, s0, m0, n0);
    TwoModesAtoms(c0, r0, s0, m0, n0);
    var mode' := if sameMode then "m" else "n";
    c, p, s := Sem(sigma, Atom("c")), Sem(sigma, Atom("r")), Sem(sigma, Atom("s"));
    m, n := AtomP(sigma, ScopeAt(strong, "m").mode), AtomP(sigma, ScopeAt(weak, mode').mode);
    AtomRequirementMeans(kind, ct, strong, "m", sigma);
    AtomRequirementMeans(kind, ct, weak, mode', sigma);
    if Lower(strong, ct, false, kind, s, m, c, p)(0) && !Lower(weak, ct, false, kind, s, n, c, p)(0) {
      SeparatedScopes(strong, weak, sameMode, kind, ct, sigma);
    }
  }

  lemma SeparatedScopes(strong: ScopeKind, weak: ScopeKind, sameMode: bool, kind: Kind, ct: ConditionType, sigma: Trace)
    requires Holds(sigma, RequirementToLtl(AtomRequirement(kind, ct, strong, "m")), 0)
    requires !Holds(sigma, RequirementToLtl(AtomRequirement(kind, ct, weak, if sameMode then "m" else "n")), 0)
    ensures !ScopeOrderHolds(strong, weak, sameMode, kind, ct)
  {}

  lemma ConstantsRejected(strong: ScopeKind, weak: ScopeKind, sameMode: bool, kind: Kind, ct: ConditionType, v: bool,
                          v': bool)
    requires ConstantSeparates(strong, weak, v, v') && (sameMode || weak.Global? ==> v == v')
    ensures !ScopeOrderHolds(strong, weak, sameMode, kind, ct)
  {
    var c, p, s, m, n := Separate(strong, weak, sameMode, kind, ct, At(0), SeparatingResponse(weak, kind),
                                  SeparatingStop(weak, kind), Constant(v), Constant(v'));
    SeparatedByConstants(strong, weak, ct, kind, s, m, n, c, p, v, v');
  }

  /** Pairs into `after` and `not in` that a changing mode refutes, over a response that never comes. */
  predicate BottomPair(strong: ScopeKind, weak: ScopeKind) {
    || ((strong.BeforeMode? || IsOnlyScope(strong)) && weak.AfterMode?)
    || (strong.BeforeMode? && weak.NotIn?)
  }

  lemma BottomRejected(strong: ScopeKind, weak: ScopeKind, sameMode: bool, kind: Kind, ct: ConditionType)
    requires BottomPair(strong, weak)
    ensures !ScopeOrderHolds(strong, weak, sameMode, kind, ct)
  {
    var c, p, s, m, n := Separate(strong, weak, sameMode, kind, ct, tt, ff, BottomStop(kind), At(0), At(0));
    ExitFails(weak, ct, kind, s, n, c, p);
    if IsOnlyScope(strong) { OnlyBottom(strong, ct, kind, s, m, c, p); }
  }

  lemma PlainRejectedAfter(strong: ScopeKind, sameMode: bool, kind: Kind, ct: ConditionType)
    requires strong.In? || strong.NotIn?
    ensures !ScopeOrderHolds(strong, AfterMode, sameMode, kind, ct)
  {
    var m0, u := if strong.In? then At(0) else Gap(), if strong.In? then 2 else 3;
    var c, p, s, m, n := Separate(strong, AfterMode, sameMode, kind, ct, At(u), ff, BottomStop(kind), m0, m0);
    if strong.In? { InVacuous(ct, kind, s, m, c, p); } else { NotInVacuous(ct, kind, s, m, c, p); }
    AfterFailsLater(ct, kind, s, n, c, p, u);
  }

  lemma OnlyAfterRejected(weak: ScopeKind, sameMode: bool, kind: Kind, ct: ConditionType)
    requires weak.OnlyIn? || weak.OnlyBefore? || (weak.OnlyAfter? && !sameMode)
    ensures !ScopeOrderHolds(OnlyAfter, weak, sameMode, kind, ct)
  {
    var n0 := if weak.OnlyAfter? then ff else At(0);
    var c, p, s, m, n := Separate(OnlyAfter, weak, sameMode, kind, ct, At(2), TopResponse(kind, 2), TopStop(kind), At(0), n0);
    OnlyAfterVacuous(ct, kind, s, m, c, p);
    OnlyReadLater(weak, ct, kind, s, n, c, p);
  }

  lemma GlobalArrivalRejected(weak: ScopeKind, sameMode: bool, ct: ConditionType)
    requires weak.In? || weak.NotIn? || weak.BeforeMode?
    ensures !ScopeOrderHolds(Global, weak, sameMode, EvK, ct)
  {
    var c, p, s, m, n := Separate(Global, weak, sameMode, EvK, ct, At(0), At(1), ff, EdgeMode(weak), EdgeMode(weak));
    GlobalArrives(ct, s, m, c, p);
    ArrivalAfterBoundary(weak, ct, s, n, c, p);
  }

  lemma GlobalTriggerRejected(weak: ScopeKind, sameMode: bool, kind: Kind)
    requires (weak.In? || weak.NotIn? || weak.AfterMode?) && !kind.AlwK?
    ensures !ScopeOrderHolds(Global, weak, sameMode, kind, Trigger)
  {
    var m0 := if weak.In? then Rise() else At(0);
    var c, p, s, m, n := Separate(Global, weak, sameMode, kind, Trigger, tt, LapseResponse(kind, 0), LapseStop(kind, 0), m0, m0);
    FiresOnce(kind, s, m, c, p);
    FiresAgain(weak, kind, s, n, c, p);
  }

  lemma GlobalRejected(weak: ScopeKind, sameMode: bool, kind: Kind, ct: ConditionType)
    requires weak.In? || weak.NotIn? || weak.BeforeMode? || weak.AfterMode?
    requires ScopeEdge(Global, weak) !in ScopeEdges(WithStop(kind, TRUE), ct)
    ensures !ScopeOrderHolds(Global, weak, sameMode, kind, ct)
  {
    EdgesListed(Global, weak, WithStop(kind, TRUE), ct);
    if kind.EvK? && !weak.AfterMode? { GlobalArrivalRejected(weak, sameMode, ct); }
    else { GlobalTriggerRejected(weak, sameMode, kind); }
  }

  lemma DistinctCases(strong: ScopeKind, weak: ScopeKind)
    requires strong != weak && !(strong.NotIn? && weak.BeforeMode?)
    ensures || ConstantSeparates(strong, weak, false, false)
            || ConstantSeparates(strong, weak, true, true)
            || (strong.Global? && (weak.In? || weak.NotIn? || weak.BeforeMode? || weak.AfterMode?))
            || BottomPair(strong, weak)
            || (strong.OnlyAfter? && (weak.OnlyIn? || weak.OnlyBefore?))
            || ((strong.In? || strong.NotIn?) && weak.AfterMode?)
  {}

  /** Every pair of distinct scopes the table leaves out. */
  lemma DistinctRejected(strong: ScopeKind, weak: ScopeKind, sameMode: bool, kind: Kind, ct: ConditionType)
    requires strong != weak && ScopeEdge(strong, weak) !in ScopeEdges(WithStop(kind, TRUE), ct)
    ensures !ScopeOrderHolds(strong, weak, sameMode, kind, ct)
  {
    EdgesListed(strong, weak, WithStop(kind, TRUE), ct);
    DistinctCases(strong, weak);
    if ConstantSeparates(strong, weak, false, false) { ConstantsRejected(strong, weak, sameMode, kind, ct, false, false); }
    else if ConstantSeparates(strong, weak, true, true) { ConstantsRejected(strong, weak, sameMode, kind, ct, true, true); }
    else if strong.Global? { GlobalRejected(weak, sameMode, kind, ct); }
    else if BottomPair(strong, weak) { BottomRejected(strong, weak, sameMode, kind, ct); }
    else if strong.OnlyAfter? { OnlyAfterRejected(weak, sameMode, kind, ct); }
    else { PlainRejectedAfter(strong, sameMode, kind, ct); }
  }

  /** At two different modes even a scope does not imply itself. */
  /** A mode that never ends tells `after` nothing. */
  lemma NeverEntered(weak: ScopeKind, kind: Kind, ct: ConditionType)
    requires weak.NotIn? || weak.AfterMode?
    ensures !ScopeOrderHolds(AfterMode, weak, false, kind, ct)
  {
    hide Body, Inner;
    var c, p, s, m, n := Separate(AfterMode, weak, false, kind, ct, tt, ff, BottomStop(kind), ff, At(0));
    ExitFails(weak, ct, kind, s, n, c, p);
    assert Never(EomP(m));
    FirstEntryNever(EomP(m), Inner(false, ff, ct, false, c, Body(kind, s, ff, p)), 0);
  }

  lemma DifferentModesRejected(strong: ScopeKind, weak: ScopeKind, kind: Kind, ct: ConditionType)
    requires !strong.Global? && (strong == weak || (strong.NotIn? && weak.BeforeMode?))
    ensures !ScopeOrderHolds(strong, weak, false, kind, ct)
  {
    if strong.AfterMode? {
      NeverEntered(weak, kind, ct);
    } else if strong.OnlyAfter? {
      OnlyAfterRejected(weak, false, kind, ct);
    } else {
      var v := strong.NotIn? || strong.BeforeMode? || strong.OnlyIn?;
      ConstantsRejected(strong, weak, false, kind, ct, v, !v);
    }
  }

  lemma TableCases(strong: ScopeKind, weak: ScopeKind, sameMode: bool, kind: Kind, ct: ConditionType)
    ensures ScopeTable(strong, weak, sameMode, kind, ct)
       <==> || (strong == weak && (sameMode || strong.Global?))
            || ((strong.Global? || sameMode) && ScopeEdge(strong, weak) in ScopeEdges(WithStop(kind, TRUE), ct))
  {
    assert "m"[0] != "n"[0];
    EdgesListed(strong, weak, WithStop(kind, TRUE), ct);
  }

  lemma ScopeAccepted(strong: ScopeKind, weak: ScopeKind, sameMode: bool, kind: Kind, ct: ConditionType,
                      sigma: Trace, c: Formula, r: Formula, s: Formula, mode: string, mode': string)
    requires ScopeTable(strong, weak, sameMode, kind, ct) && (sameMode ==> mode' == mode)
    ensures Holds(sigma, RequirementToLtl(RequirementAt(c, r, kind, s, ct, strong, mode)), 0)
        ==> Holds(sigma, RequirementToLtl(RequirementAt(c, r, kind, s, ct, weak, mode')), 0)
  {
    TableCases(strong, weak, sameMode, kind, ct);
    var req := RequirementAt(c, r, kind, s, ct, strong, mode);
    EdgesListed(strong, weak, WithStop(kind, TRUE), ct);
    EdgesListed(strong, weak, WithStop(kind, s), ct);
    assert KindOf(WithStop(kind, s)) == kind;
    assert ScopeImplies(req.scope, ScopeAt(weak, mode'), req.timing, ct);
    ScopeOrderSound(req, ScopeAt(weak, mode'), sigma);
    assert req.(scope := ScopeAt(weak, mode')) == RequirementAt(c, r, kind, s, ct, weak, mode');
  }

  /** The scope order, exactly: for every timing at every tick count and both condition types, at one
      mode and at two, over all conditions together. */
  lemma ScopeOrderExact(strong: ScopeKind, weak: ScopeKind, sameMode: bool, kind: Kind, ct: ConditionType)
    ensures ScopeTable(strong, weak, sameMode, kind, ct) <==> ScopeOrderHolds(strong, weak, sameMode, kind, ct)
  {
    TableCases(strong, weak, sameMode, kind, ct);
    if ScopeTable(strong, weak, sameMode, kind, ct) {
      forall sigma: Trace, c: Formula, r: Formula, s: Formula, mode: string, mode': string | sameMode ==> mode' == mode
        ensures Holds(sigma, RequirementToLtl(RequirementAt(c, r, kind, s, ct, strong, mode)), 0)
            ==> Holds(sigma, RequirementToLtl(RequirementAt(c, r, kind, s, ct, weak, mode')), 0)
      {
        ScopeAccepted(strong, weak, sameMode, kind, ct, sigma, c, r, s, mode, mode');
      }
    } else if strong == weak || (strong.NotIn? && weak.BeforeMode?) {
      assert !sameMode by { EdgesListed(strong, weak, WithStop(kind, TRUE), ct); }
      DifferentModesRejected(strong, weak, kind, ct);
    } else {
      EdgesListed(strong, weak, WithStop(kind, TRUE), ct);
      DistinctRejected(strong, weak, sameMode, kind, ct);
    }
  }
}
