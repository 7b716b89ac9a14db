/** `TimingImplies` decides implication between timings: sound on every trace, and exact. */
module TimingOrder {
  import opened Ltl
  import opened Fretish
  import opened FretishSemantics

  // -- The edges of the table, on timing bodies -------------------------------------------------

  lemma WithinGrows(n: nat, m: nat, b: Pred, p: Pred)
    requires n <= m
    ensures Entails(WithinP(n, b, p), WithinP(m, b, p))
  {
    forall t: nat | WithinP(n, b, p)(t) ensures WithinP(m, b, p)(t) {
      if SomeUpTo(n, p)(t) { assert SomeUpTo(m, p)(t); } else { assert SomeBefore(m, b)(t); }
    }
  }

  lemma ForShrinks(n: nat, m: nat, b: Pred, p: Pred)
    requires m <= n
    ensures Entails(ForP(n, b, p), ForP(m, b, p))
  {}

  lemma ForNow(n: nat, b: Pred, p: Pred, t: nat)
    requires ForP(n, b, p)(t)
    ensures p(t)
    ensures n > 0 ==> b(t) || p(t + 1)
  {
    if RP(b, p)(t) { ReleaseNow(b, p, t); } else { assert AllUpTo(n, p)(t); }
  }

  lemma FromFor(n: nat, kind: Kind, s: Pred, b: Pred, p: Pred)
    requires n > 0
    requires kind.ImmK? || kind.NextK? || kind.WithinK? || kind.EvK?
    ensures Entails(ForP(n, b, p), Body(kind, s, b, p))
  {
    hide Body, ForP;
    NextBodyIs(s, b, p);
    forall t: nat | ForP(n, b, p)(t) ensures Body(kind, s, b, p)(t) {
      ForNow(n, b, p, t);
      FromNow(kind, s, b, p, t);
    }
  }

  lemma FromNow(kind: Kind, s: Pred, b: Pred, p: Pred, t: nat)
    requires p(t)
    ensures kind.WithinK? || kind.EvK? || kind.ImmK? ==> Body(kind, s, b, p)(t)
  {
    if kind.WithinK? { assert SomeUpTo(kind.n, p)(t); }
  }

  lemma FromAlways(kind: Kind, s: Pred, b: Pred, p: Pred)
    requires !kind.AfterK? && !kind.BeforeK?
    ensures Entails(RP(b, p), Body(kind, s, b, p))
  {
    forall t: nat | RP(b, p)(t) ensures Body(kind, s, b, p)(t) {
      ReleaseNow(b, p, t);
      FromNow(kind, s, b, p, t);
    }
  }

  lemma FromNext(m: nat, s: Pred, b: Pred, p: Pred)
    requires m > 0
    ensures Entails(Body(NextK, s, b, p), WithinP(m, b, p))
  {
    forall t: nat | Body(NextK, s, b, p)(t) ensures WithinP(m, b, p)(t) {
      if b(t) { assert SomeBefore(m, b)(t); } else { assert p(t + 1); assert SomeUpTo(m, p)(t); }
    }
  }

  lemma AfterZeroNextAt(b: Pred, p: Pred, t: nat)
    requires !p(t) && WithinP(1, b, p)(t)
    ensures b(t) || p(t + 1)
  {
    if SomeUpTo(1, p)(t) {
      var k: nat :| t <= k <= t + 1 && p(k);
      assert k == t + 1;
    }
  }

  lemma AfterZeroNext(s: Pred, b: Pred, p: Pred, t: nat)
    requires Body(AfterK(0), s, b, p)(t)
    ensures Body(NextK, s, b, p)(t)
  {
    hide AllUpTo, SomeUpTo, SomeBefore, RP;
    ForNow(0, b, NotP(p), t);
    AfterZeroNextAt(b, p, t);
  }

  /** Without a boundary, a deadline met is an arrival. */
  lemma IntoEventually(kind: Kind, s: Pred, p: Pred)
    requires kind.NextK? || kind.WithinK? || kind.AfterK?
    ensures Entails(Body(kind, s, ff, p), Body(EvK, s, ff, p))
  {
    UntilFf(p);
    forall t: nat | Body(kind, s, ff, p)(t) ensures FP(p)(t) {
      match kind {
        case NextK => assert p(t + 1);
        case WithinK(n) => assert SomeUpTo(n, p)(t);
        case AfterK(n) => assert WithinP(n + 1, ff, p)(t); assert SomeUpTo(n + 1, p)(t);
      }
    }
  }

  predicate Discharged(timing: Timing) {
    timing.NextTimepoint? || timing.WithinTicks? || timing.AfterTicks?
  }

  lemma DeadlineEdge(strong: Timing, weak: Timing, s: Pred, s': Pred, b: Pred, p: Pred)
    requires Discharged(strong) && !IsZeroTickBound(strong) && !IsZeroTickBound(weak)
    requires strong != weak && GlobalTimingImplies(strong, weak) && !weak.Eventually?
    ensures Entails(Body(KindOf(strong), s, b, p), Body(KindOf(weak), s', b, p))
  {
    if weak.NextTimepoint? {
      forall t: nat | Body(AfterK(0), s, b, p)(t) ensures Body(NextK, s', b, p)(t) { AfterZeroNext(s, b, p, t); }
    } else if strong.NextTimepoint? {
      FromNext(weak.ticks, s, b, p);
    } else if strong.WithinTicks? {
      WithinGrows(strong.ticks, weak.ticks, b, p);
    } else {
      WithinGrows(strong.ticks + 1, weak.ticks, b, p);
    }
  }

  /** Every edge of the Global order holds at every boundary, but for the three into `eventually`
      that a boundary discharges. */
  lemma GlobalEdge(strong: Timing, weak: Timing, s: Pred, s': Pred, b: Pred, p: Pred)
    requires !IsZeroTickBound(strong) && !IsZeroTickBound(weak)
    requires strong != weak && GlobalTimingImplies(strong, weak)
    requires weak.Eventually? && Discharged(strong) ==> b == ff
    ensures Entails(Body(KindOf(strong), s, b, p), Body(KindOf(weak), s', b, p))
  {
    if Discharged(strong) {
      if weak.Eventually? { EventuallyStops(s, s', b, p); IntoEventually(KindOf(strong), s, p); }
      else { DeadlineEdge(strong, weak, s, s', b, p); }
    } else {
      match strong {
        case Always => FromAlways(KindOf(weak), s', b, p);
        case ForTicks(n) =>
          if weak.ForTicks? { ForShrinks(n, weak.ticks, b, p); } else { FromFor(n, KindOf(weak), s', b, p); }
        case Immediately =>
          forall t: nat | p(t) ensures Body(KindOf(weak), s', b, p)(t) { FromNow(KindOf(weak), s', b, p, t); }
        case _ =>
      }
    }
  }

  lemma EventuallyStops(s: Pred, s': Pred, b: Pred, p: Pred)
    ensures Body(EvK, s, b, p) == Body(EvK, s', b, p)
  {}

  lemma OnlyNextAfterZero(b: Pred, p: Pred, t: nat)
    requires b(t) || !p(t + 1)
    ensures WithinP(0, b, p)(t) || ForP(1, b, NotP(p))(t)
  {
    var q := NotP(p);
    if p(t) {
      assert SomeUpTo(0, p)(t);
    } else if b(t) {
      assert q(t) && RP(b, q)(t);
    } else {
      assert q(t) && q(t + 1) && AllUpTo(1, q)(t);
    }
  }

  lemma OnlyIntoAfter(strong: Timing, n: nat, s: Pred, b: Pred, p: Pred, t: nat)
    requires strong.Eventually? || (strong.WithinTicks? && strong.ticks > n) || (strong.NextTimepoint? && n == 0)
    requires OnlyBody(KindOf(strong), s, b, p)(t)
    ensures WithinP(n, b, p)(t) || ForP(n + 1, b, NotP(p))(t)
  {
    if strong.WithinTicks? {
      ForShrinks(strong.ticks, n + 1, b, NotP(p));
    } else if strong.NextTimepoint? {
      OnlyNextAfterZero(b, p, t);
    }
  }

  /** An only scope reads the Global order on the duals, backwards. */
  lemma OnlyOnDuals(strong: Timing, weak: Timing, scope: ScopeKind)
    requires !IsZeroTickBound(strong) && !IsZeroTickBound(weak)
    requires IsOnlyScope(scope) && TimingImplies(strong, weak, scope) && strong != weak && !weak.AfterTicks?
    ensures !strong.AfterTicks? && GlobalTimingImplies(DualTiming(strong), DualTiming(weak))
    ensures DualTiming(strong) != DualTiming(weak)
    ensures weak.Always? && (strong.NextTimepoint? || strong.ForTicks?) ==> scope.OnlyBefore?
  {}

  lemma OnlyBodyIsDual(timing: Timing, s: Pred, b: Pred, p: Pred)
    requires !timing.AfterTicks?
    ensures OnlyBody(KindOf(timing), s, b, p) == Body(KindOf(DualTiming(timing)), s, b, NotP(p))
  {
    DualKind(timing);
  }

  lemma OnlyAfterEdge(strong: Timing, n: nat, s: Pred, s': Pred, b: Pred, p: Pred)
    requires strong.Eventually? || (strong.WithinTicks? && strong.ticks > n) || (strong.NextTimepoint? && n == 0)
    ensures Entails(OnlyBody(KindOf(strong), s, b, p), OnlyBody(AfterK(n), s', b, p))
  {
    forall t: nat | OnlyBody(KindOf(strong), s, b, p)(t) ensures OnlyBody(AfterK(n), s', b, p)(t) {
      OnlyIntoAfter(strong, n, s, b, p, t);
    }
  }

  lemma OnlyEdge(strong: Timing, weak: Timing, scope: ScopeKind, s: Pred, s': Pred, b: Pred, p: Pred)
    requires !IsZeroTickBound(strong) && !IsZeroTickBound(weak)
    requires IsOnlyScope(scope) && TimingImplies(strong, weak, scope) && strong != weak
    requires !HasBoundary(scope) ==> b == ff
    ensures Entails(OnlyBody(KindOf(strong), s, b, p), OnlyBody(KindOf(weak), s', b, p))
  {
    if weak.AfterTicks? {
      OnlyAfterEdge(strong, weak.ticks, s, s', b, p);
    } else {
      OnlyDualEdge(strong, weak, scope, s, s', b, p);
    }
  }

  lemma OnlyDualEdge(strong: Timing, weak: Timing, scope: ScopeKind, s: Pred, s': Pred, b: Pred, p: Pred)
    requires !IsZeroTickBound(strong) && !IsZeroTickBound(weak)
    requires IsOnlyScope(scope) && TimingImplies(strong, weak, scope) && strong != weak && !weak.AfterTicks?
    requires !HasBoundary(scope) ==> b == ff
    ensures Entails(OnlyBody(KindOf(strong), s, b, p), OnlyBody(KindOf(weak), s', b, p))
  {
    OnlyOnDuals(strong, weak, scope);
    DualsAreCounted(strong, weak);
    OnlyBodyIsDual(strong, s, b, p);
    OnlyBodyIsDual(weak, s', b, p);
    GlobalEdge(DualTiming(strong), DualTiming(weak), s, s', b, NotP(p));
  }

  /** Duality keeps the zero-tick bounds among themselves and turns `always` into `eventually`. */
  lemma DualsAreCounted(strong: Timing, weak: Timing)
    requires !IsZeroTickBound(strong) && !IsZeroTickBound(weak)
    ensures !IsZeroTickBound(DualTiming(strong)) && !IsZeroTickBound(DualTiming(weak))
    ensures DualTiming(weak).Eventually? <==> weak.Always?
    ensures !strong.AfterTicks? && Discharged(DualTiming(strong)) ==> strong.NextTimepoint? || strong.ForTicks?
  {}

  /** Soundness for whole requirements: following a timing edge never turns a requirement that holds into
      one that does not, whatever its other fields. */
  lemma TimingOrderSound(req: Requirement, weaker: Timing, sigma: Trace)
    requires !IsZeroTickBound(req.timing) && !IsZeroTickBound(weaker)
    requires TimingImplies(req.timing, weaker, req.scope.kind)
    ensures Entails(Sem(sigma, RequirementToLtl(req)), Sem(sigma, RequirementToLtl(req.(timing := weaker))))
  {
    if req.timing != weaker {
      var scope := req.scope.kind;
      var m, c, p := AtomP(sigma, req.scope.mode), Sem(sigma, req.condition), Sem(sigma, req.response);
      var b := BoundaryP(scope, m);
      var s, s' := StopP(sigma, req.timing), StopP(sigma, weaker);
      LoweringMeans(sigma, req);
      LoweringMeans(sigma, req.(timing := weaker));
      BodyEdge(req.timing, weaker, scope, s, s', m, p);
      LowerMono(scope, req.conditionType, req.condition == TRUE, KindOf(req.timing), s, KindOf(weaker), s', m, c, p);
    }
  }

  lemma BodyEdge(strong: Timing, weak: Timing, scope: ScopeKind, s: Pred, s': Pred, m: Pred, p: Pred)
    requires !IsZeroTickBound(strong) && !IsZeroTickBound(weak)
    requires TimingImplies(strong, weak, scope) && strong != weak
    ensures Entails(ScopedBody(scope, KindOf(strong), s, m, p), ScopedBody(scope, KindOf(weak), s', m, p))
  {
    var b := BoundaryP(scope, m);
    if IsOnlyScope(scope) { OnlyEdge(strong, weak, scope, s, s', b, p); }
    else { GlobalEdge(strong, weak, s, s', b, p); }
  }

  lemma LowerMono(scope: ScopeKind, ct: ConditionType, isTrue: bool, kind: Kind, s: Pred, kind': Kind, s': Pred,
                  m: Pred, c: Pred, p: Pred)
    requires Entails(ScopedBody(scope, kind, s, m, p), ScopedBody(scope, kind', s', m, p))
    ensures Entails(Lower(scope, ct, isTrue, kind, s, m, c, p), Lower(scope, ct, isTrue, kind', s', m, c, p))
  {
    var b := BoundaryP(scope, m);
    var x, y := ScopedBody(scope, kind, s, m, p), ScopedBody(scope, kind', s', m, p);
    InnerMono(HasBoundary(scope), b, ct, isTrue, c, x, y);
    WrapMono(scope, m, Inner(HasBoundary(scope), b, ct, isTrue, c, x), Inner(HasBoundary(scope), b, ct, isTrue, c, y));
  }
}
