/** From one condition type to the other: always out of continual, and back where the body is a release. */
module ConditionOrder {
  import opened Ltl
  import opened Fretish
  import opened FretishSemantics
  import opened TimingOrder
  import opened TimingExact

  function Other(ct: ConditionType): ConditionType {
    if ct.Trigger? then Continual else Trigger
  }

  // -- Soundness --------------------------------------------------------------------------------

  lemma ContinualGivesTrigger(bounded: bool, b: Pred, isTrue: bool, c: Pred, x: Pred)
    ensures Entails(Inner(bounded, b, Continual, isTrue, c, x), Inner(bounded, b, Trigger, isTrue, c, x))
  {
    var obligation := ImpP(c, x);
    forall t: nat | Inner(bounded, b, Continual, isTrue, c, x)(t)
      ensures Inner(bounded, b, Trigger, isTrue, c, x)(t)
    {
      if bounded {
        ReleaseNow(b, obligation, t);
        if !isTrue { BoundedEdges(b, c, x, t); }
      } else {
        assert obligation(t);
        if !isTrue {
          var edge := AndP(NotP(c), XP(c));
          forall j: nat | t <= j ensures ImpP(edge, XP(x))(j) { assert obligation(j + 1); }
        }
      }
    }
  }

  lemma BoundedEdges(b: Pred, c: Pred, x: Pred, t: nat)
    requires RP(b, ImpP(c, x))(t)
    ensures RP(b, ImpP(AndP(NotP(c), AndP(XP(c), NotP(b))), AndP(XP(x), NotP(b))))(t)
  {
    var edges := ImpP(AndP(NotP(c), AndP(XP(c), NotP(b))), AndP(XP(x), NotP(b)));
    forall j: nat | t <= j ensures edges(j) || exists i: nat :: t <= i < j && b(i) {
      assert ImpP(c, x)(j + 1) || exists i: nat :: t <= i < j + 1 && b(i);
      if !edges(j) {
        assert !ImpP(c, x)(j + 1);
        var i: nat :| t <= i < j + 1 && b(i);
        assert !b(j);
      }
    }
  }

  /** A release reached before its boundary still stands later, until the boundary. */
  lemma ReleaseShift(b: Pred, p: Pred, t: nat, u: nat)
    requires t <= u && RP(b, p)(t) && forall i: nat :: t <= i < u ==> !b(i)
    ensures RP(b, p)(u)
  {
    forall j: nat | u <= j ensures p(j) || exists i: nat :: u <= i < j && b(i) {
      assert p(j) || exists i: nat :: t <= i < j && b(i);
      if !p(j) {
        var i: nat :| t <= i < j && b(i);
        assert u <= i;
      }
    }
  }

  /** Wherever the condition holds before the boundary, it has held since some position at which a
      trigger over a release fired, and nothing has ended the release since. */
  lemma RunOfCondition(bounded: bool, b: Pred, c: Pred, p: Pred, t: nat, u: nat)
    requires t <= u && c(u) && forall i: nat :: t <= i < u ==> !b(i)
    requires !bounded ==> b == ff
    requires Inner(bounded, b, Trigger, false, c, RP(b, p))(t)
    ensures RP(b, p)(u)
  {
    var x := RP(b, p);
    var v := First(c, t, u);
    if v > t {
      var j := v - 1;
      var edge := AndP(NotP(c), AndP(XP(c), NotP(b)));
      if bounded {
        assert RP(b, ImpP(edge, AndP(XP(x), NotP(b))))(t);
        assert ImpP(edge, AndP(XP(x), NotP(b)))(j);
        assert edge(j);
      } else {
        assert ImpP(AndP(NotP(c), XP(c)), XP(x))(j);
      }
      assert x(j + 1);
    } else {
      assert ImpP(c, x)(t);
    }
    ReleaseShift(b, p, v, u);
  }

  lemma TriggerGivesContinual(bounded: bool, b: Pred, isTrue: bool, c: Pred, p: Pred)
    requires !bounded ==> b == ff
    requires isTrue ==> Same(c, tt)
    ensures Entails(Inner(bounded, b, Trigger, isTrue, c, RP(b, p)), Inner(bounded, b, Continual, isTrue, c, RP(b, p)))
  {
    var x := RP(b, p);
    var obligation := ImpP(c, x);
    forall t: nat | Inner(bounded, b, Trigger, isTrue, c, x)(t)
      ensures Inner(bounded, b, Continual, isTrue, c, x)(t)
    {
      forall j: nat | t <= j ensures obligation(j) || exists i: nat :: t <= i < j && b(i) {
        if c(j) && !exists i: nat :: t <= i < j && b(i) {
          if isTrue {
            assert obligation(t);
            ReleaseShift(b, p, t, j);
          } else {
            RunOfCondition(bounded, b, c, p, t, j);
          }
        }
      }
      assert RP(b, obligation)(t);
      ReleaseFf(obligation);
    }
  }

  lemma LowerStep(scope: ScopeKind, ct: ConditionType, isTrue: bool, timing: Timing, s: Pred, m: Pred, c: Pred, r: Pred)
    requires ConditionTypeStep(ct, timing, scope)
    requires isTrue ==> Same(c, tt)
    ensures Entails(Lower(scope, ct, isTrue, KindOf(timing), s, m, c, r),
                    Lower(scope, Other(ct), isTrue, KindOf(timing), s, m, c, r))
  {
    var b, bounded := BoundaryP(scope, m), HasBoundary(scope);
    var x := ScopedBody(scope, KindOf(timing), s, m, r);
    InnerStep(bounded, b, ct, isTrue, c, x, if IsOnlyScope(scope) then NotP(r) else r);
    WrapMono(scope, m, Inner(bounded, b, ct, isTrue, c, x), Inner(bounded, b, Other(ct), isTrue, c, x));
  }

  lemma InnerStep(bounded: bool, b: Pred, ct: ConditionType, isTrue: bool, c: Pred, x: Pred, p: Pred)
    requires ct.Continual? || x == RP(b, p)
    requires isTrue ==> Same(c, tt)
    requires !bounded ==> b == ff
    ensures Entails(Inner(bounded, b, ct, isTrue, c, x), Inner(bounded, b, Other(ct), isTrue, c, x))
  {
    if ct.Continual? {
      ContinualGivesTrigger(bounded, b, isTrue, c, x);
    } else {
      TriggerGivesContinual(bounded, b, isTrue, c, p);
    }
  }

  /** An accepted step never turns a requirement that holds into one that does not. */
  lemma ConditionStepSound(req: Requirement, sigma: Trace)
    requires ConditionTypeStep(req.conditionType, req.timing, req.scope.kind)
    ensures Entails(Sem(sigma, RequirementToLtl(req)),
                    Sem(sigma, RequirementToLtl(req.(conditionType := Other(req.conditionType)))))
  {
    var dest := req.(conditionType := Other(req.conditionType));
    LoweringMeans(sigma, req);
    LoweringMeans(sigma, dest);
    StepOnFields(req, sigma);
    Chain(Sem(sigma, RequirementToLtl(req)), RequirementP(sigma, req), RequirementP(sigma, dest),
          Sem(sigma, RequirementToLtl(dest)));
  }

  lemma StepOnFields(req: Requirement, sigma: Trace)
    requires ConditionTypeStep(req.conditionType, req.timing, req.scope.kind)
    ensures Entails(RequirementP(sigma, req), RequirementP(sigma, req.(conditionType := Other(req.conditionType))))
  {
    LowerStep(req.scope.kind, req.conditionType, req.condition == TRUE, req.timing, StopP(sigma, req.timing),
              AtomP(sigma, req.scope.mode), Sem(sigma, req.condition), Sem(sigma, req.response));
  }

  lemma Chain(p: Pred, p': Pred, q': Pred, q: Pred)
    requires Same(p, p') && Entails(p', q') && Same(q, q')
    ensures Entails(p, q)
  {}

  // -- Exactness --------------------------------------------------------------------------------

  /** With these a body holds at `u` and no longer at `u + 1`. */
  ghost function LapseResponse(kind: Kind, u: nat): Pred {
    match kind
    case ImmK => At(u)
    case NextK => At(u + 1)
    case WithinK(_) => At(u)
    case ForK(n) => Upto(u + n)
    case AfterK(n) => At(u + n + 1)
    case EvK => At(u)
    case AlwK => tt
    case UntilK => ff
    case BeforeK => At(u)
  }

  ghost function LapseStop(kind: Kind, u: nat): Pred {
    if kind.UntilK? then At(u) else if kind.BeforeK? then At(u + 1) else ff
  }

  lemma Lapses(kind: Kind, u: nat, b: Pred, s: Pred, p: Pred)
    requires !kind.AlwK? && Never(b)
    requires Same(p, LapseResponse(kind, u)) && Same(s, LapseStop(kind, u))
    ensures Body(kind, s, b, p)(u) && !Body(kind, s, b, p)(u + 1)
  {
    match kind {
      case WithinK(n) => assert p(u); assert SomeUpTo(n, p)(u);
      case ForK(n) => assert AllUpTo(n, p)(u); assert !p(u + n + 1); BodyFails(kind, u + 1, b, s, p);
      case AfterK(n) => UnboundedAfter(n, b, s, p, u); UnboundedAfter(n, b, s, p, u + 1);
      case EvK => assert p(u); assert forall i: nat :: u <= i < u ==> NotP(b)(i); BodyFails(kind, u + 1, b, s, p);
      case UntilK => assert s(u); UntilLapse(u, b, s, p);
      case BeforeK => BeforeLapse(u, b, s, p);
      case _ =>
    }
  }

  lemma UntilLapse(u: nat, b: Pred, s: Pred, p: Pred)
    requires Never(b) && Never(p) && Same(s, At(u))
    ensures !Body(UntilK, s, b, p)(u + 1)
  {
    ReleaseNever(b, p, u + 1);
    assert !p(u + 1);
  }

  lemma BeforeLapse(u: nat, b: Pred, s: Pred, p: Pred)
    requires Same(p, At(u)) && Same(s, At(u + 1)) && Never(b)
    ensures Body(BeforeK, s, b, p)(u) && !Body(BeforeK, s, b, p)(u + 1)
  {
    var pb, ns := OrP(p, b), NotP(s);
    assert pb(u);
    forall j: nat | u <= j ensures ns(j) || exists i: nat :: u <= i < j && pb(i) {}
    if RP(pb, ns)(u + 1) { ReleaseNow(pb, ns, u + 1); }
  }

  /** The same for the body of an only scope. */
  ghost function OnlyLapseResponse(kind: Kind, u: nat): Pred {
    if kind.AfterK? then At(u + kind.n + 2) else NotP(LapseResponse(Dual(kind), u))
  }

  lemma OnlyLapses(kind: Kind, u: nat, b: Pred, s: Pred, p: Pred)
    requires !kind.EvK? && Never(b)
    requires Same(p, OnlyLapseResponse(kind, u)) && Same(s, LapseStop(Dual(kind), u))
    ensures OnlyBody(kind, s, b, p)(u) && !OnlyBody(kind, s, b, p)(u + 1)
  {
    if kind.AfterK? {
      assert AllUpTo(kind.n + 1, NotP(p))(u);
      OnlyAfterFails(kind.n, u + 1, b, s, p);
    } else {
      Lapses(Dual(kind), u, b, s, NotP(p));
    }
  }

  /** With nothing to wait for, a trigger is one obligation, here; a continual condition also places one
      a position on. */
  lemma AlwaysConditioned(bounded: bool, b: Pred, isTrue: bool, c: Pred, x: Pred, u: nat)
    requires Same(c, tt) && Never(b)
    ensures Inner(bounded, b, Trigger, isTrue, c, x)(u) <==> x(u)
    ensures Inner(bounded, b, Continual, isTrue, c, x)(u) ==> x(u) && x(u + 1)
  {
    var obligation := ImpP(c, x);
    ReleaseNever(b, obligation, u);
    assert obligation(u) <==> x(u);
    assert obligation(u + 1) <==> x(u + 1);
    assert forall t: nat :: !NotP(c)(t);
  }

  lemma StepSeparates(kind: Kind, scope: ScopeKind, isTrue: bool, m: Pred, c: Pred, p: Pred, s: Pred)
    requires if IsOnlyScope(scope) then !kind.EvK? else !kind.AlwK?
    requires Same(m, FreeMode(scope)) && Same(c, tt)
    requires Same(p, LapseResponseUnder(kind, scope)) && Same(s, LapseStopUnder(kind, scope))
    ensures Lower(scope, Trigger, isTrue, kind, s, m, c, p)(0)
    ensures !Lower(scope, Continual, isTrue, kind, s, m, c, p)(0)
  {
    hide Body, OnlyBody;
    var u := Position(scope);
    var b, x := BoundaryP(scope, m), ScopedBody(scope, kind, s, m, p);
    WrapFree(scope, m, Inner(HasBoundary(scope), b, Trigger, isTrue, c, x));
    WrapFree(scope, m, Inner(HasBoundary(scope), b, Continual, isTrue, c, x));
    AlwaysConditioned(HasBoundary(scope), b, isTrue, c, x, u);
    if IsOnlyScope(scope) { OnlyLapses(kind, u, b, s, p); } else { Lapses(kind, u, b, s, p); }
  }

  ghost function LapseResponseUnder(kind: Kind, scope: ScopeKind): Pred {
    if IsOnlyScope(scope) then OnlyLapseResponse(kind, Position(scope)) else LapseResponse(kind, Position(scope))
  }

  ghost function LapseStopUnder(kind: Kind, scope: ScopeKind): Pred {
    if IsOnlyScope(scope) then LapseStop(Dual(kind), Position(scope)) else LapseStop(kind, Position(scope))
  }

  /** A trace on which the trigger form holds and the continual one does not, at a free condition and
      at the literal `true` alike. */
  lemma StepSeparated(c: Formula, kind: Kind, scope: ScopeKind) returns (sigma: Trace)
    requires if IsOnlyScope(scope) then !kind.EvK? else !kind.AlwK?
    requires c == Atom("c") || c == TRUE
    ensures Holds(sigma, RequirementToLtl(RequirementOver(c, kind, Trigger, scope, "m")), 0)
    ensures !Holds(sigma, RequirementToLtl(RequirementOver(c, kind, Continual, scope, "m")), 0)
  {
    var r, stop := LapseResponseUnder(kind, scope), LapseStopUnder(kind, scope);
    sigma := Model(tt, r, stop, FreeMode(scope));
    ModelAtoms(tt, r, stop, FreeMode(scope), scope);
    StepSeparates(kind, scope, c == TRUE, AtomP(sigma, ScopeAt(scope, "m").mode), Sem(sigma, c), Sem(sigma, Atom("r")),
                  Sem(sigma, Atom("s")));
    RequirementOverMeans(c, kind, Trigger, scope, "m", sigma);
    RequirementOverMeans(c, kind, Continual, scope, "m", sigma);
  }

  lemma StepAccepted(from: ConditionType, kind: Kind, scope: ScopeKind, sigma: Trace,
                     c: Formula, r: Formula, s: Formula, mode: string)
    requires ConditionTypeStep(from, WithStop(kind, TRUE), scope)
    ensures Holds(sigma, RequirementToLtl(RequirementAt(c, r, kind, s, from, scope, mode)), 0)
        ==> Holds(sigma, RequirementToLtl(RequirementAt(c, r, kind, s, Other(from), scope, mode)), 0)
  {
    var req := RequirementAt(c, r, kind, s, from, scope, mode);
    assert ConditionTypeStep(from, WithStop(kind, s), scope);
    ConditionStepSound(req, sigma);
    assert req.(conditionType := Other(from)) == RequirementAt(c, r, kind, s, Other(from), scope, mode);
  }

  /** Read from the start of any trace, over any mode and propositional fields, the requirement implies
      itself under the other condition type. */
  ghost predicate ConditionOrderHolds(from: ConditionType, kind: Kind, scope: ScopeKind) {
    forall sigma: Trace, c: Formula, r: Formula, s: Formula, mode: string
      | IsPropositional(c) && IsPropositional(r) && IsPropositional(s)
        && Holds(sigma, RequirementToLtl(RequirementAt(c, r, kind, s, from, scope, mode)), 0)
      :: Holds(sigma, RequirementToLtl(RequirementAt(c, r, kind, s, Other(from), scope, mode)), 0)
  }

  /** The same for the one condition that the lowering treats specially. */
  ghost predicate ConditionOrderHoldsAtTrue(from: ConditionType, kind: Kind, scope: ScopeKind) {
    forall sigma: Trace, r: Formula, s: Formula, mode: string
      | IsPropositional(r) && IsPropositional(s)
        && Holds(sigma, RequirementToLtl(RequirementAt(TRUE, r, kind, s, from, scope, mode)), 0)
      :: Holds(sigma, RequirementToLtl(RequirementAt(TRUE, r, kind, s, Other(from), scope, mode)), 0)
  }

  lemma StepHolds(from: ConditionType, kind: Kind, scope: ScopeKind)
    requires ConditionTypeStep(from, WithStop(kind, TRUE), scope)
    ensures ConditionOrderHolds(from, kind, scope)
  {
    forall sigma: Trace, c: Formula, r: Formula, s: Formula, mode: string
      ensures Holds(sigma, RequirementToLtl(RequirementAt(c, r, kind, s, from, scope, mode)), 0)
          ==> Holds(sigma, RequirementToLtl(RequirementAt(c, r, kind, s, Other(from), scope, mode)), 0)
    {
      StepAccepted(from, kind, scope, sigma, c, r, s, mode);
    }
  }

  lemma StepHoldsAtTrue(from: ConditionType, kind: Kind, scope: ScopeKind)
    requires ConditionTypeStep(from, WithStop(kind, TRUE), scope)
    ensures ConditionOrderHoldsAtTrue(from, kind, scope)
  {
    forall sigma: Trace, r: Formula, s: Formula, mode: string
      ensures Holds(sigma, RequirementToLtl(RequirementAt(TRUE, r, kind, s, from, scope, mode)), 0)
          ==> Holds(sigma, RequirementToLtl(RequirementAt(TRUE, r, kind, s, Other(from), scope, mode)), 0)
    {
      StepAccepted(from, kind, scope, sigma, TRUE, r, s, mode);
    }
  }

  lemma StepRejected(kind: Kind, scope: ScopeKind)
    requires if IsOnlyScope(scope) then !kind.EvK? else !kind.AlwK?
    ensures !ConditionOrderHolds(Trigger, kind, scope)
  {
    var sigma := StepSeparated(Atom("c"), kind, scope);
  }

  lemma StepRejectedAtTrue(kind: Kind, scope: ScopeKind)
    requires if IsOnlyScope(scope) then !kind.EvK? else !kind.AlwK?
    ensures !ConditionOrderHoldsAtTrue(Trigger, kind, scope)
  {
    var sigma := StepSeparated(TRUE, kind, scope);
  }

  /** The condition-type order, exactly: over all conditions together, and again at the literal `true`
      alone, where a trigger is printed without its rising edge. */
  lemma ConditionOrderExact(from: ConditionType, kind: Kind, scope: ScopeKind)
    ensures ConditionTypeStep(from, WithStop(kind, TRUE), scope) <==> ConditionOrderHolds(from, kind, scope)
    ensures ConditionTypeStep(from, WithStop(kind, TRUE), scope) <==> ConditionOrderHoldsAtTrue(from, kind, scope)
  {
    if ConditionTypeStep(from, WithStop(kind, TRUE), scope) {
      StepHolds(from, kind, scope);
      StepHoldsAtTrue(from, kind, scope);
    } else {
      StepRejected(kind, scope);
      StepRejectedAtTrue(kind, scope);
    }
  }
}
