/** The timing order at the literal `true`: without a condition a continual requirement is asked at
    every position, and some timings then say as much as others the table keeps apart. */
module TimingOrderAtTrue {
  import opened Ltl
  import opened Fretish
  import opened FretishSemantics
  import opened TimingOrder
  import opened TimingExact
  import opened ScopeOrderAtTrue

  /** What holds at `true` and is not in the table. Asked at every position, `immediately` and `for n`
      are `always`; `after n` never holds where no boundary comes, and where one does, it holds only
      with the boundary in reach and the response absent, as does `after` any greater count. An only
      scope says the like of the negated bodies. */
  predicate TimingMissedAtTrue(strong: Kind, weak: Kind, scope: ScopeKind, ct: ConditionType) {
    && ct.Continual?
    && if IsOnlyScope(scope) then
         || ((strong.ImmK? || strong.WithinK?) && !weak.UntilK?)
         || (weak.AfterK? && (strong.NextK? || (strong.AfterK? && strong.n < weak.n)))
       else
         || Lasting(strong, weak)
         || (strong.AfterK? && (!HasBoundary(scope) || (weak.AfterK? && strong.n < weak.n)))
  }

  predicate Lasting(strong: Kind, weak: Kind) {
    (strong.ImmK? || strong.ForK?) && !weak.AfterK? && !weak.BeforeK?
  }

  // -- Bodies asked at every position -----------------------------------------------------------

  /** What follows wherever `x` lasts up to the boundary lasts up to it too. */
  lemma LastingLifts(b: Pred, x: Pred, y: Pred)
    requires Entails(RP(b, x), y)
    ensures Entails(RP(b, x), RP(b, y))
  {
    forall t: nat, j: nat | RP(b, x)(t) && t <= j && !(exists i: nat :: t <= i < j && b(i)) ensures y(j) {
      StillLasts(b, x, t, j);
    }
  }

  lemma StillLasts(b: Pred, x: Pred, t: nat, j: nat)
    requires RP(b, x)(t) && t <= j && forall i: nat :: t <= i < j ==> !b(i)
    ensures RP(b, x)(j)
  {
    forall k: nat | j <= k ensures x(k) || exists i: nat :: j <= i < k && b(i) {
      if !x(k) {
        var i: nat :| t <= i < k && b(i);
        assert j <= i;
      }
    }
  }

  lemma LastingNow(kind: Kind, s: Pred, b: Pred, p: Pred)
    requires kind.ImmK? || kind.ForK?
    ensures Entails(Body(kind, s, b, p), p)
  {
    if kind.ForK? {
      forall t: nat | Body(kind, s, b, p)(t) ensures p(t) { ForNow(kind.n, b, p, t); }
    }
  }

  lemma LastingGives(strong: Kind, weak: Kind, s: Pred, s': Pred, b: Pred, p: Pred)
    requires Lasting(strong, weak)
    ensures Entails(RP(b, Body(strong, s, b, p)), RP(b, Body(weak, s', b, p)))
  {
    hide Body, RP;
    var x, y := Body(strong, s, b, p), Body(weak, s', b, p);
    LastingNow(strong, s, b, p);
    ReleaseMono(b, b, x, p);
    FromAlways(weak, s', b, p);
    LastingLifts(b, x, y);
  }

  /** A continual `after n` keeps the response away up to the boundary. */
  lemma AfterWaits(n: nat, s: Pred, b: Pred, p: Pred, t: nat)
    requires RP(b, Body(AfterK(n), s, b, p))(t)
    ensures RP(b, NotP(p))(t)
  {
    ReleaseNow(b, Body(AfterK(n), s, b, p), t);
    if !RP(b, NotP(p))(t) {
      ResponseArrives(n, s, b, p, t);
      ArrivesOnce(n, s, b, p, t);
    }
  }

  lemma ResponseArrives(n: nat, s: Pred, b: Pred, p: Pred, t: nat)
    requires Body(AfterK(n), s, b, p)(t) && !RP(b, NotP(p))(t)
    ensures p(t + n + 1) && forall k: nat :: t <= k <= t + n ==> !b(k)
  {
    hide Body;
    AfterBodyIs(n, s, b, p);
    var q := NotP(p);
    assert AllUpTo(n, q)(t);
    forall k: nat | t <= k <= t + n ensures !b(k) {
      if b(k) { HoldsUpTo(b, q, t, k); }
    }
    var k: nat :| t <= k <= t + n + 1 && p(k);
    assert !q(k);
  }

  lemma AfterGrows(n: nat, m: nat, s: Pred, s': Pred, b: Pred, p: Pred)
    requires n < m
    ensures Entails(RP(b, Body(AfterK(n), s, b, p)), RP(b, Body(AfterK(m), s', b, p)))
  {
    var x, y := Body(AfterK(n), s, b, p), Body(AfterK(m), s', b, p);
    WithinGrows(n + 1, m + 1, b, p);
    forall t: nat | RP(b, x)(t) ensures y(t) {
      AfterWaits(n, s, b, p, t);
      ReleaseNow(b, x, t);
    }
    LastingLifts(b, x, y);
  }

  /** The response stays away where its absence at the next position is asked everywhere. */
  lemma OnlyNextLasts(b: Pred, p: Pred, t: nat)
    requires RP(b, OrP(b, XP(NotP(p))))(t) && !p(t)
    ensures RP(b, NotP(p))(t)
  {
    var q, x := NotP(p), OrP(b, XP(NotP(p)));
    forall j: nat | t <= j ensures q(j) || exists i: nat :: t <= i < j && b(i) {
      if j > t {
        assert x(j - 1) || exists i: nat :: t <= i < j - 1 && b(i);
        assert x(j - 1) ==> b(j - 1) || q(j);
      }
    }
  }

  lemma OnlyNextGivesAfter(m: nat, s: Pred, s': Pred, b: Pred, p: Pred)
    ensures Entails(RP(b, OnlyBody(NextK, s, b, p)), RP(b, OnlyBody(AfterK(m), s', b, p)))
  {
    var x, y := OnlyBody(NextK, s, b, p), OnlyBody(AfterK(m), s', b, p);
    forall t: nat | RP(b, x)(t) ensures y(t) {
      if p(t) { assert SomeUpTo(m, p)(t); } else { OnlyNextLasts(b, p, t); }
    }
    LastingLifts(b, x, y);
  }

  lemma OnlyAfterAt(n: nat, s: Pred, b: Pred, p: Pred, u: nat)
    requires OnlyBody(AfterK(n), s, b, p)(u)
    requires (forall k: nat :: u <= k <= u + n ==> !p(k)) && forall i: nat :: u <= i < u + n ==> !b(i)
    ensures b(u + n) || !p(u + n + 1)
  {
    hide OnlyBody;
    AfterBodyIs(n, s, b, p);
    var q := NotP(p);
    if RP(b, q)(u) {
      assert q(u + n + 1) || exists i: nat :: u <= i < u + n + 1 && b(i);
    } else {
      assert AllUpTo(n + 1, q)(u);
      assert q(u + n + 1);
    }
  }

  /** Neither the response nor the boundary within `m`: then no response at `m + 1`, or a boundary just
      before. */
  lemma OnlyAfterNext(n: nat, m: nat, s: Pred, b: Pred, p: Pred, t: nat)
    requires n < m && RP(b, OnlyBody(AfterK(n), s, b, p))(t)
    requires !SomeUpTo(m, p)(t) && !SomeBefore(m, b)(t)
    ensures b(t + m) || !p(t + m + 1)
  {
    hide OnlyBody, RP;
    var u := t + m - n;
    assert forall k: nat :: t <= k <= t + m ==> !p(k);
    assert forall i: nat :: t <= i < t + m ==> !b(i);
    StillLasts(b, OnlyBody(AfterK(n), s, b, p), t, u);
    ReleaseNow(b, OnlyBody(AfterK(n), s, b, p), u);
    OnlyAfterAt(n, s, b, p, u);
  }

  lemma OnlyAfterGrows(n: nat, m: nat, s: Pred, s': Pred, b: Pred, p: Pred)
    requires n < m
    ensures Entails(RP(b, OnlyBody(AfterK(n), s, b, p)), RP(b, OnlyBody(AfterK(m), s', b, p)))
  {
    var x, y := OnlyBody(AfterK(n), s, b, p), OnlyBody(AfterK(m), s', b, p);
    forall t: nat | RP(b, x)(t) ensures y(t) {
      if !SomeUpTo(m, p)(t) && !SomeBefore(m, b)(t) {
        OnlyAfterNext(n, m, s, b, p, t);
        StaysAway(m, b, p, t);
      }
    }
    LastingLifts(b, x, y);
  }

  lemma StaysAway(m: nat, b: Pred, p: Pred, t: nat)
    requires !SomeUpTo(m, p)(t) && (b(t + m) || !p(t + m + 1))
    ensures ForP(m + 1, b, NotP(p))(t)
  {
    var q := NotP(p);
    assert forall k: nat :: t <= k <= t + m ==> q(k);
    if b(t + m) { HoldsUpTo(b, q, t, t + m); } else { assert AllUpTo(m + 1, q)(t); }
  }

  lemma OnlyLastingGives(strong: Kind, weak: Kind, s: Pred, s': Pred, b: Pred, p: Pred)
    requires (strong.ImmK? || strong.WithinK?) && !weak.UntilK?
    ensures Entails(RP(b, OnlyBody(strong, s, b, p)), RP(b, OnlyBody(weak, s', b, p)))
  {
    var q := NotP(p);
    if weak.AfterK? {
      LastingGives(Dual(strong), AlwK, s, s', b, q);
      ReleaseMono(b, b, RP(b, q), OnlyBody(weak, s', b, p));
    } else {
      LastingGives(Dual(strong), Dual(weak), s, s', b, q);
    }
  }

  lemma MissedBodies(strong: Kind, weak: Kind, scope: ScopeKind, s: Pred, s': Pred, m: Pred, p: Pred)
    requires TimingMissedAtTrue(strong, weak, scope, Continual)
    ensures var b := BoundaryP(scope, m);
            Entails(RP(b, ScopedBody(scope, strong, s, m, p)), RP(b, ScopedBody(scope, weak, s', m, p)))
  {
    hide Body, OnlyBody, RP;
    var b := BoundaryP(scope, m);
    if IsOnlyScope(scope) {
      if strong.NextK? { OnlyNextGivesAfter(weak.n, s, s', b, p); }
      else if strong.AfterK? { OnlyAfterGrows(strong.n, weak.n, s, s', b, p); }
      else { OnlyLastingGives(strong, weak, s, s', b, p); }
    } else if Lasting(strong, weak) {
      LastingGives(strong, weak, s, s', b, p);
    } else if HasBoundary(scope) {
      AfterGrows(strong.n, weak.n, s, s', b, p);
    } else {
      forall t: nat ensures !RP(b, ScopedBody(scope, strong, s, m, p))(t) { NeverAfter(strong.n, s, p, t); }
    }
  }

  // -- What the table leaves out ----------------------------------------------------------------

  /** The requirement without a condition timed by `strong` implies it timed by `weak`. */
  ghost predicate TimingOrderHoldsAtTrue(strong: Kind, weak: Kind, scope: ScopeKind, ct: ConditionType) {
    forall sigma: Trace, r: Formula, s: Formula, mode: string
      | IsPropositional(r) && IsPropositional(s)
        && Holds(sigma, RequirementToLtl(RequirementAt(TRUE, r, strong, s, ct, scope, mode)), 0)
      :: Holds(sigma, RequirementToLtl(RequirementAt(TRUE, r, weak, s, ct, scope, mode)), 0)
  }

  lemma MissedPlaced(strong: Kind, weak: Kind, scope: ScopeKind, ct: ConditionType, s: Pred, s': Pred, m: Pred, p: Pred)
    requires TimingMissedAtTrue(strong, weak, scope, ct)
    ensures Entails(Placed(scope, ct, strong, s, m, p), Placed(scope, ct, weak, s', m, p))
  {
    hide Wrap, RP, ScopedBody;
    MissedBodies(strong, weak, scope, s, s', m, p);
    WrapMono(scope, m, Asks(BoundaryP(scope, m), ct, ScopedBody(scope, strong, s, m, p)),
             Asks(BoundaryP(scope, m), ct, ScopedBody(scope, weak, s', m, p)));
  }

  lemma MissedTimingMeans(strong: Kind, weak: Kind, scope: ScopeKind, ct: ConditionType, sigma: Trace, r: Formula,
                          s: Formula, mode: string)
    requires TimingMissedAtTrue(strong, weak, scope, ct)
    requires Holds(sigma, RequirementToLtl(RequirementAt(TRUE, r, strong, s, ct, scope, mode)), 0)
    ensures Holds(sigma, RequirementToLtl(RequirementAt(TRUE, r, weak, s, ct, scope, mode)), 0)
  {
    hide Placed, Sem, RequirementToLtl, TimingMissedAtTrue;
    RequirementAtTrueMeans(scope, mode, strong, ct, sigma, r, s);
    RequirementAtTrueMeans(scope, mode, weak, ct, sigma, r, s);
    MissedPlaced(strong, weak, scope, ct, StopP(sigma, WithStop(strong, s)), StopP(sigma, WithStop(weak, s)),
                 AtomP(sigma, ScopeAt(scope, mode).mode), Sem(sigma, r));
  }

  lemma MissedTimingHolds(strong: Kind, weak: Kind, scope: ScopeKind, ct: ConditionType)
    requires TimingMissedAtTrue(strong, weak, scope, ct)
    ensures TimingOrderHoldsAtTrue(strong, weak, scope, ct)
  {
    forall sigma: Trace, r: Formula, s: Formula, mode: string
      | Holds(sigma, RequirementToLtl(RequirementAt(TRUE, r, strong, s, ct, scope, mode)), 0)
      ensures Holds(sigma, RequirementToLtl(RequirementAt(TRUE, r, weak, s, ct, scope, mode)), 0)
    {
      MissedTimingMeans(strong, weak, scope, ct, sigma, r, s, mode);
    }
  }

  lemma TableHoldsAtTrue(strong: Kind, weak: Kind, scope: ScopeKind, ct: ConditionType)
    requires !ZeroTick(strong) && !ZeroTick(weak) && Table(strong, weak, scope)
    ensures TimingOrderHoldsAtTrue(strong, weak, scope, ct)
  {
    forall sigma: Trace, r: Formula, s: Formula, mode: string
      ensures Holds(sigma, RequirementToLtl(RequirementAt(TRUE, r, strong, s, ct, scope, mode)), 0)
          ==> Holds(sigma, RequirementToLtl(RequirementAt(TRUE, r, weak, s, ct, scope, mode)), 0)
    {
      Accepted(strong, weak, ct, scope, sigma, TRUE, r, s, mode);
    }
  }

  // -- Separations ------------------------------------------------------------------------------

  lemma TimingsSeparated(strong: Kind, weak: Kind, scope: ScopeKind, ct: ConditionType, sigma: Trace)
    requires Holds(sigma, RequirementToLtl(RequirementOver(TRUE, strong, ct, scope, "m")), 0)
    requires !Holds(sigma, RequirementToLtl(RequirementOver(TRUE, weak, ct, scope, "m")), 0)
    ensures !TimingOrderHoldsAtTrue(strong, weak, scope, ct)
  {}

  /** A response, a stop and a mode following given predicates: timings they tell apart are apart as
      requirements. */
  lemma SeparateTimings(strong: Kind, weak: Kind, scope: ScopeKind, ct: ConditionType, r0: Pred, s0: Pred, m0: Pred)
      returns (p: Pred, s: Pred, m: Pred)
    ensures Same(p, r0) && Same(s, s0) && Same(m, m0)
    ensures Placed(scope, ct, strong, s, m, p)(0) && !Placed(scope, ct, weak, s, m, p)(0)
        ==> !TimingOrderHoldsAtTrue(strong, weak, scope, ct)
  {
    hide Placed, RequirementToLtl, TimingOrderHoldsAtTrue;
    var sigma := Model(tt, r0, s0, m0);
    ModelAtoms(tt, r0, s0, m0, scope);
    p, s, m := Sem(sigma, Atom("r")), Sem(sigma, Atom("s")), AtomP(sigma, ScopeAt(scope, "m").mode);
    PlacedMeans(scope, "m", strong, ct, sigma);
    PlacedMeans(scope, "m", weak, ct, sigma);
    if Placed(scope, ct, strong, s, m, p)(0) && !Placed(scope, ct, weak, s, m, p)(0) {
      TimingsSeparated(strong, weak, scope, ct, sigma);
    }
  }

  lemma FreeAsks(scope: ScopeKind, ct: ConditionType, m: Pred, x: Pred)
    requires Same(m, FreeMode(scope))
    ensures Never(BoundaryP(scope, m))
    ensures PlacedBy(scope, ct, m, x)(0) <==> Asks(BoundaryP(scope, m), ct, x)(Position(scope))
  {
    WrapFree(scope, m, Asks(BoundaryP(scope, m), ct, x));
  }

  /** Under a mode that gives no boundary: the stronger body wherever it is asked, the weaker not. */
  lemma FreeTells(strong: Kind, weak: Kind, scope: ScopeKind, ct: ConditionType, s: Pred, m: Pred, p: Pred)
    requires Same(m, FreeMode(scope))
    requires Asks(BoundaryP(scope, m), ct, ScopedBody(scope, strong, s, m, p))(Position(scope))
    requires !ScopedBody(scope, weak, s, m, p)(Position(scope))
    ensures Placed(scope, ct, strong, s, m, p)(0) && !Placed(scope, ct, weak, s, m, p)(0)
  {
    hide ScopedBody, PlacedBy, Asks;
    FreeAsks(scope, ct, m, ScopedBody(scope, strong, s, m, p));
    FreeAsks(scope, ct, m, ScopedBody(scope, weak, s, m, p));
    AsksNow(BoundaryP(scope, m), ct, ScopedBody(scope, weak, s, m, p), Position(scope));
  }

  lemma AsksFrom(b: Pred, x: Pred, u: nat)
    requires forall t: nat :: u <= t ==> x(t)
    ensures Asks(b, Continual, x)(u)
  {}

  // -- Triggered timings: the table's own witnesses ---------------------------------------------

  lemma PlainTriggerRejected(strong: Kind, weak: Kind, scope: ScopeKind)
    requires !ZeroTick(strong) && !ZeroTick(weak) && !IsOnlyScope(scope) && !GlobalTable(strong, weak)
    ensures !TimingOrderHoldsAtTrue(strong, weak, scope, Trigger)
  {
    hide Body, GlobalTable, TimingOrderHoldsAtTrue;
    var u := Position(scope);
    var p, s, m := SeparateTimings(strong, weak, scope, Trigger, ResponseWitness(strong, weak, u),
                                   StopWitness(strong, weak, u), FreeMode(scope));
    WrapFree(scope, m, ff);
    StrongHolds(strong, weak, u, BoundaryP(scope, m), s, p);
    WeakFails(strong, weak, u, BoundaryP(scope, m), s, p);
    FreeTells(strong, weak, scope, Trigger, s, m, p);
  }

  lemma OnlyTriggerRejected(strong: Kind, weak: Kind, scope: ScopeKind)
    requires !ZeroTick(strong) && !ZeroTick(weak) && IsOnlyScope(scope) && !Table(strong, weak, scope)
    requires !strong.AfterK? && !weak.AfterK? ==> !GlobalTable(Dual(strong), Dual(weak))
    ensures !TimingOrderHoldsAtTrue(strong, weak, scope, Trigger)
  {
    hide OnlyBody, Table, GlobalTable, TimingOrderHoldsAtTrue;
    var u := Position(scope);
    var p, s, m := SeparateTimings(strong, weak, scope, Trigger, OnlyResponseWitness(strong, weak, u),
                                   OnlyStopWitness(strong, weak, u), FreeMode(scope));
    WrapFree(scope, m, ff);
    OnlyRefutes(strong, weak, scope, u, BoundaryP(scope, m), s, p);
    FreeTells(strong, weak, scope, Trigger, s, m, p);
  }

  // -- A boundary at the start ------------------------------------------------------------------

  lemma EdgeRejectsAtTrue(strong: Kind, weak: Kind, scope: ScopeKind, ct: ConditionType)
    requires EdgePair(strong, weak, scope)
    ensures !TimingOrderHoldsAtTrue(strong, weak, scope, ct)
  {
    hide ScopedBody, TimingOrderHoldsAtTrue;
    var p, s, m := SeparateTimings(strong, weak, scope, ct, if IsOnlyScope(scope) then tt else ff, ff, EdgeMode(scope));
    var b, x, y := BoundaryP(scope, m), ScopedBody(scope, strong, s, m, p), ScopedBody(scope, weak, s, m, p);
    WrapEdge(scope, m, Asks(b, ct, x));
    WrapEdge(scope, m, Asks(b, ct, y));
    EdgeRefutes(strong, weak, scope, m, p, s);
    AsksNow(b, ct, x, 0);
    AsksNow(b, ct, y, 0);
  }

  // -- Fields that keep the stronger body true for good ---------------------------------------

  ghost function From(k: nat): Pred { (t: nat) => k <= t }

  ghost function SteadyResponse(strong: Kind, weak: Kind, u: nat): Pred {
    if strong.UntilK? || strong.BeforeK? then ff
    else if weak.AfterK? then tt
    else
      match strong
      case NextK => From(u + 1)
      case WithinK(n) => if weak.NextK? then NotP(At(u + 1)) else From(u + n)
      case EvK => From(u + if weak.WithinK? then weak.n + 1 else 2)
      case _ => tt
  }

  ghost function SteadyStop(strong: Kind, weak: Kind, u: nat): Pred {
    if strong.UntilK? then tt else if weak.BeforeK? && !strong.BeforeK? then At(u) else ff
  }

  lemma SteadyHolds(strong: Kind, weak: Kind, u: nat, t: nat, b: Pred, s: Pred, p: Pred)
    requires Never(b) && u <= t && !strong.AfterK? && !ZeroTick(strong)
    requires Same(p, SteadyResponse(strong, weak, u)) && Same(s, SteadyStop(strong, weak, u))
    ensures Body(strong, s, b, p)(t)
  {
    match strong {
      case WithinK(n) =>
        var k := if p(t) then t else if weak.NextK? then t + 1 else t + n;
        assert t <= k <= t + n && p(k);
        assert SomeUpTo(n, p)(t);
      case ForK(n) => assert AllUpTo(n, p)(t);
      case EvK =>
        var k := t + u + if weak.WithinK? then weak.n + 1 else 2;
        assert p(k) && forall i: nat :: t <= i < k ==> NotP(b)(i);
      case UntilK => assert s(t);
      case BeforeK => assert forall j: nat :: NotP(s)(j);
      case _ =>
    }
  }

  lemma SteadyFails(strong: Kind, weak: Kind, u: nat, b: Pred, s: Pred, p: Pred)
    requires Never(b) && !strong.AfterK? && !ZeroTick(strong) && !ZeroTick(weak)
    requires !GlobalTable(strong, weak) && !Lasting(strong, weak)
    requires Same(p, SteadyResponse(strong, weak, u)) && Same(s, SteadyStop(strong, weak, u))
    ensures !Body(weak, s, b, p)(u)
  {
    assert weak.ForK? || weak.AlwK? || weak.UntilK? ==> u <= u && !p(u);
    BodyFails(weak, u, b, s, p);
  }

  lemma PlainSteadyRejected(strong: Kind, weak: Kind, scope: ScopeKind)
    requires !ZeroTick(strong) && !ZeroTick(weak) && !IsOnlyScope(scope) && !strong.AfterK?
    requires !GlobalTable(strong, weak) && !Lasting(strong, weak)
    ensures !TimingOrderHoldsAtTrue(strong, weak, scope, Continual)
  {
    hide Body, GlobalTable, TimingOrderHoldsAtTrue, SteadyResponse, SteadyStop;
    var u := Position(scope);
    var p, s, m := SeparateTimings(strong, weak, scope, Continual, SteadyResponse(strong, weak, u),
                                   SteadyStop(strong, weak, u), FreeMode(scope));
    var b := BoundaryP(scope, m);
    WrapFree(scope, m, ff);
    forall t: nat | u <= t ensures Body(strong, s, b, p)(t) { SteadyHolds(strong, weak, u, t, b, s, p); }
    AsksFrom(b, Body(strong, s, b, p), u);
    SteadyFails(strong, weak, u, b, s, p);
    FreeTells(strong, weak, scope, Continual, s, m, p);
  }

  // -- The only scopes --------------------------------------------------------------------------

  ghost function OnlySteadyResponse(strong: Kind, weak: Kind, u: nat): Pred {
    if weak.AfterK? then At(u + weak.n + 1)
    else if strong.AfterK? then tt
    else NotP(SteadyResponse(Dual(strong), Dual(weak), u))
  }

  ghost function OnlySteadyStop(strong: Kind, weak: Kind, u: nat): Pred {
    if weak.AfterK? then (if strong.BeforeK? then tt else ff)
    else if strong.AfterK? then (if weak.UntilK? then At(u) else ff)
    else SteadyStop(Dual(strong), Dual(weak), u)
  }

  /** What an only scope has at `true` into `after n`, from the table and besides. */
  lemma OnlyIntoAfterAtTrue(strong: Kind, n: nat, scope: ScopeKind)
    requires IsOnlyScope(scope) && !ZeroTick(strong)
    ensures Table(strong, AfterK(n), scope) || TimingMissedAtTrue(strong, AfterK(n), scope, Continual)
       <==> strong.EvK? || strong.WithinK? || strong.NextK? || strong.ImmK? || (strong.AfterK? && strong.n <= n)
  {
    OnlyIntoAfterTable(strong, n, scope);
  }

  lemma OnlyIntoAfterLasts(strong: Kind, n: nat, u: nat, t: nat, b: Pred, s: Pred, p: Pred)
    requires !ZeroTick(strong) && u <= t
    requires strong.ForK? || strong.AlwK? || strong.UntilK? || strong.BeforeK? || (strong.AfterK? && strong.n > n)
    requires Never(b) && Same(p, At(u + n + 1)) && Same(s, OnlySteadyStop(strong, AfterK(n), u))
    ensures OnlyBody(strong, s, b, p)(t)
  {
    var q := NotP(p);
    match strong {
      case ForK(m) =>
        var k := if q(t) then t else t + 1;
        assert q(k) && SomeUpTo(m, q)(t);
      case AlwK =>
        var k := if q(t) then t else t + 1;
        assert q(k) && forall i: nat :: t <= i < k ==> NotP(b)(i);
      case UntilK => assert forall j: nat :: NotP(s)(j);
      case BeforeK => assert s(t) && UP(q, s)(t);
      case AfterK(m) =>
        if t <= u + n + 1 { assert p(u + n + 1) && SomeUpTo(m, p)(t); } else { assert AllUpTo(m + 1, q)(t); }
    }
  }

  lemma OnlySteadyHolds(strong: Kind, weak: Kind, scope: ScopeKind, u: nat, t: nat, b: Pred, s: Pred, p: Pred)
    requires Never(b) && IsOnlyScope(scope) && u <= t && !ZeroTick(strong) && !ZeroTick(weak)
    requires !Table(strong, weak, scope) && !TimingMissedAtTrue(strong, weak, scope, Continual)
    requires Same(p, OnlySteadyResponse(strong, weak, u)) && Same(s, OnlySteadyStop(strong, weak, u))
    ensures OnlyBody(strong, s, b, p)(t)
  {
    if weak.AfterK? {
      OnlyIntoAfterAtTrue(strong, weak.n, scope);
      OnlyIntoAfterLasts(strong, weak.n, u, t, b, s, p);
    } else if strong.AfterK? {
      assert p(t) && SomeUpTo(strong.n, p)(t);
    } else {
      assert Same(NotP(p), SteadyResponse(Dual(strong), Dual(weak), u));
      SteadyHolds(Dual(strong), Dual(weak), u, t, b, s, NotP(p));
    }
  }

  lemma OnlySteadyFails(strong: Kind, weak: Kind, scope: ScopeKind, u: nat, b: Pred, s: Pred, p: Pred)
    requires Never(b) && IsOnlyScope(scope) && !ZeroTick(strong) && !ZeroTick(weak)
    requires !TimingMissedAtTrue(strong, weak, scope, Continual)
    requires !strong.AfterK? && !weak.AfterK? ==> !GlobalTable(Dual(strong), Dual(weak))
    requires Same(p, OnlySteadyResponse(strong, weak, u)) && Same(s, OnlySteadyStop(strong, weak, u))
    ensures !OnlyBody(weak, s, b, p)(u)
  {
    if weak.AfterK? {
      OnlyAfterFails(weak.n, u, b, s, p);
    } else if strong.AfterK? {
      OnlyFromAfterRefutes(strong, weak, u, b, s, p);
    } else {
      assert Same(NotP(p), SteadyResponse(Dual(strong), Dual(weak), u));
      SteadyFails(Dual(strong), Dual(weak), u, b, s, NotP(p));
    }
  }

  lemma OnlySteadyRejected(strong: Kind, weak: Kind, scope: ScopeKind)
    requires !ZeroTick(strong) && !ZeroTick(weak) && IsOnlyScope(scope)
    requires !Table(strong, weak, scope) && !TimingMissedAtTrue(strong, weak, scope, Continual)
    requires !strong.AfterK? && !weak.AfterK? ==> !GlobalTable(Dual(strong), Dual(weak))
    ensures !TimingOrderHoldsAtTrue(strong, weak, scope, Continual)
  {
    hide OnlyBody, Table, GlobalTable, TimingMissedAtTrue, TimingOrderHoldsAtTrue, OnlySteadyResponse, OnlySteadyStop;
    var u := Position(scope);
    var p, s, m := SeparateTimings(strong, weak, scope, Continual, OnlySteadyResponse(strong, weak, u),
                                   OnlySteadyStop(strong, weak, u), FreeMode(scope));
    var b := BoundaryP(scope, m);
    WrapFree(scope, m, ff);
    forall t: nat | u <= t ensures OnlyBody(strong, s, b, p)(t) { OnlySteadyHolds(strong, weak, scope, u, t, b, s, p); }
    AsksFrom(b, OnlyBody(strong, s, b, p), u);
    OnlySteadyFails(strong, weak, scope, u, b, s, p);
    FreeTells(strong, weak, scope, Continual, s, m, p);
  }

  // -- A continual `after n` under a boundary ---------------------------------------------------

  /** A mode under which the boundary first holds at `k`. */
  ghost function LateMode(scope: ScopeKind, k: nat): Pred {
    if scope.In? then Upto(k) else From(k + 1)
  }

  lemma LateAsks(scope: ScopeKind, m: Pred, k: nat, x: Pred)
    requires (scope.In? || scope.NotIn? || scope.BeforeMode?) && Same(m, LateMode(scope, k))
    ensures BoundaryP(scope, m)(k) && forall i: nat :: i < k ==> !BoundaryP(scope, m)(i)
    ensures PlacedBy(scope, Continual, m, x)(0) <==> RP(BoundaryP(scope, m), x)(0)
  {
    if scope.In? { assert Never(SomP(m)); }
    if scope.NotIn? { assert Never(EomP(m)); }
  }

  lemma LateHolds(n: nat, b: Pred, s: Pred, p: Pred)
    requires b(n) && Never(p)
    ensures RP(b, Body(AfterK(n), s, b, p))(0)
  {
    var x := Body(AfterK(n), s, b, p);
    forall t: nat | t <= n ensures x(t) {
      assert AllUpTo(n, NotP(p))(t);
      assert SomeBefore(n + 1, b)(t);
    }
    HoldsUpTo(b, x, 0, n);
  }

  lemma LateFails(weak: Kind, n: nat, b: Pred, s: Pred, p: Pred)
    requires (forall i: nat :: i < n ==> !b(i)) && Never(p)
    requires Same(s, if weak.BeforeK? then At(0) else ff)
    requires weak.WithinK? ==> weak.n <= n
    requires weak.NextK? ==> n > 0
    requires weak.AfterK? ==> weak.n < n
    ensures !Body(weak, s, b, p)(0)
  {
    hide RP, UP;
    match weak {
      case BeforeK => if Body(weak, s, b, p)(0) { ReleaseNow(OrP(p, b), NotP(s), 0); }
      case ForK(m) => if Body(weak, s, b, p)(0) { ForNow(m, b, p, 0); }
      case AlwK => if RP(b, p)(0) { ReleaseNow(b, p, 0); }
      case UntilK =>
        NothingArrives(p, s, 0);
        assert !p(0) && !GP(p)(0);
        if RP(b, p)(0) { ReleaseNow(b, p, 0); }
      case EvK => NothingArrives(NotP(b), p, 0);
      case _ =>
    }
  }

  lemma NothingArrives(q: Pred, p: Pred, t: nat)
    requires Never(p)
    ensures !UP(q, p)(t)
  {}

  lemma LateRejects(n: nat, weak: Kind, scope: ScopeKind)
    requires !IsOnlyScope(scope) && HasBoundary(scope) && !ZeroTick(weak)
    requires !Table(AfterK(n), weak, scope) && !TimingMissedAtTrue(AfterK(n), weak, scope, Continual)
    ensures !TimingOrderHoldsAtTrue(AfterK(n), weak, scope, Continual)
  {
    hide Body, RP, PlacedBy, TimingOrderHoldsAtTrue;
    var p, s, m := SeparateTimings(AfterK(n), weak, scope, Continual, ff, if weak.BeforeK? then At(0) else ff,
                                   LateMode(scope, n));
    var b := BoundaryP(scope, m);
    var x, y := Body(AfterK(n), s, b, p), Body(weak, s, b, p);
    LateAsks(scope, m, n, x);
    LateAsks(scope, m, n, y);
    LateHolds(n, b, s, p);
    LateFails(weak, n, b, s, p);
    AsksNow(b, Continual, y, 0);
  }

  // -- The theorem ------------------------------------------------------------------------------

  lemma PlainRejectedAtTrue(strong: Kind, weak: Kind, scope: ScopeKind, ct: ConditionType)
    requires !ZeroTick(strong) && !ZeroTick(weak) && !IsOnlyScope(scope)
    requires !Table(strong, weak, scope) && !TimingMissedAtTrue(strong, weak, scope, ct)
    ensures !TimingOrderHoldsAtTrue(strong, weak, scope, ct)
  {
    if ct.Continual? && strong.AfterK? { LateRejects(strong.n, weak, scope); }
    else if GlobalTable(strong, weak) { EdgeRejectsAtTrue(strong, weak, scope, ct); }
    else if ct.Continual? { PlainSteadyRejected(strong, weak, scope); }
    else { PlainTriggerRejected(strong, weak, scope); }
  }

  lemma OnlyRejectedAtTrue(strong: Kind, weak: Kind, scope: ScopeKind, ct: ConditionType)
    requires !ZeroTick(strong) && !ZeroTick(weak) && IsOnlyScope(scope)
    requires !Table(strong, weak, scope) && !TimingMissedAtTrue(strong, weak, scope, ct)
    ensures !TimingOrderHoldsAtTrue(strong, weak, scope, ct)
  {
    if !strong.AfterK? && !weak.AfterK? { OnlyTableOnDuals(strong, weak, scope); }
    if !strong.AfterK? && !weak.AfterK? && GlobalTable(Dual(strong), Dual(weak)) {
      EdgeRejectsAtTrue(strong, weak, scope, ct);
    } else if ct.Continual? {
      OnlySteadyRejected(strong, weak, scope);
    } else {
      OnlyTriggerRejected(strong, weak, scope);
    }
  }

  /** The timing order at the literal `true`, exactly: what the table accepts and, besides, the families
      `TimingMissedAtTrue` lists, all of them continual. */
  lemma TimingOrderExactAtTrue(strong: Kind, weak: Kind, scope: ScopeKind, ct: ConditionType)
    requires !ZeroTick(strong) && !ZeroTick(weak)
    ensures Table(strong, weak, scope) || TimingMissedAtTrue(strong, weak, scope, ct)
       <==> TimingOrderHoldsAtTrue(strong, weak, scope, ct)
  {
    hide TimingOrderHoldsAtTrue, Table, TimingMissedAtTrue;
    if Table(strong, weak, scope) { TableHoldsAtTrue(strong, weak, scope, ct); }
    else if TimingMissedAtTrue(strong, weak, scope, ct) { MissedTimingHolds(strong, weak, scope, ct); }
    else if IsOnlyScope(scope) { OnlyRejectedAtTrue(strong, weak, scope, ct); }
    else { PlainRejectedAtTrue(strong, weak, scope, ct); }
  }
}
