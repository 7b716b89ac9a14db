/** Every pair `TimingImplies` rejects has a trace that satisfies the stronger requirement and
    falsifies the weaker: the table is exact at every tick count, scope and condition type. */
module TimingExact {
  import opened Ltl
  import opened Fretish
  import opened FretishSemantics
  import opened TimingOrder

  predicate ZeroTick(kind: Kind) {
    (kind.WithinK? || kind.ForK?) && kind.n == 0
  }

  predicate GlobalTable(strong: Kind, weak: Kind) {
    GlobalTimingImplies(WithStop(strong, TRUE), WithStop(weak, TRUE))
  }

  predicate Table(strong: Kind, weak: Kind, scope: ScopeKind)
    requires !ZeroTick(strong) && !ZeroTick(weak)
  {
    TimingImplies(WithStop(strong, TRUE), WithStop(weak, TRUE), scope)
  }

  ghost predicate Never(b: Pred) {
    forall t: nat :: !b(t)
  }

  ghost function At(u: nat): Pred { (t: nat) => t == u }
  ghost function Upto(u: nat): Pred { (t: nat) => t <= u }

  // -- Witnesses: a response and a stop separating two bodies at position `u` -------------------

  ghost function ResponseWitness(strong: Kind, weak: Kind, u: nat): Pred {
    match strong
    case ImmK => At(u)
    case NextK => if weak.AfterK? then Upto(u + 1) else At(u + 1)
    case WithinK(n) =>
      if weak.ImmK? || weak.ForK? then At(u + 1) else if weak.WithinK? then At(u + n) else At(u)
    case ForK(n) => Upto(u + n)
    case AfterK(n) => At(u + n + 1)
    case EvK => if weak.ImmK? || weak.ForK? then At(u + 1) else if weak.WithinK? then At(u + weak.n + 1) else At(u)
    case AlwK => tt
    case UntilK => ff
    case BeforeK => ff
  }

  ghost function StopWitness(strong: Kind, weak: Kind, u: nat): Pred {
    if strong.UntilK? || (weak.BeforeK? && !strong.BeforeK?) then At(u) else ff
  }

  /** With no boundary and a response that holds at `u` or fails for good, how each body fails. */
  lemma BodyFails(kind: Kind, u: nat, b: Pred, s: Pred, p: Pred)
    requires Never(b)
    requires kind.ImmK? ==> !p(u)
    requires kind.NextK? ==> !p(u + 1)
    requires kind.WithinK? ==> forall k: nat :: u <= k <= u + kind.n ==> !p(k)
    requires kind.ForK? ==> exists k: nat :: u <= k <= u + kind.n && !p(k)
    requires kind.AfterK? ==> p(u) || !p(u + kind.n + 1)
    requires kind.EvK? ==> forall k: nat :: u <= k ==> !p(k)
    requires kind.AlwK? ==> exists k: nat :: u <= k && !p(k)
    requires kind.UntilK? ==> Never(s) && exists k: nat :: u <= k && !p(k)
    requires kind.BeforeK? ==> s(u)
    ensures !Body(kind, s, b, p)(u)
  {
    match kind {
      case ForK(n) => ReleaseNever(b, p, u);
      case AfterK(n) => UnboundedAfter(n, b, s, p, u);
      case AlwK => ReleaseNever(b, p, u);
      case UntilK => ReleaseNever(b, p, u);
      case BeforeK =>
        if Body(kind, s, b, p)(u) { ReleaseNow(OrP(p, b), NotP(s), u); }
      case _ =>
    }
  }

  lemma StrongHolds(strong: Kind, weak: Kind, u: nat, b: Pred, s: Pred, p: Pred)
    requires Same(p, ResponseWitness(strong, weak, u)) && Same(s, StopWitness(strong, weak, u))
    requires Never(b) && !ZeroTick(strong)
    ensures Body(strong, s, b, p)(u)
  {
    match strong {
      case WithinK(n) =>
        var k := if weak.ImmK? || weak.ForK? then u + 1 else if weak.WithinK? then u + n else u;
        assert p(k);
        assert SomeUpTo(n, p)(u);
      case ForK(n) => assert AllUpTo(n, p)(u);
      case AfterK(n) =>
        assert AllUpTo(n, NotP(p))(u);
        assert p(u + n + 1);
        assert SomeUpTo(n + 1, p)(u);
      case EvK =>
        var k := if weak.ImmK? || weak.ForK? then u + 1 else if weak.WithinK? then u + weak.n + 1 else u;
        assert p(k);
        assert forall i: nat :: u <= i < k ==> NotP(b)(i);
      case UntilK => assert s(u);
      case BeforeK => assert forall t: nat :: NotP(s)(t);
      case _ =>
    }
  }

  lemma WeakFails(strong: Kind, weak: Kind, u: nat, b: Pred, s: Pred, p: Pred)
    requires Same(p, ResponseWitness(strong, weak, u)) && Same(s, StopWitness(strong, weak, u))
    requires Never(b) && !ZeroTick(strong) && !ZeroTick(weak)
    requires !GlobalTable(strong, weak)
    ensures !Body(weak, s, b, p)(u)
  {
    var far := match strong case ForK(n) => u + n + 1 case WithinK(n) => u + n + 2 case AfterK(n) => u case _ => u + 2;
    assert weak.AlwK? || weak.UntilK? ==> !p(far) && u <= far;
    if weak.ForK? {
      var k := match strong case ForK(n) => u + n + 1 case ImmK => u + 1 case _ => u;
      assert u <= k <= u + weak.n && !p(k);
    }
    BodyFails(weak, u, b, s, p);
  }

  /** Boundary at `u`: a deadline is discharged, an arrival is not. */
  lemma BoundaryRefutes(strong: Kind, u: nat, b: Pred, s: Pred, p: Pred)
    requires strong.NextK? || (strong.WithinK? && strong.n > 0) || strong.AfterK?
    requires b(u) && Never(p)
    ensures Body(strong, s, b, p)(u) && !Body(EvK, s, b, p)(u)
  {
    match strong {
      case NextK =>
      case WithinK(n) => assert SomeBefore(n, b)(u);
      case AfterK(n) =>
        assert AllUpTo(n, NotP(p))(u);
        assert SomeBefore(n + 1, b)(u);
    }
  }

  // -- The only scopes --------------------------------------------------------------------------

  /** Between two timings that are not `after n`, an only scope reads the table on the duals. */
  lemma OnlyTableOnDuals(strong: Kind, weak: Kind, scope: ScopeKind)
    requires IsOnlyScope(scope) && !ZeroTick(strong) && !ZeroTick(weak)
    requires !strong.AfterK? && !weak.AfterK?
    ensures Table(strong, weak, scope)
       <==> GlobalTable(Dual(strong), Dual(weak)) && (!scope.OnlyBefore? && Dual(weak).EvK?
              ==> !Dual(strong).NextK? && !Dual(strong).WithinK?)
  {}

  ghost function OnlyResponseWitness(strong: Kind, weak: Kind, u: nat): Pred {
    if weak.AfterK? then At(u + weak.n + 1)
    else if strong.AfterK? then tt
    else NotP(ResponseWitness(Dual(strong), Dual(weak), u))
  }

  ghost function OnlyStopWitness(strong: Kind, weak: Kind, u: nat): Pred {
    if weak.AfterK? then (if strong.BeforeK? then At(u) else ff)
    else if strong.AfterK? then (if weak.UntilK? then At(u) else ff)
    else StopWitness(Dual(strong), Dual(weak), u)
  }

  lemma OnlyFromAfterRefutes(strong: Kind, weak: Kind, u: nat, b: Pred, s: Pred, p: Pred)
    requires strong.AfterK? && !weak.AfterK? && Never(b)
    requires Same(p, tt) && Same(s, OnlyStopWitness(strong, weak, u))
    ensures OnlyBody(strong, s, b, p)(u) && !OnlyBody(weak, s, b, p)(u)
  {
    assert p(u);
    assert SomeUpTo(strong.n, p)(u);
    var q := NotP(p);
    assert forall t: nat :: !q(t);
    assert !q(u);
    BodyFails(Dual(weak), u, b, s, q);
  }

  lemma OnlyAfterFails(n: nat, u: nat, b: Pred, s: Pred, p: Pred)
    requires Never(b) && Same(p, At(u + n + 1))
    ensures !OnlyBody(AfterK(n), s, b, p)(u)
  {
    var q := NotP(p);
    UnboundedFor(n + 1, b, q, u);
    UnboundedWithin(n, b, p, u);
    assert !q(u + n + 1);
    assert !AllUpTo(n + 1, q)(u);
  }

  lemma OnlyIntoAfterTable(strong: Kind, n: nat, scope: ScopeKind)
    requires IsOnlyScope(scope) && !ZeroTick(strong)
    ensures Table(strong, AfterK(n), scope)
       <==> strong == AfterK(n) || strong.EvK? || (strong.WithinK? && strong.n > n) || (strong.NextK? && n == 0)
  {}

  lemma OnlyIntoAfterHolds(strong: Kind, n: nat, u: nat, b: Pred, s: Pred, p: Pred)
    requires strong != AfterK(n) && !strong.EvK? && !(strong.WithinK? && strong.n > n) && !(strong.NextK? && n == 0)
    requires Same(p, At(u + n + 1)) && Same(s, OnlyStopWitness(strong, AfterK(n), u)) && Never(b)
    ensures OnlyBody(strong, s, b, p)(u)
  {
    var q := NotP(p);
    match strong {
      case WithinK(m) => assert AllUpTo(m, q)(u);
      case ForK(m) => assert q(u); assert SomeUpTo(m, q)(u);
      case AfterK(m) =>
        if m > n { assert p(u + n + 1); assert SomeUpTo(m, p)(u); } else { assert AllUpTo(m + 1, q)(u); }
      case AlwK => assert q(u);
      case UntilK => assert forall t: nat :: NotP(s)(t);
      case BeforeK => assert s(u); assert UP(q, s)(u);
      case _ =>
    }
  }

  lemma OnlyRefutes(strong: Kind, weak: Kind, scope: ScopeKind, u: nat, b: Pred, s: Pred, p: Pred)
    requires Never(b) && IsOnlyScope(scope) && !ZeroTick(strong) && !ZeroTick(weak)
    requires !Table(strong, weak, scope)
    requires !strong.AfterK? && !weak.AfterK? ==> !GlobalTable(Dual(strong), Dual(weak))
    requires Same(p, OnlyResponseWitness(strong, weak, u)) && Same(s, OnlyStopWitness(strong, weak, u))
    ensures OnlyBody(strong, s, b, p)(u) && !OnlyBody(weak, s, b, p)(u)
  {
    hide Table, GlobalTable;
    if weak.AfterK? {
      OnlyIntoAfterTable(strong, weak.n, scope);
      OnlyAfterFails(weak.n, u, b, s, p);
      OnlyIntoAfterHolds(strong, weak.n, u, b, s, p);
    } else if strong.AfterK? {
      OnlyFromAfterRefutes(strong, weak, u, b, s, p);
    } else {
      assert Same(NotP(p), ResponseWitness(Dual(strong), Dual(weak), u));
      StrongHolds(Dual(strong), Dual(weak), u, b, s, NotP(p));
      WeakFails(Dual(strong), Dual(weak), u, b, s, NotP(p));
    }
  }

  // -- Placing a body in a requirement ----------------------------------------------------------

  /** A condition true at `u` and nowhere else makes the obligation due exactly at `u`. */
  lemma InnerAtPoint(bounded: bool, b: Pred, ct: ConditionType, c: Pred, x: Pred, u: nat)
    requires Same(c, At(u))
    ensures Inner(bounded, b, ct, false, c, x)(u) <==> x(u)
  {
    if ct.Continual? {
      var obligation := ImpP(c, x);
      assert x(u) ==> forall t: nat :: obligation(t);
      assert obligation(u) <==> x(u);
      if bounded && RP(b, obligation)(u) { ReleaseNow(b, obligation, u); }
    } else {
      var edge := AndP(NotP(c), AndP(XP(c), NotP(b)));
      assert forall t: nat :: u <= t ==> !edge(t);
    }
  }

  /** A mode under which the scope has no boundary and reads its body at `Position`. */
  ghost function FreeMode(scope: ScopeKind): Pred {
    match scope
    case In => tt
    case OnlyBefore => tt
    case AfterMode => At(0)
    case _ => ff
  }

  /** A mode under which the scope's boundary holds at 0 and the body is read there. */
  ghost function EdgeMode(scope: ScopeKind): Pred {
    if scope.In? || scope.OnlyAfter? then At(0) else (t: nat) => t >= 1
  }

  function Position(scope: ScopeKind): nat {
    if scope.AfterMode? then 1 else 0
  }

  lemma FirstEntryAtZero(e: Pred, x: Pred)
    requires e(0)
    ensures FirstEntry(e, x)(0) <==> x(1)
  {
    if x(1) {
      assert AndP(e, XP(x))(0);
      assert UP(NotP(e), AndP(e, XP(x)))(0);
    }
    if FirstEntry(e, x)(0) {
      assert !NotP(e)(0);
      var j: nat :| AndP(e, XP(x))(j) && forall i: nat :: 0 <= i < j ==> NotP(e)(i);
      assert j == 0;
    }
  }

  lemma WrapFree(scope: ScopeKind, m: Pred, x: Pred)
    requires Same(m, FreeMode(scope))
    ensures Never(BoundaryP(scope, m))
    ensures Wrap(scope, m, x)(0) <==> x(Position(scope))
  {
    if scope.AfterMode? {
      assert EomP(m)(0);
      FirstEntryAtZero(EomP(m), x);
    } else {
      assert Never(SomP(m)) && Never(EomP(m));
    }
  }

  lemma WrapEdge(scope: ScopeKind, m: Pred, x: Pred)
    requires HasBoundary(scope) && Same(m, EdgeMode(scope))
    ensures BoundaryP(scope, m)(0)
    ensures Wrap(scope, m, x)(0) <==> x(0)
  {
    if scope.In? { assert Never(SomP(m)); }
    if scope.NotIn? || scope.OnlyIn? { assert Never(EomP(m)); }
  }

  // -- The theorem ------------------------------------------------------------------------------

  /** A global scope names no mode. */
  function ScopeAt(kind: ScopeKind, mode: string): Scope {
    Scope(kind, if kind.Global? then "" else mode)
  }

  function RequirementAt(c: Formula, r: Formula, kind: Kind, s: Formula, ct: ConditionType,
                         scope: ScopeKind, mode: string): Requirement {
    Requirement(c, r, WithStop(kind, s), ct, ScopeAt(scope, mode))
  }

  /** Read from the start of any trace, over any mode and propositional fields, the requirement timed by
      `strong` implies it timed by `weak`. */
  ghost predicate TimingOrderHolds(strong: Kind, weak: Kind, scope: ScopeKind, ct: ConditionType) {
    forall sigma: Trace, c: Formula, r: Formula, s: Formula, mode: string
      | IsPropositional(c) && IsPropositional(r) && IsPropositional(s)
        && Holds(sigma, RequirementToLtl(RequirementAt(c, r, strong, s, ct, scope, mode)), 0)
      :: Holds(sigma, RequirementToLtl(RequirementAt(c, r, weak, s, ct, scope, mode)), 0)
  }

  /** The trace on which four named atoms follow four given predicates. */
  ghost function Model(c: Pred, r: Pred, s: Pred, m: Pred): Trace {
    (t: nat, name: string) =>
      if name == "c" then c(t) else if name == "r" then r(t) else if name == "s" then s(t) else m(t)
  }

  function AtomRequirement(kind: Kind, ct: ConditionType, scope: ScopeKind, mode: string): Requirement {
    RequirementAt(Atom("c"), Atom("r"), kind, Atom("s"), ct, scope, mode)
  }

  lemma ModelAtoms(c: Pred, r: Pred, s: Pred, m: Pred, scope: ScopeKind)
    ensures var sigma := Model(c, r, s, m);
            && Same(Sem(sigma, Atom("c")), c) && Same(Sem(sigma, Atom("r")), r)
            && Same(Sem(sigma, Atom("s")), s) && Same(AtomP(sigma, ScopeAt(scope, "m").mode), m)
  {
    assert "c"[0] != "r"[0] && "c"[0] != "s"[0] && "r"[0] != "s"[0] && "m"[0] != "c"[0];
    assert |"m"| != |TRUE_NAME| && |""| != |TRUE_NAME| && |"m"| != |FALSE_NAME| && |""| != |FALSE_NAME|;
    assert "m"[0] == 'm' && "c"[0] == 'c' && "r"[0] == 'r' && "s"[0] == 's';
    var mode := ScopeAt(scope, "m").mode;
    assert mode != "c" && mode != "r" && mode != "s";
  }

  /** A body that does not read its stop does not depend on it. */
  lemma StopUnused(kind: Kind, s: Pred, s': Pred, b: Pred, p: Pred)
    requires !kind.UntilK? && !kind.BeforeK?
    ensures Body(kind, s, b, p) == Body(kind, s', b, p)
    ensures OnlyBody(kind, s, b, p) == OnlyBody(kind, s', b, p)
  {}

  lemma LowerStopUnused(scope: ScopeKind, ct: ConditionType, isTrue: bool, kind: Kind, s: Pred, s': Pred, m: Pred,
                        c: Pred, p: Pred)
    requires !kind.UntilK? && !kind.BeforeK?
    ensures Lower(scope, ct, isTrue, kind, s, m, c, p) == Lower(scope, ct, isTrue, kind, s', m, c, p)
  {
    StopUnused(kind, s, s', BoundaryP(scope, m), p);
  }

  lemma WithStopMeans(sigma: Trace, kind: Kind, s: Formula)
    ensures KindOf(WithStop(kind, s)) == kind
    ensures kind.UntilK? || kind.BeforeK? ==> StopP(sigma, WithStop(kind, s)) == Sem(sigma, s)
  {}

  /** The requirement over four free atoms, with every field read off the trace. */
  lemma AtomRequirementMeans(kind: Kind, ct: ConditionType, scope: ScopeKind, mode: string, sigma: Trace)
    ensures Holds(sigma, RequirementToLtl(AtomRequirement(kind, ct, scope, mode)), 0)
       <==> Lower(scope, ct, false, kind, Sem(sigma, Atom("s")), AtomP(sigma, ScopeAt(scope, mode).mode),
                  Sem(sigma, Atom("c")), Sem(sigma, Atom("r")))(0)
  {
    assert Atom("c") != TRUE by { assert |"c"| != |TRUE_NAME|; }
    RequirementOverMeans(Atom("c"), kind, ct, scope, mode, sigma);
  }

  function RequirementOver(c: Formula, kind: Kind, ct: ConditionType, scope: ScopeKind, mode: string): Requirement {
    RequirementAt(c, Atom("r"), kind, Atom("s"), ct, scope, mode)
  }

  lemma RequirementOverMeans(c: Formula, kind: Kind, ct: ConditionType, scope: ScopeKind, mode: string, sigma: Trace)
    ensures Holds(sigma, RequirementToLtl(RequirementOver(c, kind, ct, scope, mode)), 0)
       <==> Lower(scope, ct, c == TRUE, kind, Sem(sigma, Atom("s")), AtomP(sigma, ScopeAt(scope, mode).mode),
                  Sem(sigma, c), Sem(sigma, Atom("r")))(0)
  {
    hide Sem, Lower;
    var req := RequirementOver(c, kind, ct, scope, mode);
    LoweringMeans(sigma, req);
    WithStopMeans(sigma, kind, Atom("s"));
    var m, p := AtomP(sigma, req.scope.mode), Sem(sigma, Atom("r"));
    if !kind.UntilK? && !kind.BeforeK? {
      LowerStopUnused(scope, ct, c == TRUE, kind, StopP(sigma, req.timing), Sem(sigma, Atom("s")), m, Sem(sigma, c), p);
    }
  }

  lemma SeparatedMeansRejected(strong: Kind, weak: Kind, scope: ScopeKind, ct: ConditionType, sigma: Trace)
    requires Holds(sigma, RequirementToLtl(AtomRequirement(strong, ct, scope, "m")), 0)
    requires !Holds(sigma, RequirementToLtl(AtomRequirement(weak, ct, scope, "m")), 0)
    ensures !TimingOrderHolds(strong, weak, scope, ct)
  {}

  /** Bodies separated at a mode that places them give requirements separated at 0. */
  lemma FreeSeparates(strong: Kind, weak: Kind, scope: ScopeKind, ct: ConditionType, r: Pred,
                      s: Pred) returns (sigma: Trace)
    ensures sigma == Model(At(Position(scope)), r, s, FreeMode(scope))
    ensures var m, p, sp := AtomP(sigma, ScopeAt(scope, "m").mode), Sem(sigma, Atom("r")), Sem(sigma, Atom("s"));
            && Never(BoundaryP(scope, m)) && Same(p, r) && Same(sp, s)
            && (ScopedBody(scope, strong, sp, m, p)(Position(scope)) && !ScopedBody(scope, weak, sp, m, p)(Position(scope))
                ==> !TimingOrderHolds(strong, weak, scope, ct))
  {
    hide RequirementToLtl, Lower, ScopedBody, TimingOrderHolds;
    sigma := Model(At(Position(scope)), r, s, FreeMode(scope));
    ModelAtoms(At(Position(scope)), r, s, FreeMode(scope), scope);
    var m, c, p, sp := AtomP(sigma, ScopeAt(scope, "m").mode), Sem(sigma, Atom("c")), Sem(sigma, Atom("r")), Sem(sigma, Atom("s"));
    FreePlaces(strong, scope, ct, m, c, p, sp);
    FreePlaces(weak, scope, ct, m, c, p, sp);
    AtomRequirementMeans(strong, ct, scope, "m", sigma);
    AtomRequirementMeans(weak, ct, scope, "m", sigma);
    if ScopedBody(scope, strong, sp, m, p)(Position(scope)) && !ScopedBody(scope, weak, sp, m, p)(Position(scope)) {
      SeparatedMeansRejected(strong, weak, scope, ct, sigma);
    }
  }

  lemma FreePlaces(kind: Kind, scope: ScopeKind, ct: ConditionType, m: Pred, c: Pred, p: Pred, s: Pred)
    requires Same(m, FreeMode(scope)) && Same(c, At(Position(scope)))
    ensures Never(BoundaryP(scope, m))
    ensures Lower(scope, ct, false, kind, s, m, c, p)(0) <==> ScopedBody(scope, kind, s, m, p)(Position(scope))
  {
    var body := ScopedBody(scope, kind, s, m, p);
    var inner := Inner(HasBoundary(scope), BoundaryP(scope, m), ct, false, c, body);
    WrapFree(scope, m, inner);
    InnerAtPoint(HasBoundary(scope), BoundaryP(scope, m), ct, c, body, Position(scope));
  }

  lemma EdgePlaces(kind: Kind, scope: ScopeKind, ct: ConditionType, m: Pred, c: Pred, p: Pred, s: Pred)
    requires HasBoundary(scope) && Same(m, EdgeMode(scope)) && Same(c, At(0))
    ensures BoundaryP(scope, m)(0)
    ensures Lower(scope, ct, false, kind, s, m, c, p)(0) <==> ScopedBody(scope, kind, s, m, p)(0)
  {
    var body := ScopedBody(scope, kind, s, m, p);
    var inner := Inner(HasBoundary(scope), BoundaryP(scope, m), ct, false, c, body);
    WrapEdge(scope, m, inner);
    InnerAtPoint(HasBoundary(scope), BoundaryP(scope, m), ct, c, body, 0);
  }

  /** The boundary discharges a deadline but not an arrival, under a plain or an only scope. */
  predicate EdgePair(strong: Kind, weak: Kind, scope: ScopeKind) {
    && HasBoundary(scope) && !ZeroTick(strong)
    && if IsOnlyScope(scope) then weak.AlwK? && (strong.NextK? || strong.ForK?)
       else weak.EvK? && (strong.NextK? || strong.WithinK? || strong.AfterK?)
  }

  lemma EdgeRefutes(strong: Kind, weak: Kind, scope: ScopeKind, m: Pred, p: Pred, s: Pred)
    requires EdgePair(strong, weak, scope) && BoundaryP(scope, m)(0)
    requires if IsOnlyScope(scope) then Same(p, tt) else Never(p)
    ensures ScopedBody(scope, strong, s, m, p)(0) && !ScopedBody(scope, weak, s, m, p)(0)
  {
    if IsOnlyScope(scope) { BoundaryRefutes(Dual(strong), 0, BoundaryP(scope, m), s, NotP(p)); }
    else { BoundaryRefutes(strong, 0, BoundaryP(scope, m), s, p); }
  }

  lemma EdgeSeparates(strong: Kind, weak: Kind, scope: ScopeKind, ct: ConditionType)
    requires EdgePair(strong, weak, scope)
    ensures !TimingOrderHolds(strong, weak, scope, ct)
  {
    hide Sem, Lower, ScopedBody;
    var r := if IsOnlyScope(scope) then tt else ff;
    var sigma := Model(At(0), r, ff, EdgeMode(scope));
    ModelAtoms(At(0), r, ff, EdgeMode(scope), scope);
    var m, c, p, s := AtomP(sigma, ScopeAt(scope, "m").mode), Sem(sigma, Atom("c")), Sem(sigma, Atom("r")), Sem(sigma, Atom("s"));
    EdgePlaces(strong, scope, ct, m, c, p, s);
    EdgePlaces(weak, scope, ct, m, c, p, s);
    EdgeRefutes(strong, weak, scope, m, p, s);
    AtomRequirementMeans(strong, ct, scope, "m", sigma);
    AtomRequirementMeans(weak, ct, scope, "m", sigma);
    SeparatedMeansRejected(strong, weak, scope, ct, sigma);
  }

  lemma PlainRejected(strong: Kind, weak: Kind, scope: ScopeKind, ct: ConditionType)
    requires !ZeroTick(strong) && !ZeroTick(weak) && !IsOnlyScope(scope) && !Table(strong, weak, scope)
    ensures !TimingOrderHolds(strong, weak, scope, ct)
  {
    var u := Position(scope);
    if GlobalTable(strong, weak) {
      EdgeSeparates(strong, weak, scope, ct);
    } else {
      var sigma := FreeSeparates(strong, weak, scope, ct, ResponseWitness(strong, weak, u), StopWitness(strong, weak, u));
      var m, p, s := AtomP(sigma, ScopeAt(scope, "m").mode), Sem(sigma, Atom("r")), Sem(sigma, Atom("s"));
      StrongHolds(strong, weak, u, BoundaryP(scope, m), s, p);
      WeakFails(strong, weak, u, BoundaryP(scope, m), s, p);
    }
  }

  lemma OnlyFreeRejected(strong: Kind, weak: Kind, scope: ScopeKind, ct: ConditionType)
    requires !ZeroTick(strong) && !ZeroTick(weak) && IsOnlyScope(scope) && !Table(strong, weak, scope)
    requires !strong.AfterK? && !weak.AfterK? ==> !GlobalTable(Dual(strong), Dual(weak))
    ensures !TimingOrderHolds(strong, weak, scope, ct)
  {
    hide OnlyBody, Table, GlobalTable, TimingOrderHolds, OnlyResponseWitness, OnlyStopWitness;
    var u := Position(scope);
    var sigma := FreeSeparates(strong, weak, scope, ct, OnlyResponseWitness(strong, weak, u), OnlyStopWitness(strong, weak, u));
    var m, p, s := AtomP(sigma, ScopeAt(scope, "m").mode), Sem(sigma, Atom("r")), Sem(sigma, Atom("s"));
    OnlyRefutes(strong, weak, scope, u, BoundaryP(scope, m), s, p);
  }

  lemma OnlyRejected(strong: Kind, weak: Kind, scope: ScopeKind, ct: ConditionType)
    requires !ZeroTick(strong) && !ZeroTick(weak) && IsOnlyScope(scope) && !Table(strong, weak, scope)
    ensures !TimingOrderHolds(strong, weak, scope, ct)
  {
    hide Table, GlobalTable, TimingOrderHolds;
    if !strong.AfterK? && !weak.AfterK? { OnlyTableOnDuals(strong, weak, scope); }
    if !strong.AfterK? && !weak.AfterK? && GlobalTable(Dual(strong), Dual(weak)) {
      EdgeSeparates(strong, weak, scope, ct);
    } else {
      OnlyFreeRejected(strong, weak, scope, ct);
    }
  }

  /** The table reads a stop only to compare it with the other timing's. */
  lemma TableAtAnyStop(strong: Kind, weak: Kind, scope: ScopeKind, s: Formula)
    requires !ZeroTick(strong) && !ZeroTick(weak)
    ensures TimingImplies(WithStop(strong, s), WithStop(weak, s), scope) == Table(strong, weak, scope)
  {
    hide GlobalTimingImplies;
    GlobalTableAtAnyStop(strong, weak, s);
    GlobalTableAtAnyStop(weak, strong, s);
  }

  lemma GlobalTableAtAnyStop(strong: Kind, weak: Kind, s: Formula)
    ensures GlobalTimingImplies(WithStop(strong, s), WithStop(weak, s)) == GlobalTable(strong, weak)
  {}

  lemma Accepted(strong: Kind, weak: Kind, ct: ConditionType, scope: ScopeKind, sigma: Trace,
                 c: Formula, r: Formula, s: Formula, mode: string)
    requires !ZeroTick(strong) && !ZeroTick(weak) && Table(strong, weak, scope)
    ensures Holds(sigma, RequirementToLtl(RequirementAt(c, r, strong, s, ct, scope, mode)), 0)
        ==> Holds(sigma, RequirementToLtl(RequirementAt(c, r, weak, s, ct, scope, mode)), 0)
  {
    hide Sem;
    var req := RequirementAt(c, r, strong, s, ct, scope, mode);
    TableAtAnyStop(strong, weak, scope, s);
    TimingOrderSound(req, WithStop(weak, s), sigma);
    assert req.(timing := WithStop(weak, s)) == RequirementAt(c, r, weak, s, ct, scope, mode);
  }

  /** The timing order, exactly: for every pair of timings at every tick count, every scope and both
      condition types, the table accepts a pair if and only if the implication always holds. */
  lemma TimingOrderExact(strong: Kind, weak: Kind, scope: ScopeKind, ct: ConditionType)
    requires !ZeroTick(strong) && !ZeroTick(weak)
    ensures Table(strong, weak, scope) <==> TimingOrderHolds(strong, weak, scope, ct)
  {
    if Table(strong, weak, scope) {
      forall sigma: Trace, c: Formula, r: Formula, s: Formula, mode: string
        ensures Holds(sigma, RequirementToLtl(RequirementAt(c, r, strong, s, ct, scope, mode)), 0)
            ==> Holds(sigma, RequirementToLtl(RequirementAt(c, r, weak, s, ct, scope, mode)), 0)
      {
        Accepted(strong, weak, ct, scope, sigma, c, r, s, mode);
      }
    } else if IsOnlyScope(scope) {
      OnlyRejected(strong, weak, scope, ct);
    } else {
      PlainRejected(strong, weak, scope, ct);
    }
  }
}
