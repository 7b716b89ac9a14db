/** What the lowered formulas mean, as predicates on positions. */
module FretishSemantics {
  import opened Ltl
  import opened Fretish
  import opened Wrappers

  /** A timing with its stop, if any, taken out. */
  datatype Kind = ImmK | NextK | WithinK(n: nat) | ForK(n: nat) | AfterK(n: nat) | EvK | AlwK | UntilK | BeforeK

  function KindOf(timing: Timing): Kind {
    match timing
    case Immediately => ImmK
    case NextTimepoint => NextK
    case WithinTicks(n) => WithinK(n)
    case ForTicks(n) => ForK(n)
    case AfterTicks(n) => AfterK(n)
    case Eventually => EvK
    case Always => AlwK
    case Until(_) => UntilK
    case Before(_) => BeforeK
  }

  function WithStop(kind: Kind, stop: Formula): Timing {
    match kind
    case ImmK => Immediately
    case NextK => NextTimepoint
    case WithinK(n) => WithinTicks(n)
    case ForK(n) => ForTicks(n)
    case AfterK(n) => AfterTicks(n)
    case EvK => Timing.Eventually
    case AlwK => Always
    case UntilK => Timing.Until(stop)
    case BeforeK => Before(stop)
  }

  ghost function StopP(sigma: Trace, timing: Timing): Pred {
    if CarriesStop(timing) then Sem(sigma, timing.stop) else ff
  }

  // -- Bounded operators ------------------------------------------------------------------------

  /** `p` somewhere in the next `n` ticks, counting now as the zeroth */
  ghost function SomeUpTo(n: nat, p: Pred): Pred { (t: nat) => exists k: nat :: t <= k <= t + n && p(k) }

  /** the same with the last of the ticks left out, so that nothing meets a count of none */
  ghost function SomeBefore(n: nat, p: Pred): Pred { (t: nat) => exists k: nat :: t <= k < t + n && p(k) }

  /** `p` now and throughout the next `n` ticks */
  ghost function AllUpTo(n: nat, p: Pred): Pred { (t: nat) => forall k: nat :: t <= k <= t + n ==> p(k) }

  ghost function WithinP(n: nat, b: Pred, p: Pred): Pred { OrP(SomeUpTo(n, p), SomeBefore(n, b)) }
  ghost function ForP(n: nat, b: Pred, p: Pred): Pred { OrP(AllUpTo(n, p), RP(b, p)) }

  /** The obligation a timing places on response `p`, with stop `s`, discharged early at `b`. */
  ghost function Body(kind: Kind, s: Pred, b: Pred, p: Pred): Pred {
    match kind
    case ImmK => p
    case NextK => OrP(b, XP(p))
    case WithinK(n) => WithinP(n, b, p)
    case ForK(n) => ForP(n, b, p)
    case AfterK(n) => AndP(ForP(n, b, NotP(p)), WithinP(n + 1, b, p))
    case EvK => UP(NotP(b), p)
    case AlwK => RP(b, p)
    case UntilK => OrP(WP(p, s), RP(b, p))
    case BeforeK => RP(OrP(p, b), NotP(s))
  }

  function Dual(kind: Kind): Kind {
    match kind
    case WithinK(n) => ForK(n)
    case ForK(n) => WithinK(n)
    case EvK => AlwK
    case AlwK => EvK
    case UntilK => BeforeK
    case BeforeK => UntilK
    case _ => kind
  }

  /** The obligation an only scope places outside its interval. */
  ghost function OnlyBody(kind: Kind, s: Pred, b: Pred, p: Pred): Pred {
    match kind
    case AfterK(n) => OrP(WithinP(n, b, p), ForP(n + 1, b, NotP(p)))
    case _ => Body(Dual(kind), s, b, NotP(p))
  }

  ghost function SomP(m: Pred): Pred { AndP(NotP(m), XP(m)) }
  ghost function EomP(m: Pred): Pred { AndP(m, XP(NotP(m))) }

  predicate HasBoundary(kind: ScopeKind) {
    !kind.Global? && !kind.AfterMode? && !kind.OnlyBefore?
  }

  /** The boundary of a scope over mode `m`, never holding where the scope has none. */
  ghost function BoundaryP(kind: ScopeKind, m: Pred): Pred {
    match kind
    case Global => ff
    case AfterMode => ff
    case OnlyBefore => ff
    case In => EomP(m)
    case OnlyAfter => EomP(m)
    case NotIn => SomP(m)
    case BeforeMode => SomP(m)
    case OnlyIn => SomP(m)
  }

  ghost function ScopedBody(scope: ScopeKind, kind: Kind, s: Pred, m: Pred, p: Pred): Pred {
    if IsOnlyScope(scope) then OnlyBody(kind, s, BoundaryP(scope, m), p)
    else Body(kind, s, BoundaryP(scope, m), p)
  }

  /** The obligation `x` under condition `c`. `isTrue` is the lowering's test for the literal `true`. */
  ghost function Inner(bounded: bool, b: Pred, ct: ConditionType, isTrue: bool, c: Pred, x: Pred): Pred {
    if ct.Continual? then
      if bounded then RP(b, ImpP(c, x)) else GP(ImpP(c, x))
    else if isTrue then ImpP(c, x)
    else if bounded then
      AndP(RP(b, ImpP(AndP(NotP(c), AndP(XP(c), NotP(b))), AndP(XP(x), NotP(b)))), ImpP(c, x))
    else
      AndP(GP(ImpP(AndP(NotP(c), XP(c)), XP(x))), ImpP(c, x))
  }

  /** Each `e` hands over to `x` one position later. */
  ghost function Reentry(e: Pred, x: Pred): Pred { GP(OrP(NotP(e), XP(x))) }

  /** Only the first `e` does, should one come. */
  ghost function FirstEntry(e: Pred, x: Pred): Pred { OrP(UP(NotP(e), AndP(e, XP(x))), GP(NotP(e))) }

  ghost function Wrap(scope: ScopeKind, m: Pred, x: Pred): Pred {
    match scope
    case Global => x
    case OnlyAfter => x
    case In => AndP(Reentry(SomP(m), x), ImpP(m, x))
    case NotIn => AndP(Reentry(EomP(m), x), ImpP(NotP(m), x))
    case OnlyIn => AndP(Reentry(EomP(m), x), ImpP(NotP(m), x))
    case BeforeMode => OrP(x, m)
    case AfterMode => FirstEntry(EomP(m), x)
    case OnlyBefore => AndP(ImpP(NotP(m), FirstEntry(SomP(m), x)), ImpP(m, x))
  }

  /** A whole requirement over condition `c`, response `p`, stop `s` and mode `m`. */
  ghost function Lower(scope: ScopeKind, ct: ConditionType, isTrue: bool, kind: Kind,
                       s: Pred, m: Pred, c: Pred, p: Pred): Pred {
    Wrap(scope, m,
         Inner(HasBoundary(scope), BoundaryP(scope, m), ct, isTrue, c, ScopedBody(scope, kind, s, m, p)))
  }

  // -- Everything is monotone in the body -------------------------------------------------------

  lemma InnerMono(bounded: bool, b: Pred, ct: ConditionType, isTrue: bool, c: Pred, x: Pred, y: Pred)
    requires Entails(x, y)
    ensures Entails(Inner(bounded, b, ct, isTrue, c, x), Inner(bounded, b, ct, isTrue, c, y))
  {
    var edge := AndP(NotP(c), AndP(XP(c), NotP(b)));
    var edgeU := AndP(NotP(c), XP(c));
    ReleaseMono(b, b, ImpP(c, x), ImpP(c, y));
    GloballyMono(ImpP(c, x), ImpP(c, y));
    ReleaseMono(b, b, ImpP(edge, AndP(XP(x), NotP(b))), ImpP(edge, AndP(XP(y), NotP(b))));
    GloballyMono(ImpP(edgeU, XP(x)), ImpP(edgeU, XP(y)));
  }

  lemma FirstEntryMono(e: Pred, x: Pred, y: Pred)
    requires Entails(x, y)
    ensures Entails(FirstEntry(e, x), FirstEntry(e, y))
  {
    UntilMono(NotP(e), NotP(e), AndP(e, XP(x)), AndP(e, XP(y)));
  }

  lemma WrapMono(scope: ScopeKind, m: Pred, x: Pred, y: Pred)
    requires Entails(x, y)
    ensures Entails(Wrap(scope, m, x), Wrap(scope, m, y))
  {
    GloballyMono(OrP(NotP(SomP(m)), XP(x)), OrP(NotP(SomP(m)), XP(y)));
    GloballyMono(OrP(NotP(EomP(m)), XP(x)), OrP(NotP(EomP(m)), XP(y)));
    FirstEntryMono(EomP(m), x, y);
    FirstEntryMono(SomP(m), x, y);
  }

  // -- The lowered formula means `Lower` --------------------------------------------------------

  lemma {:induction false} WithinChainMeans(sigma: Trace, f: Formula, n: nat)
    ensures Same(Sem(sigma, WithinChain(f, n)), SomeUpTo(n, Sem(sigma, f)))
  {
    hide Sem;
    var p := Sem(sigma, f);
    if n > 0 {
      WithinChainMeans(sigma, f, n - 1);
      WithinChainStep(sigma, f, n);
      SomeUpToStep(n, p, Sem(sigma, WithinChain(f, n - 1)));
    }
  }

  lemma WithinChainStep(sigma: Trace, f: Formula, n: nat)
    requires n > 0
    ensures Sem(sigma, WithinChain(f, n)) == OrP(Sem(sigma, f), XP(Sem(sigma, WithinChain(f, n - 1))))
  {}

  lemma SomeUpToStep(n: nat, p: Pred, rest: Pred)
    requires n > 0 && Same(rest, SomeUpTo(n - 1, p))
    ensures Same(OrP(p, XP(rest)), SomeUpTo(n, p))
  {
    forall t: nat ensures OrP(p, XP(rest))(t) <==> SomeUpTo(n, p)(t) {
      assert rest(t + 1) <==> SomeUpTo(n - 1, p)(t + 1);
    }
  }

  lemma AllUpToStep(n: nat, p: Pred, rest: Pred)
    requires n > 0 && Same(rest, AllUpTo(n - 1, p))
    ensures Same(AndP(p, XP(rest)), AllUpTo(n, p))
  {
    forall t: nat ensures AndP(p, XP(rest))(t) <==> AllUpTo(n, p)(t) {
      assert rest(t + 1) <==> AllUpTo(n - 1, p)(t + 1);
      AllUpToSplits(n, p, t);
    }
  }

  lemma AllUpToSplits(n: nat, p: Pred, t: nat)
    requires n > 0
    ensures AllUpTo(n, p)(t) <==> p(t) && AllUpTo(n - 1, p)(t + 1)
  {
    if p(t) && AllUpTo(n - 1, p)(t + 1) {
      forall k: nat | t <= k <= t + n ensures p(k) {}
    }
  }

  lemma {:induction false} ForChainMeans(sigma: Trace, f: Formula, n: nat)
    ensures Same(Sem(sigma, ForChain(f, n)), AllUpTo(n, Sem(sigma, f)))
  {
    hide Sem;
    var p := Sem(sigma, f);
    if n > 0 {
      ForChainMeans(sigma, f, n - 1);
      ForChainStep(sigma, f, n);
      AllUpToStep(n, p, Sem(sigma, ForChain(f, n - 1)));
    }
  }

  lemma ForChainStep(sigma: Trace, f: Formula, n: nat)
    requires n > 0
    ensures Sem(sigma, ForChain(f, n)) == AndP(Sem(sigma, f), XP(Sem(sigma, ForChain(f, n - 1))))
  {}

  lemma {:induction false} AfterChainMeans(sigma: Trace, f: Formula, n: nat, t: nat)
    ensures Holds(sigma, AfterChain(f, n), t)
       <==> Sem(sigma, f)(t + n) && forall k: nat :: t <= k < t + n ==> !Sem(sigma, f)(k)
  {
    hide Sem;
    if n > 0 {
      AfterChainMeans(sigma, f, n - 1, t + 1);
      AfterChainStep(sigma, f, n, t);
      AbsenceSplits(n, Sem(sigma, f), t);
    }
  }

  lemma AbsenceSplits(n: nat, p: Pred, t: nat)
    requires n > 0
    ensures (forall k: nat :: t <= k < t + n ==> !p(k)) <==> !p(t) && forall k: nat :: t + 1 <= k < t + n ==> !p(k)
  {}

  lemma AfterChainStep(sigma: Trace, f: Formula, n: nat, t: nat)
    requires n > 0
    ensures Holds(sigma, AfterChain(f, n), t)
       <==> !Sem(sigma, f)(t) && Holds(sigma, AfterChain(f, n - 1), t + 1)
  {
    assert Sem(sigma, AfterChain(f, n)) == AndP(NotP(Sem(sigma, f)), XP(Sem(sigma, AfterChain(f, n - 1))));
  }

  ghost function BoundP(sigma: Trace, boundary: Option<Formula>): Pred {
    if boundary.Some? then Sem(sigma, boundary.value) else ff
  }

  lemma WithinBodyMeans(sigma: Trace, r: Formula, n: nat, ob: Option<Formula>)
    ensures Same(Sem(sigma, WithinBody(r, n, ob)), WithinP(n, BoundP(sigma, ob), Sem(sigma, r)))
  {
    WithinChainMeans(sigma, r, n);
    var p, b := Sem(sigma, r), BoundP(sigma, ob);
    if ob.Some? && n > 0 {
      WithinChainMeans(sigma, ob.value, n - 1);
      var chain := Sem(sigma, WithinChain(ob.value, n - 1));
      assert Sem(sigma, WithinBody(r, n, ob)) == OrP(Sem(sigma, WithinChain(r, n)), chain);
      forall t: nat ensures chain(t) <==> SomeBefore(n, b)(t) {
        assert chain(t) <==> SomeUpTo(n - 1, b)(t);
      }
    } else {
      forall t: nat ensures !SomeBefore(n, b)(t) {}
    }
  }

  lemma ForBodyMeans(sigma: Trace, r: Formula, n: nat, ob: Option<Formula>)
    ensures Same(Sem(sigma, ForBody(r, n, ob)), ForP(n, BoundP(sigma, ob), Sem(sigma, r)))
  {
    ForChainMeans(sigma, r, n);
    var p := Sem(sigma, r);
    if ob.Some? {
      assert Sem(sigma, ForBody(r, n, ob)) == OrP(Sem(sigma, ForChain(r, n)), RP(Sem(sigma, ob.value), p));
    } else {
      forall t: nat | RP(ff, p)(t) ensures AllUpTo(n, p)(t) {
        ReleaseNever(ff, p, t);
      }
    }
  }

  lemma AfterBodyMeans(sigma: Trace, r: Formula, n: nat, ob: Option<Formula>)
    ensures Same(Sem(sigma, TimingBody(AfterTicks(n), r, ob)),
                 Body(AfterK(n), ff, BoundP(sigma, ob), Sem(sigma, r)))
  {
    hide Sem;
    if ob.Some? { BoundedAfterMeans(sigma, r, n, ob); } else { UnboundedAfterMeans(sigma, r, n); }
  }

  lemma BoundedAfterMeans(sigma: Trace, r: Formula, n: nat, ob: Option<Formula>)
    ensures Same(Sem(sigma, And(ForBody(Not(r), n, ob), WithinBody(r, n + 1, ob))),
                 AndP(ForP(n, BoundP(sigma, ob), NotP(Sem(sigma, r))), WithinP(n + 1, BoundP(sigma, ob), Sem(sigma, r))))
  {
    var f, g := ForBody(Not(r), n, ob), WithinBody(r, n + 1, ob);
    var p, b := Sem(sigma, r), BoundP(sigma, ob);
    ForBodyMeans(sigma, Not(r), n, ob);
    WithinBodyMeans(sigma, r, n + 1, ob);
    NotMeans(sigma, r);
    AndMeansSame(sigma, f, ForP(n, b, NotP(p)), g, WithinP(n + 1, b, p));
  }

  lemma AndMeansSame(sigma: Trace, f: Formula, p: Pred, g: Formula, q: Pred)
    requires Same(Sem(sigma, f), p) && Same(Sem(sigma, g), q)
    ensures Same(Sem(sigma, And(f, g)), AndP(p, q))
  {}

  lemma UnboundedAfterMeans(sigma: Trace, r: Formula, n: nat)
    ensures Same(Sem(sigma, AfterChain(r, n + 1)), Body(AfterK(n), ff, ff, Sem(sigma, r)))
  {
    hide Sem;
    var p := Sem(sigma, r);
    var chain, body := Sem(sigma, AfterChain(r, n + 1)), Body(AfterK(n), ff, ff, p);
    forall t: nat ensures chain(t) <==> body(t) {
      AfterChainMeans(sigma, r, n + 1, t);
      assert chain(t) <==> Holds(sigma, AfterChain(r, n + 1), t);
      UnboundedAfter(n, ff, ff, p, t);
    }
  }

  lemma UnboundedFor(n: nat, b: Pred, p: Pred, t: nat)
    requires forall u: nat :: !b(u)
    ensures ForP(n, b, p)(t) <==> AllUpTo(n, p)(t)
  {
    ReleaseNever(b, p, t);
  }

  lemma UnboundedWithin(n: nat, b: Pred, p: Pred, t: nat)
    requires forall u: nat :: !b(u)
    ensures WithinP(n, b, p)(t) <==> SomeUpTo(n, p)(t)
  {}

  lemma ExactlyAfter(n: nat, p: Pred, t: nat)
    ensures AllUpTo(n, NotP(p))(t) && SomeUpTo(n + 1, p)(t)
       <==> p(t + n + 1) && forall k: nat :: t <= k < t + n + 1 ==> !p(k)
  {
    if AllUpTo(n, NotP(p))(t) && SomeUpTo(n + 1, p)(t) {
      var k: nat :| t <= k <= t + n + 1 && p(k);
      forall i: nat | t <= i <= t + n ensures !p(i) { assert NotP(p)(i); }
      assert k == t + n + 1;
    }
  }

  lemma UnboundedAfter(n: nat, b: Pred, s: Pred, p: Pred, t: nat)
    requires forall u: nat :: !b(u)
    ensures Body(AfterK(n), s, b, p)(t)
       <==> p(t + n + 1) && forall k: nat :: t <= k < t + n + 1 ==> !p(k)
  {
    UnboundedFor(n, b, NotP(p), t);
    UnboundedWithin(n + 1, b, p, t);
    ExactlyAfter(n, p, t);
  }

  lemma ReleaseFf(p: Pred)
    ensures Same(RP(ff, p), GP(p))
  {
    forall t: nat ensures RP(ff, p)(t) <==> GP(p)(t) { ReleaseNever(ff, p, t); }
  }

  lemma UntilBodyMeans(sigma: Trace, r: Formula, stop: Formula, ob: Option<Formula>)
    ensures Same(Sem(sigma, UntilBody(r, stop, ob)),
                 OrP(WP(Sem(sigma, r), Sem(sigma, stop)), RP(BoundP(sigma, ob), Sem(sigma, r))))
  {
    var p, s := Sem(sigma, r), Sem(sigma, stop);
    assert Sem(sigma, WeakUntil(r, stop)) == WP(p, s);
    if ob.Some? {
      ReleaseMeans(sigma, ob.value, r);
      OrMeans(sigma, WeakUntil(r, stop), Release(ob.value, r));
    } else {
      WeakAbsorbs(p, s);
    }
  }

  lemma WeakAbsorbs(p: Pred, s: Pred)
    ensures Same(WP(p, s), OrP(WP(p, s), RP(ff, p)))
  {
    ReleaseFf(p);
  }

  lemma BeforeBodyMeans(sigma: Trace, r: Formula, stop: Formula, ob: Option<Formula>)
    ensures Same(Sem(sigma, BeforeBody(r, stop, ob)),
                 RP(OrP(Sem(sigma, r), BoundP(sigma, ob)), NotP(Sem(sigma, stop))))
  {
    NotMeans(sigma, stop);
    if ob.Some? {
      OrMeans(sigma, r, ob.value);
      ReleaseMeans(sigma, Or(r, ob.value), Not(stop));
    } else {
      ReleaseMeans(sigma, r, Not(stop));
      ReleaseOrFf(Sem(sigma, r), NotP(Sem(sigma, stop)));
    }
  }

  lemma ReleaseOrFf(p: Pred, q: Pred)
    ensures Same(RP(p, q), RP(OrP(p, ff), q))
  {
    ReleaseMono(OrP(p, ff), p, q, q);
    ReleaseMono(p, OrP(p, ff), q, q);
  }

  lemma UntilFf(p: Pred)
    ensures Same(UP(NotP(ff), p), FP(p))
  {
    forall t: nat | FP(p)(t) ensures UP(NotP(ff), p)(t) {
      var j: nat :| t <= j && p(j);
      assert forall i: nat :: t <= i < j ==> NotP(ff)(i);
    }
  }

  lemma NextBodyMeans(sigma: Trace, r: Formula, ob: Option<Formula>)
    ensures Same(Sem(sigma, TimingBody(NextTimepoint, r, ob)), OrP(BoundP(sigma, ob), XP(Sem(sigma, r))))
  {
    NextMeans(sigma, r);
    if ob.Some? { OrMeans(sigma, ob.value, Next(r)); }
  }

  lemma EventuallyBodyMeans(sigma: Trace, r: Formula, ob: Option<Formula>)
    ensures Same(Sem(sigma, TimingBody(Timing.Eventually, r, ob)), UP(NotP(BoundP(sigma, ob)), Sem(sigma, r)))
  {
    if ob.Some? { NotMeans(sigma, ob.value); UntilMeans(sigma, Not(ob.value), r); } else { UntilFf(Sem(sigma, r)); }
  }

  lemma UntilMeans(sigma: Trace, f: Formula, g: Formula)
    ensures Sem(sigma, Formula.Until(f, g)) == UP(Sem(sigma, f), Sem(sigma, g))
  {}

  lemma AlwaysBodyMeans(sigma: Trace, r: Formula, ob: Option<Formula>)
    ensures Same(Sem(sigma, TimingBody(Always, r, ob)), RP(BoundP(sigma, ob), Sem(sigma, r)))
  {
    hide Sem;
    if ob.Some? { ReleaseMeans(sigma, ob.value, r); } else { GloballyIsRelease(sigma, r); }
  }

  lemma GloballyIsRelease(sigma: Trace, r: Formula)
    ensures Same(Sem(sigma, Globally(r)), RP(ff, Sem(sigma, r)))
  {
    GloballyMeans(sigma, r);
    ReleaseFf(Sem(sigma, r));
  }

  lemma GloballyMeans(sigma: Trace, f: Formula)
    ensures Sem(sigma, Globally(f)) == GP(Sem(sigma, f))
  {}

  /** One timing body says what its kind says. */
  ghost predicate BodyMeans(sigma: Trace, timing: Timing, r: Formula, ob: Option<Formula>) {
    Same(Sem(sigma, TimingBody(timing, r, ob)),
         Body(KindOf(timing), StopP(sigma, timing), BoundP(sigma, ob), Sem(sigma, r)))
  }

  lemma TimingBodyMeans(sigma: Trace, timing: Timing, r: Formula, ob: Option<Formula>)
    ensures BodyMeans(sigma, timing, r, ob)
  {
    match timing {
      case Immediately => ImmediateMeans(sigma, r, ob);
      case NextTimepoint => NextKindMeans(sigma, r, ob);
      case WithinTicks(n) => WithinKindMeans(sigma, n, r, ob);
      case ForTicks(n) => ForKindMeans(sigma, n, r, ob);
      case AfterTicks(n) => AfterKindMeans(sigma, n, r, ob);
      case Eventually => EventuallyKindMeans(sigma, r, ob);
      case Always => AlwaysKindMeans(sigma, r, ob);
      case Until(stop) => UntilKindMeans(sigma, stop, r, ob);
      case Before(stop) => BeforeKindMeans(sigma, stop, r, ob);
    }
  }

  lemma ImmediateMeans(sigma: Trace, r: Formula, ob: Option<Formula>)
    ensures BodyMeans(sigma, Immediately, r, ob)
  {}

  lemma NextKindMeans(sigma: Trace, r: Formula, ob: Option<Formula>)
    ensures BodyMeans(sigma, NextTimepoint, r, ob)
  {
    hide Sem;
    NextBodyMeans(sigma, r, ob);
  }

  lemma WithinKindMeans(sigma: Trace, n: nat, r: Formula, ob: Option<Formula>)
    ensures BodyMeans(sigma, WithinTicks(n), r, ob)
  {
    hide Sem;
    WithinBodyMeans(sigma, r, n, ob);
  }

  lemma ForKindMeans(sigma: Trace, n: nat, r: Formula, ob: Option<Formula>)
    ensures BodyMeans(sigma, ForTicks(n), r, ob)
  {
    hide Sem;
    ForBodyMeans(sigma, r, n, ob);
  }

  lemma AfterKindMeans(sigma: Trace, n: nat, r: Formula, ob: Option<Formula>)
    ensures BodyMeans(sigma, AfterTicks(n), r, ob)
  {
    hide Sem;
    AfterBodyMeans(sigma, r, n, ob);
  }

  lemma EventuallyKindMeans(sigma: Trace, r: Formula, ob: Option<Formula>)
    ensures BodyMeans(sigma, Timing.Eventually, r, ob)
  {
    hide Sem;
    EventuallyBodyMeans(sigma, r, ob);
  }

  lemma AlwaysKindMeans(sigma: Trace, r: Formula, ob: Option<Formula>)
    ensures BodyMeans(sigma, Always, r, ob)
  {
    hide Sem;
    AlwaysBodyMeans(sigma, r, ob);
  }

  lemma UntilKindMeans(sigma: Trace, stop: Formula, r: Formula, ob: Option<Formula>)
    ensures BodyMeans(sigma, Timing.Until(stop), r, ob)
  {
    hide Sem;
    UntilBodyMeans(sigma, r, stop, ob);
  }

  lemma BeforeKindMeans(sigma: Trace, stop: Formula, r: Formula, ob: Option<Formula>)
    ensures BodyMeans(sigma, Before(stop), r, ob)
  {
    hide Sem;
    BeforeBodyMeans(sigma, r, stop, ob);
  }

  lemma NegatedTimingBodyMeans(sigma: Trace, timing: Timing, r: Formula, ob: Option<Formula>)
    ensures Same(Sem(sigma, NegatedTimingBody(timing, r, ob)),
                 OnlyBody(KindOf(timing), StopP(sigma, timing), BoundP(sigma, ob), Sem(sigma, r)))
  {
    hide Sem, Body, OnlyBody, TimingBody, NegatedTimingBody, DualTiming, Dual;
    NotMeans(sigma, r);
    if timing.AfterTicks? {
      NegatedAfterMeans(sigma, timing.ticks, r, ob);
    } else {
      DualMeans(sigma, timing);
      DualBodies(sigma, timing, r, ob);
      TimingBodyMeans(sigma, DualTiming(timing), Not(r), ob);
    }
  }

  /** Every timing but `after` is negated by the body of its dual. */
  lemma DualBodies(sigma: Trace, timing: Timing, r: Formula, ob: Option<Formula>)
    requires !timing.AfterTicks?
    ensures NegatedTimingBody(timing, r, ob) == TimingBody(DualTiming(timing), Not(r), ob)
    ensures OnlyBody(KindOf(timing), StopP(sigma, timing), BoundP(sigma, ob), Sem(sigma, r))
         == Body(Dual(KindOf(timing)), StopP(sigma, timing), BoundP(sigma, ob), NotP(Sem(sigma, r)))
  {
    hide Sem, Body, TimingBody;
  }

  lemma TickBodiesAre(n: nat, s: Pred, b: Pred, p: Pred)
    ensures Body(WithinK(n), s, b, p) == WithinP(n, b, p) && Body(ForK(n), s, b, p) == ForP(n, b, p)
    ensures Body(ImmK, s, b, p) == p
  {}

  lemma NextBodyIs(s: Pred, b: Pred, p: Pred)
    ensures Body(NextK, s, b, p) == OrP(b, XP(p))
  {}

  lemma AfterBodyIs(n: nat, s: Pred, b: Pred, p: Pred)
    ensures Body(AfterK(n), s, b, p) == AndP(ForP(n, b, NotP(p)), WithinP(n + 1, b, p))
    ensures OnlyBody(AfterK(n), s, b, p) == OrP(WithinP(n, b, p), ForP(n + 1, b, NotP(p)))
  {}

  lemma NegatedAfterMeans(sigma: Trace, n: nat, r: Formula, ob: Option<Formula>)
    ensures Same(Sem(sigma, NegatedTimingBody(AfterTicks(n), r, ob)),
                 OnlyBody(AfterK(n), ff, BoundP(sigma, ob), Sem(sigma, r)))
  {
    hide Sem;
    var p, b := Sem(sigma, r), BoundP(sigma, ob);
    NotMeans(sigma, r);
    WithinBodyMeans(sigma, r, n, ob);
    ForBodyMeans(sigma, Not(r), n + 1, ob);
    OrMeansSame(sigma, WithinBody(r, n, ob), WithinP(n, b, p), ForBody(Not(r), n + 1, ob), ForP(n + 1, b, NotP(p)));
  }

  lemma OrMeansSame(sigma: Trace, f: Formula, p: Pred, g: Formula, q: Pred)
    requires Same(Sem(sigma, f), p) && Same(Sem(sigma, g), q)
    ensures Same(Sem(sigma, Or(f, g)), OrP(p, q))
  {}

  lemma NotMeans(sigma: Trace, f: Formula)
    ensures Sem(sigma, Not(f)) == NotP(Sem(sigma, f))
  {}

  lemma NextMeans(sigma: Trace, f: Formula)
    ensures Sem(sigma, Next(f)) == XP(Sem(sigma, f))
  {}

  lemma AndMeans(sigma: Trace, f: Formula, g: Formula)
    ensures Sem(sigma, And(f, g)) == AndP(Sem(sigma, f), Sem(sigma, g))
  {}

  lemma OrMeans(sigma: Trace, f: Formula, g: Formula)
    ensures Sem(sigma, Or(f, g)) == OrP(Sem(sigma, f), Sem(sigma, g))
  {}

  lemma DualKind(timing: Timing)
    ensures KindOf(DualTiming(timing)) == Dual(KindOf(timing))
  {}

  lemma DualMeans(sigma: Trace, timing: Timing)
    ensures KindOf(DualTiming(timing)) == Dual(KindOf(timing))
    ensures StopP(sigma, DualTiming(timing)) == StopP(sigma, timing)
  {}

  lemma MarkersMean(sigma: Trace, mode: string)
    ensures Sem(sigma, StartOfMode(mode)) == SomP(AtomP(sigma, mode))
    ensures Sem(sigma, EndOfMode(mode)) == EomP(AtomP(sigma, mode))
  {
    var m := AtomP(sigma, mode);
    assert Sem(sigma, Atom(mode)) == m;
    assert Sem(sigma, Not(Atom(mode))) == NotP(m);
    assert Sem(sigma, Next(Atom(mode))) == XP(m);
    assert Sem(sigma, Next(Not(Atom(mode)))) == XP(NotP(m));
  }

  lemma BoundedTriggerMeans(sigma: Trace, c: Formula, body: Formula, b: Formula)
    ensures Sem(sigma, Release(b, Implies(And(Not(c), And(Next(c), Not(b))), And(Next(body), Not(b)))))
         == RP(Sem(sigma, b),
               ImpP(AndP(NotP(Sem(sigma, c)), AndP(XP(Sem(sigma, c)), NotP(Sem(sigma, b)))),
                    AndP(XP(Sem(sigma, body)), NotP(Sem(sigma, b)))))
  {
    var edge, landing := And(Not(c), And(Next(c), Not(b))), And(Next(body), Not(b));
    EdgeMeans(sigma, c, b);
    LandingMeans(sigma, body, b);
    ImpliesMeans(sigma, edge, landing);
    ReleaseMeans(sigma, b, Implies(edge, landing));
  }

  lemma ReleaseMeans(sigma: Trace, f: Formula, g: Formula)
    ensures Sem(sigma, Release(f, g)) == RP(Sem(sigma, f), Sem(sigma, g))
  {}

  lemma EdgeMeans(sigma: Trace, c: Formula, b: Formula)
    ensures Sem(sigma, And(Not(c), And(Next(c), Not(b))))
         == AndP(NotP(Sem(sigma, c)), AndP(XP(Sem(sigma, c)), NotP(Sem(sigma, b))))
  {
    LandingMeans(sigma, c, b);
    NotMeans(sigma, c);
    AndMeans(sigma, Not(c), And(Next(c), Not(b)));
  }

  lemma LandingMeans(sigma: Trace, f: Formula, b: Formula)
    ensures Sem(sigma, And(Next(f), Not(b))) == AndP(XP(Sem(sigma, f)), NotP(Sem(sigma, b)))
  {
    NextMeans(sigma, f);
    NotMeans(sigma, b);
    AndMeans(sigma, Next(f), Not(b));
  }

  lemma UnboundedTriggerMeans(sigma: Trace, c: Formula, body: Formula)
    ensures Sem(sigma, Globally(Implies(And(Not(c), Next(c)), Next(body))))
         == GP(ImpP(AndP(NotP(Sem(sigma, c)), XP(Sem(sigma, c))), XP(Sem(sigma, body))))
  {
    var cp := Sem(sigma, c);
    assert Sem(sigma, And(Not(c), Next(c))) == AndP(NotP(cp), XP(cp));
    assert Sem(sigma, Next(body)) == XP(Sem(sigma, body));
  }

  lemma ContinualMeans(sigma: Trace, c: Formula, body: Formula, ob: Option<Formula>)
    ensures Sem(sigma, Conditioned(Continual, c, body, ob).AsFormula())
         == Inner(ob.Some?, BoundP(sigma, ob), Continual, c == TRUE, Sem(sigma, c), Sem(sigma, body))
  {
    ImpliesMeans(sigma, c, body);
    if ob.Some? {
      ReleaseMeans(sigma, ob.value, Implies(c, body));
    } else {
      GloballyMeans(sigma, Implies(c, body));
    }
  }

  lemma ImpliesMeans(sigma: Trace, f: Formula, g: Formula)
    ensures Sem(sigma, Implies(f, g)) == ImpP(Sem(sigma, f), Sem(sigma, g))
  {}

  lemma TriggerMeans(sigma: Trace, c: Formula, body: Formula, ob: Option<Formula>)
    ensures Sem(sigma, Conditioned(Trigger, c, body, ob).AsFormula())
         == Inner(ob.Some?, BoundP(sigma, ob), Trigger, c == TRUE, Sem(sigma, c), Sem(sigma, body))
  {
    ImpliesMeans(sigma, c, body);
    if c != TRUE && ob.None? {
      UnboundedTriggerMeans(sigma, c, body);
      AndMeans(sigma, Globally(Implies(And(Not(c), Next(c)), Next(body))), Implies(c, body));
    } else if c != TRUE {
      var b := ob.value;
      BoundedTriggerMeans(sigma, c, body, b);
      AndMeans(sigma, Release(b, Implies(And(Not(c), And(Next(c), Not(b))), And(Next(body), Not(b)))), Implies(c, body));
    }
  }

  lemma ConditionedMeans(sigma: Trace, ct: ConditionType, c: Formula, body: Formula, ob: Option<Formula>)
    ensures Sem(sigma, Conditioned(ct, c, body, ob).AsFormula())
         == Inner(ob.Some?, BoundP(sigma, ob), ct, c == TRUE, Sem(sigma, c), Sem(sigma, body))
  {
    if ct.Continual? { ContinualMeans(sigma, c, body, ob); } else { TriggerMeans(sigma, c, body, ob); }
  }

  lemma ReentryMeans(sigma: Trace, e: Formula, f: Formula)
    ensures Sem(sigma, Globally(Or(Not(e), Next(f)))) == Reentry(Sem(sigma, e), Sem(sigma, f))
  {
    assert Sem(sigma, Or(Not(e), Next(f))) == OrP(NotP(Sem(sigma, e)), XP(Sem(sigma, f)));
  }

  lemma FirstEntryMeans(sigma: Trace, e: Formula, f: Formula)
    ensures Sem(sigma, Or(Formula.Until(Not(e), And(e, Next(f))), Globally(Not(e))))
         == FirstEntry(Sem(sigma, e), Sem(sigma, f))
  {
    var ep, x := Sem(sigma, e), Sem(sigma, f);
    NotMeans(sigma, e);
    NextMeans(sigma, f);
    AndMeans(sigma, e, Next(f));
    assert Sem(sigma, Globally(Not(e))) == GP(NotP(ep));
    assert Sem(sigma, Formula.Until(Not(e), And(e, Next(f)))) == UP(Sem(sigma, Not(e)), Sem(sigma, And(e, Next(f))));
    OrMeans(sigma, Formula.Until(Not(e), And(e, Next(f))), Globally(Not(e)));
  }

  lemma RepeatingWrapMeans(sigma: Trace, scope: Scope, inner: Printed)
    requires scope.kind.In? || scope.kind.NotIn? || scope.kind.OnlyIn?
    ensures Sem(sigma, ScopeWrap(scope, inner))
         == Wrap(scope.kind, AtomP(sigma, scope.mode), Sem(sigma, inner.AsFormula()))
  {
    MarkersMean(sigma, scope.mode);
    var f, mode := inner.AsFormula(), Atom(scope.mode);
    var m := AtomP(sigma, scope.mode);
    var marker := if scope.kind.In? then StartOfMode(scope.mode) else EndOfMode(scope.mode);
    var start := if scope.kind.In? then mode else Not(mode);
    ReentryMeans(sigma, marker, f);
    assert Sem(sigma, mode) == m;
    assert Sem(sigma, start) == if scope.kind.In? then m else NotP(m);
    assert Sem(sigma, Implies(start, f)) == ImpP(Sem(sigma, start), Sem(sigma, f));
    AndMeans(sigma, Globally(Or(Not(marker), Next(f))), Implies(start, f));
  }

  lemma OnlyBeforeWrapMeans(sigma: Trace, mode: string, f: Formula)
    ensures Sem(sigma, ScopeWrap(Scope(OnlyBefore, mode), Closed(f)))
         == Wrap(OnlyBefore, AtomP(sigma, mode), Sem(sigma, f))
  {
    var som, m := StartOfMode(mode), AtomP(sigma, mode);
    var entry := Or(Formula.Until(Not(som), And(som, Next(f))), Globally(Not(som)));
    MarkersMean(sigma, mode);
    FirstEntryMeans(sigma, som, f);
    NotMeans(sigma, Atom(mode));
    assert Sem(sigma, Atom(mode)) == m;
    assert Sem(sigma, Implies(Not(Atom(mode)), entry)) == ImpP(NotP(m), FirstEntry(SomP(m), Sem(sigma, f)));
    assert Sem(sigma, Implies(Atom(mode), f)) == ImpP(m, Sem(sigma, f));
    AndMeans(sigma, Implies(Not(Atom(mode)), entry), Implies(Atom(mode), f));
  }

  lemma BeforeWrapMeans(sigma: Trace, mode: string, inner: Printed)
    ensures Same(Sem(sigma, inner.OrElse(Atom(mode))), OrP(Sem(sigma, inner.AsFormula()), AtomP(sigma, mode)))
  {
    assert Sem(sigma, Atom(mode)) == AtomP(sigma, mode);
    if inner.BareImplies? {
      OrMeans(sigma, inner.right, Atom(mode));
      assert Sem(sigma, Implies(inner.left, Or(inner.right, Atom(mode))))
          == ImpP(Sem(sigma, inner.left), OrP(Sem(sigma, inner.right), AtomP(sigma, mode)));
      assert Sem(sigma, inner.AsFormula()) == ImpP(Sem(sigma, inner.left), Sem(sigma, inner.right));
    } else {
      OrMeans(sigma, inner.AsFormula(), Atom(mode));
    }
  }

  lemma ScopeWrapMeans(sigma: Trace, scope: Scope, inner: Printed)
    ensures Same(Sem(sigma, ScopeWrap(scope, inner)),
                 Wrap(scope.kind, AtomP(sigma, scope.mode), Sem(sigma, inner.AsFormula())))
  {
    match scope.kind {
      case Global =>
      case OnlyAfter =>
      case BeforeMode => BeforeWrapMeans(sigma, scope.mode, inner);
      case AfterMode =>
        MarkersMean(sigma, scope.mode);
        FirstEntryMeans(sigma, EndOfMode(scope.mode), inner.AsFormula());
      case OnlyBefore =>
        OnlyBeforeWrapMeans(sigma, scope.mode, inner.AsFormula());
        assert ScopeWrap(scope, inner) == ScopeWrap(Scope(OnlyBefore, scope.mode), Closed(inner.AsFormula()));
      case _ => RepeatingWrapMeans(sigma, scope, inner);
    }
  }

  /** The meaning of a requirement's fields, put together. */
  ghost function RequirementP(sigma: Trace, req: Requirement): Pred {
    Lower(req.scope.kind, req.conditionType, req.condition == TRUE, KindOf(req.timing),
          StopP(sigma, req.timing), AtomP(sigma, req.scope.mode), Sem(sigma, req.condition),
          Sem(sigma, req.response))
  }

  lemma BoundaryMeans(sigma: Trace, scope: Scope)
    ensures BoundP(sigma, ScopeBoundary(scope)) == BoundaryP(scope.kind, AtomP(sigma, scope.mode))
    ensures ScopeBoundary(scope).Some? == HasBoundary(scope.kind)
  {
    MarkersMean(sigma, scope.mode);
  }

  /** On every trace and at every position, the printed formula says what the fields say. */
  lemma LoweringMeans(sigma: Trace, req: Requirement)
    ensures Same(Sem(sigma, RequirementToLtl(req)), RequirementP(sigma, req))
  {
    var kind := req.scope.kind;
    var ob := ScopeBoundary(req.scope);
    var body := TimedBody(req);
    var m, c := AtomP(sigma, req.scope.mode), Sem(sigma, req.condition);
    var b := BoundaryP(kind, m);
    var x := Sem(sigma, body);
    var y := ScopedBody(kind, KindOf(req.timing), StopP(sigma, req.timing), m, Sem(sigma, req.response));
    BoundaryMeans(sigma, req.scope);
    assert Same(x, y) by {
      if IsOnlyScope(kind) { NegatedTimingBodyMeans(sigma, req.timing, req.response, ob); }
      else { TimingBodyMeans(sigma, req.timing, req.response, ob); }
    }
    var inner := Conditioned(req.conditionType, req.condition, body, ob);
    ConditionedMeans(sigma, req.conditionType, req.condition, body, ob);
    ScopeWrapMeans(sigma, req.scope, inner);
    var isTrue := req.condition == TRUE;
    var ix := Inner(HasBoundary(kind), b, req.conditionType, isTrue, c, x);
    var iy := Inner(HasBoundary(kind), b, req.conditionType, isTrue, c, y);
    InnerMono(HasBoundary(kind), b, req.conditionType, isTrue, c, x, y);
    InnerMono(HasBoundary(kind), b, req.conditionType, isTrue, c, y, x);
    WrapMono(kind, m, ix, iy);
    WrapMono(kind, m, iy, ix);
  }
}
