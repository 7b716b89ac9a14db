/** What a boundary does to a timing body, and when the negated body is the body's complement. */
module BoundaryDuality {
  import opened Ltl
  import opened Fretish
  import opened Wrappers
  import opened FretishSemantics

  /** A later or weaker boundary only weakens a body, except that of `eventually`, which it frees. */
  lemma BodyBoundMono(kind: Kind, s: Pred, b: Pred, b': Pred, p: Pred)
    requires Entails(b, b')
    ensures !kind.EvK? ==> Entails(Body(kind, s, b, p), Body(kind, s, b', p))
    ensures kind.EvK? ==> Entails(Body(kind, s, b', p), Body(kind, s, b, p))
  {
    var q := NotP(p);
    ReleaseMono(b, b', p, p);
    ReleaseMono(b, b', q, q);
    ReleaseMono(OrP(p, b), OrP(p, b'), NotP(s), NotP(s));
    UntilMono(NotP(b'), NotP(b), p, p);
    if kind.WithinK? { WithinBoundMono(kind.n, b, b', p); }
    if kind.AfterK? { WithinBoundMono(kind.n + 1, b, b', p); }
  }

  lemma WithinBoundMono(n: nat, b: Pred, b': Pred, p: Pred)
    requires Entails(b, b')
    ensures Entails(WithinP(n, b, p), WithinP(n, b', p))
  {
    forall t: nat | SomeBefore(n, b)(t) ensures SomeBefore(n, b')(t) {
      var k: nat :| t <= k < t + n && b(k);
      assert b'(k);
    }
  }

  /** A boundary that never comes is no boundary, in plain and negated form. */
  lemma NeverIsUnbounded(sigma: Trace, timing: Timing, r: Formula, b: Formula)
    requires forall t: nat :: !Holds(sigma, b, t)
    ensures Same(Sem(sigma, TimingBody(timing, r, Some(b))), Sem(sigma, TimingBody(timing, r, None)))
    ensures Same(Sem(sigma, NegatedTimingBody(timing, r, Some(b))), Sem(sigma, NegatedTimingBody(timing, r, None)))
  {
    TimingBodyMeans(sigma, timing, r, Some(b));
    TimingBodyMeans(sigma, timing, r, None);
    NegatedTimingBodyMeans(sigma, timing, r, Some(b));
    NegatedTimingBodyMeans(sigma, timing, r, None);
    forall t: nat ensures !Sem(sigma, b)(t) { assert !Holds(sigma, b, t); }
    NeverBody(KindOf(timing), StopP(sigma, timing), Sem(sigma, b), Sem(sigma, r));
  }

  lemma NeverBody(kind: Kind, s: Pred, b: Pred, p: Pred)
    requires forall t: nat :: !b(t)
    ensures Same(Body(kind, s, b, p), Body(kind, s, ff, p))
    ensures Same(OnlyBody(kind, s, b, p), OnlyBody(kind, s, ff, p))
  {
    BodyBoundMono(kind, s, b, ff, p);
    BodyBoundMono(kind, s, ff, b, p);
    if kind.AfterK? {
      WithinBoundMono(kind.n, b, ff, p);
      WithinBoundMono(kind.n, ff, b, p);
      ReleaseMono(b, ff, NotP(p), NotP(p));
      ReleaseMono(ff, b, NotP(p), NotP(p));
    } else {
      BodyBoundMono(Dual(kind), s, b, ff, NotP(p));
      BodyBoundMono(Dual(kind), s, ff, b, NotP(p));
    }
  }

  /** Zero ticks mean `immediately`, at every boundary, in plain and negated form. */
  lemma ZeroTicksAreImmediate(sigma: Trace, timing: Timing, r: Formula, boundary: Option<Formula>)
    requires IsZeroTickBound(timing)
    ensures Same(Sem(sigma, TimingBody(timing, r, boundary)), Sem(sigma, TimingBody(Immediately, r, boundary)))
    ensures Same(Sem(sigma, NegatedTimingBody(timing, r, boundary)),
                 Sem(sigma, NegatedTimingBody(Immediately, r, boundary)))
  {
    ZeroTicksPlain(sigma, timing, r, boundary);
    ZeroTicksPlain(sigma, DualTiming(timing), Not(r), boundary);
  }

  lemma ZeroTicksPlain(sigma: Trace, timing: Timing, r: Formula, boundary: Option<Formula>)
    requires IsZeroTickBound(timing)
    ensures Same(Sem(sigma, TimingBody(timing, r, boundary)), Sem(sigma, TimingBody(Immediately, r, boundary)))
  {
    hide Sem;
    if timing.WithinTicks? { WithinBodyMeans(sigma, r, 0, boundary); } else { ForBodyMeans(sigma, r, 0, boundary); }
    ZeroTicks(BoundP(sigma, boundary), Sem(sigma, r));
  }

  lemma ZeroTicks(b: Pred, p: Pred)
    ensures Same(WithinP(0, b, p), p) && Same(ForP(0, b, p), p)
  {
    forall t: nat ensures WithinP(0, b, p)(t) <==> p(t) { assert p(t) ==> SomeUpTo(0, p)(t); }
    forall t: nat ensures ForP(0, b, p)(t) <==> p(t) {
      if RP(b, p)(t) { ReleaseNow(b, p, t); }
    }
  }

  /** Where no boundary discharges it, the negated body is the complement, except that under a stop
      both forms hold when neither the response nor the stop ever changes its value: then an `until`
      with the response held for ever and no stop, or a `before` with neither, satisfies both. */
  lemma NegatedIsComplement(sigma: Trace, timing: Timing, r: Formula, t: nat)
    ensures !CarriesStop(timing) ==>
      (Holds(sigma, NegatedTimingBody(timing, r, None), t) <==> !Holds(sigma, TimingBody(timing, r, None), t))
    ensures !Holds(sigma, TimingBody(timing, r, None), t) ==> Holds(sigma, NegatedTimingBody(timing, r, None), t)
    ensures CarriesStop(timing) ==>
      (Holds(sigma, NegatedTimingBody(timing, r, None), t) && Holds(sigma, TimingBody(timing, r, None), t)
       <==> forall j: nat :: t <= j ==> !Holds(sigma, timing.stop, j) && (Holds(sigma, r, j) <==> timing.Until?))
  {
    hide Sem, Body, OnlyBody, TimingBody, NegatedTimingBody;
    TimingBodyMeans(sigma, timing, r, None);
    NegatedTimingBodyMeans(sigma, timing, r, None);
    var p, s := Sem(sigma, r), StopP(sigma, timing);
    if CarriesStop(timing) {
      StopComplement(timing.Until?, s, p, t);
      assert forall j: nat :: (Holds(sigma, timing.stop, j) <==> s(j)) && (Holds(sigma, r, j) <==> p(j));
    } else {
      StopFreeComplement(KindOf(timing), s, p, t);
    }
  }

  lemma StopFreeComplement(kind: Kind, s: Pred, p: Pred, t: nat)
    requires !kind.UntilK? && !kind.BeforeK?
    ensures OnlyBody(kind, s, ff, p)(t) <==> !Body(kind, s, ff, p)(t)
  {
    var q := NotP(p);
    match kind {
      case WithinK(n) => UnboundedFor(n, ff, q, t); UnboundedWithin(n, ff, p, t); NotFle(n, p, t);
      case ForK(n) => UnboundedFor(n, ff, p, t); UnboundedWithin(n, ff, q, t); NotGle(n, p, t);
      case AfterK(n) =>
        UnboundedFor(n + 1, ff, q, t);
        UnboundedWithin(n, ff, p, t);
        UnboundedAfter(n, ff, s, p, t);
        NotAfter(n, p, t);
      case EvK => NotUntil(NotP(ff), p, t); ReleaseFf(q); UntilFf(p);
      case AlwK => ReleaseFf(p); UntilFf(q); NotGlobally(p, t);
      case _ =>
    }
  }

  lemma NotFle(n: nat, p: Pred, t: nat)
    ensures AllUpTo(n, NotP(p))(t) <==> !SomeUpTo(n, p)(t)
  {
    if AllUpTo(n, NotP(p))(t) {
      forall k: nat | t <= k <= t + n ensures !p(k) { assert NotP(p)(k); }
    }
  }

  lemma NotGle(n: nat, p: Pred, t: nat)
    ensures SomeUpTo(n, NotP(p))(t) <==> !AllUpTo(n, p)(t)
  {
    if !AllUpTo(n, p)(t) {
      var k: nat :| t <= k <= t + n && !p(k);
      assert NotP(p)(k);
    }
  }

  lemma NotGlobally(p: Pred, t: nat)
    ensures FP(NotP(p))(t) <==> !GP(p)(t)
  {
    if !GP(p)(t) {
      var k: nat :| t <= k && !p(k);
      assert NotP(p)(k);
    }
  }

  lemma NotUntil(q: Pred, p: Pred, t: nat)
    requires forall u: nat :: q(u)
    ensures GP(NotP(p))(t) <==> !UP(q, p)(t)
  {
    if GP(NotP(p))(t) {
      forall j: nat | t <= j ensures !p(j) { assert NotP(p)(j); }
    }
  }

  lemma NotAfter(n: nat, p: Pred, t: nat)
    ensures SomeUpTo(n, p)(t) || AllUpTo(n + 1, NotP(p))(t)
       <==> !(p(t + n + 1) && forall k: nat :: t <= k < t + n + 1 ==> !p(k))
  {
    NotFle(n + 1, p, t);
    if !SomeUpTo(n, p)(t) {
      assert forall k: nat :: t <= k <= t + n ==> !p(k);
      if SomeUpTo(n + 1, p)(t) {
        var k: nat :| t <= k <= t + n + 1 && p(k);
        assert k == t + n + 1;
      }
    } else {
      var k: nat :| t <= k <= t + n && p(k);
    }
  }

  /** The two stopped timings, which negation turns into each other: where both forms hold. */
  lemma StopComplement(isUntil: bool, s: Pred, p: Pred, t: nat)
    ensures var kind := if isUntil then UntilK else BeforeK;
            && (!Body(kind, s, ff, p)(t) ==> OnlyBody(kind, s, ff, p)(t))
            && (OnlyBody(kind, s, ff, p)(t) && Body(kind, s, ff, p)(t)
                <==> forall j: nat :: t <= j ==> !s(j) && (p(j) <==> isUntil))
  {
    if isUntil {
      UntilComplement(s, p, t);
    } else {
      var q := NotP(p);
      BeforeAsDual(s, p, t);
      UntilComplement(s, q, t);
      assert forall j: nat :: q(j) <==> !p(j);
    }
  }

  lemma UntilPlain(s: Pred, p: Pred, t: nat)
    ensures Body(UntilK, s, ff, p)(t) <==> WP(p, s)(t)
  {
    ReleaseNever(ff, p, t);
  }

  lemma BeforePlain(s: Pred, p: Pred, t: nat)
    ensures Body(BeforeK, s, ff, p)(t) <==> RP(p, NotP(s))(t)
  {
    ReleaseMono(OrP(p, ff), p, NotP(s), NotP(s));
    ReleaseMono(p, OrP(p, ff), NotP(s), NotP(s));
  }

  /** Negating the response twice brings `before` back. */
  lemma BeforeAsDual(s: Pred, p: Pred, t: nat)
    ensures var q := NotP(p);
            && (Body(BeforeK, s, ff, p)(t) <==> OnlyBody(UntilK, s, ff, q)(t))
            && (OnlyBody(BeforeK, s, ff, p)(t) <==> Body(UntilK, s, ff, q)(t))
  {
    hide RP;
    var q := NotP(p);
    BeforePlain(s, p, t);
    BeforePlain(s, NotP(q), t);
    ReleaseMono(p, NotP(q), NotP(s), NotP(s));
    ReleaseMono(NotP(q), p, NotP(s), NotP(s));
  }

  lemma UntilComplement(s: Pred, p: Pred, t: nat)
    ensures !Body(UntilK, s, ff, p)(t) ==> OnlyBody(UntilK, s, ff, p)(t)
    ensures OnlyBody(UntilK, s, ff, p)(t) && Body(UntilK, s, ff, p)(t)
       <==> forall j: nat :: t <= j ==> !s(j) && p(j)
  {
    hide Body, OnlyBody;
    var q, ns := NotP(p), NotP(s);
    UntilPlain(s, p, t);
    UntilNegated(s, p, t);
    if !RP(q, ns)(t) {
      // A stop with the response held up to it.
      var j: nat :| t <= j && !(ns(j) || exists i: nat :: t <= i < j && q(i));
      assert s(j);
      forall i: nat | t <= i < j ensures p(i) { assert !q(i); }
    }
    if RP(q, ns)(t) && WP(p, s)(t) {
      BothHold(s, p, t);
    }
    if forall j: nat :: t <= j ==> !s(j) && p(j) {
      assert forall j: nat :: t <= j ==> ns(j);
    }
  }

  lemma UntilNegated(s: Pred, p: Pred, t: nat)
    ensures OnlyBody(UntilK, s, ff, p)(t) <==> RP(NotP(p), NotP(s))(t)
  {
    BeforePlain(s, NotP(p), t);
  }

  lemma BothHold(s: Pred, p: Pred, t: nat)
    requires RP(NotP(p), NotP(s))(t) && WP(p, s)(t)
    ensures forall j: nat :: t <= j ==> !s(j) && p(j)
  {
    var q, ns := NotP(p), NotP(s);
    forall j: nat | t <= j && forall i: nat :: t <= i < j ==> p(i)
      ensures !s(j)
    {
      assert forall i: nat :: t <= i < j ==> !q(i);
      assert ns(j);
    }
    assert !UP(p, s)(t);
    assert GP(p)(t);
  }
}
