/** Linear temporal logic over infinite traces: the formulas the lowering prints, and what they mean. */
module Ltl {

  /** The node kinds of `Formula`. The boolean constants are the atoms named "true" and "false". */
  datatype Formula =
    | Atom(name: string)
    | Not(child: Formula)
    | And(left: Formula, right: Formula)
    | Or(left: Formula, right: Formula)
    | Implies(left: Formula, right: Formula)
    | Iff(left: Formula, right: Formula)
    | Next(child: Formula)
    | Eventually(child: Formula)
    | Globally(child: Formula)
    | Until(left: Formula, right: Formula)
    | Release(left: Formula, right: Formula)
    | WeakUntil(left: Formula, right: Formula)

  const TRUE_NAME := "true"
  const FALSE_NAME := "false"
  const TRUE := Atom(TRUE_NAME)

  predicate IsConstantAtom(name: string) {
    name == TRUE_NAME || name == FALSE_NAME
  }

  predicate IsPropositional(f: Formula) {
    match f
    case Atom(_) => true
    case Not(g) => IsPropositional(g)
    case And(g, h) => IsPropositional(g) && IsPropositional(h)
    case Or(g, h) => IsPropositional(g) && IsPropositional(h)
    case Implies(g, h) => IsPropositional(g) && IsPropositional(h)
    case Iff(g, h) => IsPropositional(g) && IsPropositional(h)
    case _ => false
  }

  /** Which atoms hold at which position. */
  type Trace = (nat, string) -> bool

  /** A property of the positions of one trace. */
  type Pred = nat -> bool

  ghost const ff: Pred := (t: nat) => false
  ghost const tt: Pred := (t: nat) => true

  ghost function NotP(p: Pred): Pred { (t: nat) => !p(t) }
  ghost function AndP(p: Pred, q: Pred): Pred { (t: nat) => p(t) && q(t) }
  ghost function OrP(p: Pred, q: Pred): Pred { (t: nat) => p(t) || q(t) }
  ghost function ImpP(p: Pred, q: Pred): Pred { (t: nat) => p(t) ==> q(t) }
  ghost function IffP(p: Pred, q: Pred): Pred { (t: nat) => p(t) <==> q(t) }
  ghost function XP(p: Pred): Pred { (t: nat) => p(t + 1) }
  ghost function FP(p: Pred): Pred { (t: nat) => exists j: nat :: t <= j && p(j) }
  ghost function GP(p: Pred): Pred { (t: nat) => forall j: nat :: t <= j ==> p(j) }

  /** Until: `q` bridges the wait for a `p` that does come. */
  ghost function UP(q: Pred, p: Pred): Pred {
    (t: nat) => exists j: nat :: t <= j && p(j) && forall i: nat :: t <= i < j ==> q(i)
  }

  /** Release: whatever position lacks `p`, a `b` came before it. */
  ghost function RP(b: Pred, p: Pred): Pred {
    (t: nat) => forall j: nat :: t <= j ==> p(j) || exists i: nat :: t <= i < j && b(i)
  }

  ghost function WP(p: Pred, s: Pred): Pred { OrP(UP(p, s), GP(p)) }

  ghost function AtomP(sigma: Trace, name: string): Pred {
    (t: nat) => if name == TRUE_NAME then true else if name == FALSE_NAME then false else sigma(t, name)
  }

  /** The positions of `sigma` at which `f` holds. */
  ghost function Sem(sigma: Trace, f: Formula): Pred {
    match f
    case Atom(name) => AtomP(sigma, name)
    case Not(g) => NotP(Sem(sigma, g))
    case And(g, h) => AndP(Sem(sigma, g), Sem(sigma, h))
    case Or(g, h) => OrP(Sem(sigma, g), Sem(sigma, h))
    case Implies(g, h) => ImpP(Sem(sigma, g), Sem(sigma, h))
    case Iff(g, h) => IffP(Sem(sigma, g), Sem(sigma, h))
    case Next(g) => XP(Sem(sigma, g))
    case Eventually(g) => FP(Sem(sigma, g))
    case Globally(g) => GP(Sem(sigma, g))
    case Until(g, h) => UP(Sem(sigma, g), Sem(sigma, h))
    case Release(g, h) => RP(Sem(sigma, g), Sem(sigma, h))
    case WeakUntil(g, h) => WP(Sem(sigma, g), Sem(sigma, h))
  }

  ghost predicate Holds(sigma: Trace, f: Formula, t: nat) {
    Sem(sigma, f)(t)
  }

  /** No position has `p` without `q`. */
  ghost predicate Entails(p: Pred, q: Pred) {
    forall t: nat :: p(t) ==> q(t)
  }

  ghost predicate Same(p: Pred, q: Pred) {
    forall t: nat :: p(t) <==> q(t)
  }

  // -- The operators respect entailment ---------------------------------------------------------

  lemma ReleaseMono(b: Pred, c: Pred, p: Pred, q: Pred)
    requires Entails(b, c) && Entails(p, q)
    ensures Entails(RP(b, p), RP(c, q))
  {
    forall t: nat | RP(b, p)(t) ensures RP(c, q)(t) {
      forall j: nat | t <= j ensures q(j) || exists i: nat :: t <= i < j && c(i) {
        if !p(j) {
          var i: nat :| t <= i < j && b(i);
          assert c(i);
        }
      }
    }
  }

  lemma UntilMono(b: Pred, c: Pred, p: Pred, q: Pred)
    requires Entails(b, c) && Entails(p, q)
    ensures Entails(UP(b, p), UP(c, q))
  {
    forall t: nat | UP(b, p)(t) ensures UP(c, q)(t) {
      var j: nat :| t <= j && p(j) && forall i: nat :: t <= i < j ==> b(i);
      assert q(j);
    }
  }

  lemma GloballyMono(p: Pred, q: Pred)
    requires Entails(p, q)
    ensures Entails(GP(p), GP(q))
  {}

  lemma ReleaseNow(b: Pred, p: Pred, t: nat)
    requires RP(b, p)(t)
    ensures p(t)
    ensures b(t) || p(t + 1)
  {
    assert p(t) || exists i: nat :: t <= i < t && b(i);
    assert p(t + 1) || exists i: nat :: t <= i < t + 1 && b(i);
  }

  /** A release that nothing ends is for ever. */
  lemma ReleaseNever(b: Pred, p: Pred, t: nat)
    requires forall u: nat :: t <= u ==> !b(u)
    ensures RP(b, p)(t) <==> GP(p)(t)
  {
    if RP(b, p)(t) {
      forall j: nat | t <= j ensures p(j) {
        assert p(j) || exists i: nat :: t <= i < j && b(i);
      }
    }
  }

  /** The first position from `t` at which `p` holds. */
  lemma First(p: Pred, t: nat, u: nat) returns (j: nat)
    requires t <= u && p(u)
    ensures t <= j <= u && p(j) && forall i: nat :: t <= i < j ==> !p(i)
  {
    j := t;
    while !p(j)
      invariant t <= j <= u && forall i: nat :: t <= i < j ==> !p(i)
      decreases u - j
    {
      j := j + 1;
    }
  }
}
