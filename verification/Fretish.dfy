/** FRETISH requirements, their lowering to LTL, and the implication tables over their fields. */
module Fretish {
  import opened Ltl
  import opened Wrappers

  datatype Timing =
    | Immediately
    | NextTimepoint
    | WithinTicks(ticks: nat)
    | ForTicks(ticks: nat)
    | AfterTicks(ticks: nat)
    | Eventually
    | Always
    | Until(stop: Formula)
    | Before(stop: Formula)

  datatype ConditionType = Trigger | Continual

  datatype ScopeKind = Global | In | NotIn | BeforeMode | AfterMode | OnlyIn | OnlyBefore | OnlyAfter

  /** `mode` is empty exactly when the kind is `Global`. */
  datatype Scope = Scope(kind: ScopeKind, mode: string)

  datatype Requirement = Requirement(
    condition: Formula, response: Formula, timing: Timing, conditionType: ConditionType, scope: Scope)

  predicate IsOnlyScope(kind: ScopeKind) {
    kind.OnlyIn? || kind.OnlyBefore? || kind.OnlyAfter?
  }

  predicate CarriesStop(timing: Timing) {
    timing.Until? || timing.Before?
  }

  predicate IsZeroTickBound(timing: Timing) {
    (timing.WithinTicks? || timing.ForTicks?) && timing.ticks == 0
  }

  // -- X-chains ---------------------------------------------------------------------------------

  function WithinChain(response: Formula, ticks: nat): Formula {
    if ticks == 0 then response else Or(response, Next(WithinChain(response, ticks - 1)))
  }

  function ForChain(response: Formula, ticks: nat): Formula {
    if ticks == 0 then response else And(response, Next(ForChain(response, ticks - 1)))
  }

  /** `count` leading `!response`, then `response`. */
  function AfterChain(response: Formula, count: nat): Formula {
    if count == 0 then response else And(Not(response), Next(AfterChain(response, count - 1)))
  }

  method ExpandWithin(response: Formula, ticks: nat) returns (inner: Formula)
    ensures inner == WithinChain(response, ticks)
  {
    inner := response;
    for i := 0 to ticks
      invariant inner == WithinChain(response, i)
    {
      inner := Or(response, Next(inner));
    }
  }

  method ExpandFor(response: Formula, ticks: nat) returns (inner: Formula)
    ensures inner == ForChain(response, ticks)
  {
    inner := response;
    for i := 0 to ticks
      invariant inner == ForChain(response, i)
    {
      inner := And(response, Next(inner));
    }
  }

  /** One nesting more than `ticks`: the response is absent at positions 0 to `ticks`. */
  method ExpandAfter(response: Formula, ticks: nat) returns (inner: Formula)
    ensures inner == AfterChain(response, ticks + 1)
  {
    var notResponse := Not(response);
    inner := response;
    var i := 0;
    while i <= ticks
      invariant 0 <= i <= ticks + 1 && inner == AfterChain(response, i)
    {
      inner := And(notResponse, Next(inner));
      i := i + 1;
    }
  }

  // -- Scope markers ----------------------------------------------------------------------------

  function StartOfMode(mode: string): Formula {
    And(Not(Atom(mode)), Next(Atom(mode)))
  }

  function EndOfMode(mode: string): Formula {
    And(Atom(mode), Next(Not(Atom(mode))))
  }

  // -- Timing bodies ----------------------------------------------------------------------------

  function WithinBody(response: Formula, ticks: nat, boundary: Option<Formula>): Formula {
    var base := WithinChain(response, ticks);
    if boundary.None? || ticks == 0 then base else Or(base, WithinChain(boundary.value, ticks - 1))
  }

  function ForBody(response: Formula, ticks: nat, boundary: Option<Formula>): Formula {
    var base := ForChain(response, ticks);
    if boundary.None? then base else Or(base, Release(boundary.value, response))
  }

  function UntilBody(response: Formula, stop: Formula, boundary: Option<Formula>): Formula {
    var weakUntil := WeakUntil(response, stop);
    if boundary.None? then weakUntil else Or(weakUntil, Release(boundary.value, response))
  }

  function BeforeBody(response: Formula, stop: Formula, boundary: Option<Formula>): Formula {
    if boundary.None? then Release(response, Not(stop)) else Release(Or(response, boundary.value), Not(stop))
  }

  function TimingBody(timing: Timing, response: Formula, boundary: Option<Formula>): Formula {
    match timing
    case Immediately => response
    case NextTimepoint => if boundary.Some? then Or(boundary.value, Next(response)) else Next(response)
    case WithinTicks(n) => WithinBody(response, n, boundary)
    case ForTicks(n) => ForBody(response, n, boundary)
    case AfterTicks(n) =>
      if boundary.None? then AfterChain(response, n + 1)
      else And(ForBody(Not(response), n, boundary), WithinBody(response, n + 1, boundary))
    case Eventually =>
      if boundary.Some? then Formula.Until(Not(boundary.value), response) else Formula.Eventually(response)
    case Always => if boundary.Some? then Release(boundary.value, response) else Globally(response)
    case Until(stop) => UntilBody(response, stop, boundary)
    case Before(stop) => BeforeBody(response, stop, boundary)
  }

  /** The timing FRET pairs with `timing` under negation; `AfterTicks` is left to the caller. */
  function DualTiming(timing: Timing): Timing {
    match timing
    case WithinTicks(n) => ForTicks(n)
    case ForTicks(n) => WithinTicks(n)
    case Eventually => Always
    case Always => Timing.Eventually
    case Until(stop) => Before(stop)
    case Before(stop) => Timing.Until(stop)
    case _ => timing
  }

  function NegatedTimingBody(timing: Timing, response: Formula, boundary: Option<Formula>): Formula {
    if timing.AfterTicks? then
      Or(WithinBody(response, timing.ticks, boundary), ForBody(Not(response), timing.ticks + 1, boundary))
    else
      TimingBody(DualTiming(timing), Not(response), boundary)
  }

  function ScopeBoundary(scope: Scope): Option<Formula> {
    match scope.kind
    case Global => None
    case AfterMode => None
    case OnlyBefore => None
    case In => Some(EndOfMode(scope.mode))
    case OnlyAfter => Some(EndOfMode(scope.mode))
    case NotIn => Some(StartOfMode(scope.mode))
    case BeforeMode => Some(StartOfMode(scope.mode))
    case OnlyIn => Some(StartOfMode(scope.mode))
  }

  // -- The conditioned obligation and its placement ---------------------------------------------

  /** An obligation as it is printed. The lowering leaves two shapes without outer parentheses, so
      what a longer string containing them denotes depends on operator precedence. */
  datatype Printed =
    | Closed(formula: Formula)
    | BareImplies(left: Formula, right: Formula)
    | BareAnd(left: Formula, right: Formula)
  {
    /** Read on its own, in parentheses, or to the right of an implication. */
    function AsFormula(): Formula {
      match this
      case Closed(f) => f
      case BareImplies(l, r) => Implies(l, r)
      case BareAnd(l, r) => And(l, r)
    }

    /** Read to the left of `| other`, which binds tighter than an implication and looser than `&`. */
    function OrElse(other: Formula): Formula {
      match this
      case BareImplies(l, r) => Implies(l, Or(r, other))
      case _ => Or(AsFormula(), other)
    }
  }

  function ScopeWrap(scope: Scope, inner: Printed): Formula {
    var mode := Atom(scope.mode);
    var som := StartOfMode(scope.mode);
    var eom := EndOfMode(scope.mode);
    var obligation := inner.AsFormula();
    match scope.kind
    case Global => obligation
    case OnlyAfter => obligation
    case In => And(Globally(Or(Not(som), Next(obligation))), Implies(mode, obligation))
    case NotIn => And(Globally(Or(Not(eom), Next(obligation))), Implies(Not(mode), obligation))
    case OnlyIn => And(Globally(Or(Not(eom), Next(obligation))), Implies(Not(mode), obligation))
    case BeforeMode => inner.OrElse(mode)
    case AfterMode => Or(Formula.Until(Not(eom), And(eom, Next(obligation))), Globally(Not(eom)))
    case OnlyBefore =>
      And(Implies(Not(mode), Or(Formula.Until(Not(som), And(som, Next(obligation))), Globally(Not(som)))),
          Implies(mode, obligation))
  }

  function TimedBody(req: Requirement): Formula {
    var boundary := ScopeBoundary(req.scope);
    if IsOnlyScope(req.scope.kind) then NegatedTimingBody(req.timing, req.response, boundary)
    else TimingBody(req.timing, req.response, boundary)
  }

  function Conditioned(conditionType: ConditionType, condition: Formula, body: Formula,
                       boundary: Option<Formula>): Printed {
    if conditionType.Continual? then
      var obligation := Implies(condition, body);
      Closed(if boundary.Some? then Release(boundary.value, obligation) else Globally(obligation))
    else if condition == TRUE then
      BareImplies(condition, body)
    else if boundary.None? then
      BareAnd(Globally(Implies(And(Not(condition), Next(condition)), Next(body))), Implies(condition, body))
    else
      var b := boundary.value;
      Closed(And(Release(b, Implies(And(Not(condition), And(Next(condition), Not(b))),
                                    And(Next(body), Not(b)))),
                 Implies(condition, body)))
  }

  function RequirementToLtl(req: Requirement): Formula {
    ScopeWrap(req.scope,
              Conditioned(req.conditionType, req.condition, TimedBody(req), ScopeBoundary(req.scope)))
  }

  // -- The timing order -------------------------------------------------------------------------

  predicate GlobalTimingImplies(upper: Timing, lower: Timing) {
    if upper == lower then true
    else if upper.Always? then !lower.AfterTicks? && !lower.Before?
    else if lower.Eventually? then !CarriesStop(upper)
    else
      match upper
      case ForTicks(n) =>
        if lower.ForTicks? then n > lower.ticks
        else lower.Immediately? || lower.NextTimepoint? || lower.WithinTicks?
      case Immediately => lower.WithinTicks?
      case NextTimepoint => lower.WithinTicks?
      case WithinTicks(n) => lower.WithinTicks? && lower.ticks > n
      case AfterTicks(n) =>
        if lower.WithinTicks? then lower.ticks > n
        else lower.NextTimepoint? && n == 0
      case _ => false
  }

  predicate TimingImplies(stronger: Timing, weaker: Timing, scope: ScopeKind)
    requires !IsZeroTickBound(stronger) && !IsZeroTickBound(weaker)
  {
    match scope
    case Global => GlobalTimingImplies(stronger, weaker)
    case AfterMode => GlobalTimingImplies(stronger, weaker)
    case In => BoundedTimingImplies(stronger, weaker)
    case NotIn => BoundedTimingImplies(stronger, weaker)
    case BeforeMode => BoundedTimingImplies(stronger, weaker)
    case _ =>
      if stronger.Eventually? && weaker.Before? then true
      else if weaker.Always? && stronger.Until? then false
      else if weaker.Always? && !scope.OnlyBefore? && (stronger.ForTicks? || stronger.NextTimepoint?) then false
      else GlobalTimingImplies(weaker, stronger)
  }

  predicate BoundedTimingImplies(stronger: Timing, weaker: Timing) {
    var dischargedAtBoundary := stronger.NextTimepoint? || stronger.WithinTicks? || stronger.AfterTicks?;
    if dischargedAtBoundary && weaker.Eventually? then false else GlobalTimingImplies(stronger, weaker)
  }

  // -- The scope order --------------------------------------------------------------------------

  datatype ScopeEdge = ScopeEdge(stronger: ScopeKind, weaker: ScopeKind)

  function ScopeEdges(timing: Timing, conditionType: ConditionType): seq<ScopeEdge> {
    var notinBefore := ScopeEdge(NotIn, BeforeMode);
    var fromGlobal := [ScopeEdge(Global, In), ScopeEdge(Global, NotIn), ScopeEdge(Global, BeforeMode),
                       ScopeEdge(Global, AfterMode), notinBefore];
    if timing.Eventually? then
      if conditionType.Continual? then [ScopeEdge(Global, AfterMode), notinBefore] else [notinBefore]
    else if conditionType.Continual? || timing.Always? then fromGlobal
    else [ScopeEdge(Global, BeforeMode), notinBefore]
  }

  predicate ScopeImplies(stronger: Scope, weaker: Scope, timing: Timing, conditionType: ConditionType) {
    if stronger == weaker then true
    else if !stronger.kind.Global? && stronger.mode != weaker.mode then false
    else ScopeEdge(stronger.kind, weaker.kind) in ScopeEdges(timing, conditionType)
  }

  // -- The condition-type order -----------------------------------------------------------------

  /** Whether a requirement implies the same requirement under the other condition type. */
  predicate ConditionTypeStep(from: ConditionType, timing: Timing, scope: ScopeKind) {
    if from.Continual? then true
    else if IsOnlyScope(scope) then timing.Eventually? else timing.Always?
  }
}
