/** Implication between whole requirements, found as a chain of requirements that differ in one field
    at a time. */
module RuleSearches {
  import opened Ltl
  import opened Fretish
  import opened FretishSemantics
  import opened ConditionOrder
  import opened ScopeOrder
  import opened TimingOrder
  import opened Wrappers

  /** Every trace that satisfies `stronger` at a position satisfies `weaker` there. */
  ghost predicate Implied(stronger: Requirement, weaker: Requirement) {
    forall sigma: Trace :: Entails(Sem(sigma, RequirementToLtl(stronger)), Sem(sigma, RequirementToLtl(weaker)))
  }

  /** Whether one propositional formula implies another, as far as can be told. */
  type Oracle = (Formula, Formula) -> bool

  ghost predicate SoundOracle(implies: Oracle) {
    forall f: Formula, g: Formula, sigma: Trace :: implies(f, g) ==> Entails(Sem(sigma, f), Sem(sigma, g))
  }

  datatype Field = ConditionField | ResponseField | TimingField | ConditionTypeField | ScopeField

  const FIELDS := [ConditionField, ResponseField, TimingField, ConditionTypeField, ScopeField]
  const ALL_MOVED := {ConditionField, ResponseField, TimingField, ConditionTypeField, ScopeField}

  /** `from` with some fields moved to the values they have in `dest`. */
  function Moved(from: Requirement, dest: Requirement, moved: set<Field>): Requirement {
    Requirement(
      if ConditionField in moved then dest.condition else from.condition,
      if ResponseField in moved then dest.response else from.response,
      if TimingField in moved then dest.timing else from.timing,
      if ConditionTypeField in moved then dest.conditionType else from.conditionType,
      if ScopeField in moved then dest.scope else from.scope)
  }

  predicate StopOnly(from: Timing, dest: Timing) {
    (from.Until? && dest.Until?) || (from.Before? && dest.Before?)
  }

  predicate Equivalent(implies: Oracle, f: Formula, g: Formula) {
    implies(f, g) && implies(g, f)
  }

  predicate TimingStep(implies: Oracle, from: Timing, dest: Timing, scope: ScopeKind)
    requires !IsZeroTickBound(from) && !IsZeroTickBound(dest)
  {
    if !StopOnly(from, dest) then TimingImplies(from, dest, scope)
    else if from.Before? != IsOnlyScope(scope) then implies(dest.stop, from.stop)
    else implies(from.stop, dest.stop)
  }

  predicate Comparable(from: Requirement, dest: Requirement) {
    !IsZeroTickBound(from.timing) && !IsZeroTickBound(dest.timing)
  }

  /** Whether the requirement with `moved` moved implies itself with `field` moved too, by rule. */
  predicate RuleAllows(implies: Oracle, from: Requirement, dest: Requirement, moved: set<Field>, field: Field)
    requires Comparable(from, dest)
  {
    var at := Moved(from, dest, moved);
    match field
    case ConditionField =>
      if at.conditionType.Continual? then implies(dest.condition, from.condition)
      else Equivalent(implies, from.condition, dest.condition)
    case ResponseField =>
      if at.timing.AfterTicks? then Equivalent(implies, from.response, dest.response)
      else if IsOnlyScope(at.scope.kind) then implies(dest.response, from.response)
      else implies(from.response, dest.response)
    case TimingField => TimingStep(implies, from.timing, dest.timing, at.scope.kind)
    case ConditionTypeField => ConditionTypeStep(from.conditionType, at.timing, at.scope.kind)
    case ScopeField => ScopeImplies(from.scope, dest.scope, at.timing, at.conditionType)
  }

  // -- Every step is an implication -------------------------------------------------------------

  lemma BodyMono(kind: Kind, s: Pred, b: Pred, p: Pred, q: Pred)
    requires Entails(p, q) && !kind.AfterK?
    ensures Entails(Body(kind, s, b, p), Body(kind, s, b, q))
  {
    ReleaseMono(b, b, p, q);
    ReleaseMono(OrP(p, b), OrP(q, b), NotP(s), NotP(s));
    UntilMono(NotP(b), NotP(b), p, q);
    UntilMono(p, q, s, s);
    GloballyMono(p, q);
    if kind.WithinK? { WithinMono(kind.n, b, p, q); }
    if kind.ForK? { ForMono(kind.n, b, p, q); }
  }

  lemma WithinMono(n: nat, b: Pred, p: Pred, q: Pred)
    requires Entails(p, q)
    ensures Entails(WithinP(n, b, p), WithinP(n, b, q))
  {
    forall t: nat | SomeUpTo(n, p)(t) ensures SomeUpTo(n, q)(t) {
      var k: nat :| t <= k <= t + n && p(k);
      assert q(k);
    }
  }

  lemma ForMono(n: nat, b: Pred, p: Pred, q: Pred)
    requires Entails(p, q)
    ensures Entails(ForP(n, b, p), ForP(n, b, q))
  {
    ReleaseMono(b, b, p, q);
  }

  lemma AfterSame(n: nat, s: Pred, b: Pred, p: Pred, q: Pred)
    requires Same(p, q)
    ensures Entails(Body(AfterK(n), s, b, p), Body(AfterK(n), s, b, q))
  {
    ForMono(n, b, NotP(p), NotP(q));
    WithinMono(n + 1, b, p, q);
  }

  lemma OnlyAfterSame(n: nat, s: Pred, b: Pred, p: Pred, q: Pred)
    requires Same(p, q)
    ensures Entails(OnlyBody(AfterK(n), s, b, p), OnlyBody(AfterK(n), s, b, q))
  {
    ForMono(n + 1, b, NotP(p), NotP(q));
    WithinMono(n, b, p, q);
  }

  /** The polarity of the response: positive, negative under an only scope, both under `after`. */
  lemma ResponseMono(scope: ScopeKind, kind: Kind, s: Pred, m: Pred, p: Pred, q: Pred)
    requires if kind.AfterK? then Same(p, q) else if IsOnlyScope(scope) then Entails(q, p) else Entails(p, q)
    ensures Entails(ScopedBody(scope, kind, s, m, p), ScopedBody(scope, kind, s, m, q))
  {
    var b := BoundaryP(scope, m);
    if kind.AfterK? && IsOnlyScope(scope) { OnlyAfterSame(kind.n, s, b, p, q); }
    else if kind.AfterK? { AfterSame(kind.n, s, b, p, q); }
    else if IsOnlyScope(scope) { BodyMono(Dual(kind), s, b, NotP(p), NotP(q)); }
    else { BodyMono(kind, s, b, p, q); }
  }

  lemma StopMono(kind: Kind, s: Pred, s': Pred, b: Pred, p: Pred)
    requires kind.UntilK? || kind.BeforeK?
    requires if kind.UntilK? then Entails(s, s') else Entails(s', s)
    ensures Entails(Body(kind, s, b, p), Body(kind, s', b, p))
  {
    if kind.UntilK? { UntilMono(p, p, s, s'); }
    else { ReleaseMono(OrP(p, b), OrP(p, b), NotP(s), NotP(s')); }
  }

  /** A weaker stop weakens `until` and strengthens `before`, and the reverse in an only scope. */
  lemma ScopedStopMono(scope: ScopeKind, kind: Kind, s: Pred, s': Pred, m: Pred, p: Pred)
    requires kind.UntilK? || kind.BeforeK?
    requires if kind.BeforeK? <==> !IsOnlyScope(scope) then Entails(s', s) else Entails(s, s')
    ensures Entails(ScopedBody(scope, kind, s, m, p), ScopedBody(scope, kind, s', m, p))
  {
    var b := BoundaryP(scope, m);
    if IsOnlyScope(scope) { StopMono(Dual(kind), s, s', b, NotP(p)); } else { StopMono(kind, s, s', b, p); }
  }

  /** A condition is an antecedent under continual, and at both polarities in a trigger's rising edge.
      Whether it is written `true` makes no difference. */
  lemma ConditionMono(bounded: bool, b: Pred, ct: ConditionType, isTrue: bool, isTrue': bool, c: Pred, c': Pred, x: Pred)
    requires Entails(c', c) && (ct.Trigger? ==> Entails(c, c'))
    requires (isTrue ==> Same(c, tt)) && (isTrue' ==> Same(c', tt))
    ensures Entails(Inner(bounded, b, ct, isTrue, c, x), Inner(bounded, b, ct, isTrue', c', x))
  {
    if ct.Continual? {
      ReleaseMono(b, b, ImpP(c, x), ImpP(c', x));
      GloballyMono(ImpP(c, x), ImpP(c', x));
    } else {
      TriggerSame(bounded, b, isTrue, isTrue', c, c', x);
    }
  }

  lemma TriggerSame(bounded: bool, b: Pred, isTrue: bool, isTrue': bool, c: Pred, c': Pred, x: Pred)
    requires Same(c, c') && (isTrue ==> Same(c, tt)) && (isTrue' ==> Same(c', tt))
    ensures Entails(Inner(bounded, b, Trigger, isTrue, c, x), Inner(bounded, b, Trigger, isTrue', c', x))
  {
    var edge, edge' := AndP(NotP(c), AndP(XP(c), NotP(b))), AndP(NotP(c'), AndP(XP(c'), NotP(b)));
    var landing := AndP(XP(x), NotP(b));
    if isTrue {
      assert forall t: nat :: !edge'(t) && !AndP(NotP(c'), XP(c'))(t);
      assert forall t: nat :: ImpP(edge', landing)(t) && ImpP(AndP(NotP(c'), XP(c')), XP(x))(t);
    } else if !isTrue' {
      ReleaseMono(b, b, ImpP(edge, landing), ImpP(edge', landing));
      GloballyMono(ImpP(AndP(NotP(c), XP(c)), XP(x)), ImpP(AndP(NotP(c'), XP(c')), XP(x)));
    }
  }

  /** Requirements whose meanings imply each other field by field. */
  lemma ImpliedByFields(a: Requirement, b: Requirement)
    requires forall sigma: Trace :: Entails(RequirementP(sigma, a), RequirementP(sigma, b))
    ensures Implied(a, b)
  {
    forall sigma: Trace ensures Entails(Sem(sigma, RequirementToLtl(a)), Sem(sigma, RequirementToLtl(b))) {
      LoweringMeans(sigma, a);
      LoweringMeans(sigma, b);
      Chain(Sem(sigma, RequirementToLtl(a)), RequirementP(sigma, a), RequirementP(sigma, b), Sem(sigma, RequirementToLtl(b)));
    }
  }

  lemma ConditionStepImplies(implies: Oracle, a: Requirement, c: Formula)
    requires SoundOracle(implies) && implies(c, a.condition) && (a.conditionType.Trigger? ==> implies(a.condition, c))
    ensures Implied(a, a.(condition := c))
  {
    forall sigma: Trace ensures Entails(RequirementP(sigma, a), RequirementP(sigma, a.(condition := c))) {
      var kind, m := a.scope.kind, AtomP(sigma, a.scope.mode);
      var b := BoundaryP(kind, m);
      var x := ScopedBody(kind, KindOf(a.timing), StopP(sigma, a.timing), m, Sem(sigma, a.response));
      var p, q := Sem(sigma, a.condition), Sem(sigma, c);
      ConditionMono(HasBoundary(kind), b, a.conditionType, a.condition == TRUE, c == TRUE, p, q, x);
      WrapMono(kind, m, Inner(HasBoundary(kind), b, a.conditionType, a.condition == TRUE, p, x),
               Inner(HasBoundary(kind), b, a.conditionType, c == TRUE, q, x));
    }
    ImpliedByFields(a, a.(condition := c));
  }

  lemma ResponseStepImplies(implies: Oracle, a: Requirement, r: Formula)
    requires SoundOracle(implies)
    requires if a.timing.AfterTicks? then Equivalent(implies, a.response, r)
             else if IsOnlyScope(a.scope.kind) then implies(r, a.response) else implies(a.response, r)
    ensures Implied(a, a.(response := r))
  {
    forall sigma: Trace ensures Entails(RequirementP(sigma, a), RequirementP(sigma, a.(response := r))) {
      var kind, m, s := a.scope.kind, AtomP(sigma, a.scope.mode), StopP(sigma, a.timing);
      var p, q := Sem(sigma, a.response), Sem(sigma, r);
      ResponseMono(kind, KindOf(a.timing), s, m, p, q);
      BodiesGiveLowered(kind, a.conditionType, a.condition == TRUE, m, Sem(sigma, a.condition),
                        ScopedBody(kind, KindOf(a.timing), s, m, p), ScopedBody(kind, KindOf(a.timing), s, m, q));
    }
    ImpliedByFields(a, a.(response := r));
  }

  lemma BodiesGiveLowered(scope: ScopeKind, ct: ConditionType, isTrue: bool, m: Pred, c: Pred, x: Pred, y: Pred)
    requires Entails(x, y)
    ensures Entails(Wrap(scope, m, Inner(HasBoundary(scope), BoundaryP(scope, m), ct, isTrue, c, x)),
                    Wrap(scope, m, Inner(HasBoundary(scope), BoundaryP(scope, m), ct, isTrue, c, y)))
  {
    var b := BoundaryP(scope, m);
    InnerMono(HasBoundary(scope), b, ct, isTrue, c, x, y);
    WrapMono(scope, m, Inner(HasBoundary(scope), b, ct, isTrue, c, x), Inner(HasBoundary(scope), b, ct, isTrue, c, y));
  }

  lemma StopStepImplies(implies: Oracle, a: Requirement, timing: Timing)
    requires SoundOracle(implies) && StopOnly(a.timing, timing)
    requires if a.timing.Before? != IsOnlyScope(a.scope.kind) then implies(timing.stop, a.timing.stop)
             else implies(a.timing.stop, timing.stop)
    ensures Implied(a, a.(timing := timing))
  {
    forall sigma: Trace ensures Entails(RequirementP(sigma, a), RequirementP(sigma, a.(timing := timing))) {
      var kind, m, p := a.scope.kind, AtomP(sigma, a.scope.mode), Sem(sigma, a.response);
      var s, s' := Sem(sigma, a.timing.stop), Sem(sigma, timing.stop);
      ScopedStopMono(kind, KindOf(a.timing), s, s', m, p);
      BodiesGiveLowered(kind, a.conditionType, a.condition == TRUE, m, Sem(sigma, a.condition),
                        ScopedBody(kind, KindOf(a.timing), s, m, p), ScopedBody(kind, KindOf(a.timing), s', m, p));
    }
    ImpliedByFields(a, a.(timing := timing));
  }

  lemma TimingStepImplies(implies: Oracle, a: Requirement, timing: Timing)
    requires SoundOracle(implies) && !IsZeroTickBound(a.timing) && !IsZeroTickBound(timing)
    requires TimingStep(implies, a.timing, timing, a.scope.kind)
    ensures Implied(a, a.(timing := timing))
  {
    if StopOnly(a.timing, timing) {
      StopStepImplies(implies, a, timing);
    } else {
      forall sigma: Trace
        ensures Entails(Sem(sigma, RequirementToLtl(a)), Sem(sigma, RequirementToLtl(a.(timing := timing))))
      {
        TimingOrderSound(a, timing, sigma);
      }
    }
  }

  /** Every step a rule allows is an implication between the requirements on its two sides. */
  lemma StepIsImplied(implies: Oracle, from: Requirement, dest: Requirement, moved: set<Field>, field: Field)
    requires SoundOracle(implies) && Comparable(from, dest) && field !in moved && RuleAllows(implies, from, dest, moved, field)
    ensures Implied(Moved(from, dest, moved), Moved(from, dest, moved + {field}))
  {
    var a, b := Moved(from, dest, moved), Moved(from, dest, moved + {field});
    match field {
      case ConditionField => assert b == a.(condition := dest.condition); ConditionStepImplies(implies, a, dest.condition);
      case ResponseField => assert b == a.(response := dest.response); ResponseStepImplies(implies, a, dest.response);
      case TimingField => assert b == a.(timing := dest.timing); TimingStepImplies(implies, a, dest.timing);
      case ConditionTypeField =>
        assert b == a.(conditionType := dest.conditionType);
        forall sigma: Trace ensures Entails(Sem(sigma, RequirementToLtl(a)), Sem(sigma, RequirementToLtl(b))) {
          if b != a { ConditionStepSound(a, sigma); }
        }
      case ScopeField =>
        assert b == a.(scope := dest.scope);
        forall sigma: Trace ensures Entails(Sem(sigma, RequirementToLtl(a)), Sem(sigma, RequirementToLtl(b))) {
          ScopeOrderSound(a, dest.scope, sigma);
        }
    }
  }

  // -- The search -------------------------------------------------------------------------------

  /** Some order of moving the fields that are left has a rule for every step. */
  predicate CanReach(implies: Oracle, from: Requirement, dest: Requirement, moved: set<Field>)
    requires Comparable(from, dest)
    decreases |ALL_MOVED - moved|
  {
    moved == ALL_MOVED ||
    exists field: Field :: field in ALL_MOVED - moved && CanStep(implies, from, dest, moved, field)
  }

  predicate CanStep(implies: Oracle, from: Requirement, dest: Requirement, moved: set<Field>, field: Field)
    requires Comparable(from, dest) && field in ALL_MOVED - moved
    decreases |ALL_MOVED - moved|, 0
  {
    MovesOn(moved, field);
    RuleAllows(implies, from, dest, moved, field) && CanReach(implies, from, dest, moved + {field})
  }

  lemma MovesOn(moved: set<Field>, field: Field)
    requires field in ALL_MOVED - moved
    ensures |ALL_MOVED - (moved + {field})| < |ALL_MOVED - moved|
  {
    assert ALL_MOVED - moved == (ALL_MOVED - (moved + {field})) + {field};
  }

  /** A chain of rules is an implication. */
  lemma {:induction false} ReachIsImplied(implies: Oracle, from: Requirement, dest: Requirement, moved: set<Field>)
    requires SoundOracle(implies) && Comparable(from, dest) && CanReach(implies, from, dest, moved)
    ensures Implied(Moved(from, dest, moved), dest)
    decreases |ALL_MOVED - moved|
  {
    if moved == ALL_MOVED {
      assert Moved(from, dest, moved) == dest;
    } else {
      var field: Field :| field in ALL_MOVED - moved && CanStep(implies, from, dest, moved, field);
      MovesOn(moved, field);
      StepIsImplied(implies, from, dest, moved, field);
      ReachIsImplied(implies, from, dest, moved + {field});
      ImpliedTrans(Moved(from, dest, moved), Moved(from, dest, moved + {field}), dest);
    }
  }

  lemma ImpliedTrans(a: Requirement, b: Requirement, c: Requirement)
    requires Implied(a, b) && Implied(b, c)
    ensures Implied(a, c)
  {}

  /** The fields in which two requirements agree need no step. */
  function Agreeing(from: Requirement, dest: Requirement): set<Field> {
    (if from.condition == dest.condition then {ConditionField} else {})
    + (if from.response == dest.response then {ResponseField} else {})
    + (if from.timing == dest.timing then {TimingField} else {})
    + (if from.conditionType == dest.conditionType then {ConditionTypeField} else {})
    + (if from.scope == dest.scope then {ScopeField} else {})
  }

  /** What the oracle has said of one pair of formulas, each way. */
  datatype Answers = Answers(onward: Option<bool>, back: Option<bool>)

  ghost predicate Answered(answers: Answers, implies: Oracle, f: Formula, g: Formula) {
    && (answers.onward.Some? ==> answers.onward.value == implies(f, g))
    && (answers.back.Some? ==> answers.back.value == implies(g, f))
  }

  lemma PlaceOf(field: Field) returns (j: nat)
    ensures j < |FIELDS| && FIELDS[j] == field
  {
    j := match field case ConditionField => 0 case ResponseField => 1 case TimingField => 2 case ConditionTypeField => 3
                     case ScopeField => 4;
  }

  class RuleSearch {
    const from: Requirement
    const dest: Requirement
    const implies: Oracle
    var visited: set<set<Field>>
    var condition: Answers
    var response: Answers
    var stop: Answers

    /** The remembered answers are the oracle's. */
    ghost predicate Valid()
      reads this
    {
      && Comparable(from, dest)
      && Answered(condition, implies, from.condition, dest.condition)
      && Answered(response, implies, from.response, dest.response)
      && (StopOnly(from.timing, dest.timing) ==> Answered(stop, implies, from.timing.stop, dest.timing.stop))
    }

    constructor (from: Requirement, dest: Requirement, implies: Oracle)
      requires Comparable(from, dest)
      ensures Valid() && visited == {} && this.from == from && this.dest == dest && this.implies == implies
    {
      this.from, this.dest, this.implies, visited := from, dest, implies, {};
      condition, response, stop := Answers(None, None), Answers(None, None), Answers(None, None);
    }

    method Onward(answers: Answers, stronger: Formula, weaker: Formula) returns (answers': Answers, holds: bool)
      requires answers.onward.Some? ==> answers.onward.value == implies(stronger, weaker)
      ensures holds == implies(stronger, weaker) && answers' == answers.(onward := Some(holds))
    {
      answers' := if answers.onward.None? then answers.(onward := Some(implies(stronger, weaker))) else answers;
      holds := answers'.onward.value;
    }

    method Back(answers: Answers, stronger: Formula, weaker: Formula) returns (answers': Answers, holds: bool)
      requires answers.back.Some? ==> answers.back.value == implies(stronger, weaker)
      ensures holds == implies(stronger, weaker) && answers' == answers.(back := Some(holds))
    {
      answers' := if answers.back.None? then answers.(back := Some(implies(stronger, weaker))) else answers;
      holds := answers'.back.value;
    }

    method BothWays(answers: Answers, f: Formula, g: Formula) returns (answers': Answers, holds: bool)
      requires Answered(answers, implies, f, g)
      ensures Answered(answers', implies, f, g) && holds == Equivalent(implies, f, g)
    {
      answers', holds := Onward(answers, f, g);
      if holds { answers', holds := Back(answers', g, f); }
    }

    method DecideCondition(moved: set<Field>) returns (holds: bool)
      requires Valid()
      modifies this`condition
      ensures Valid() && holds == RuleAllows(implies, from, dest, moved, ConditionField)
    {
      if Moved(from, dest, moved).conditionType.Continual? {
        condition, holds := Back(condition, dest.condition, from.condition);
      } else {
        condition, holds := BothWays(condition, from.condition, dest.condition);
      }
    }

    method DecideResponse(moved: set<Field>) returns (holds: bool)
      requires Valid()
      modifies this`response
      ensures Valid() && holds == RuleAllows(implies, from, dest, moved, ResponseField)
    {
      var at := Moved(from, dest, moved);
      if at.timing.AfterTicks? {
        response, holds := BothWays(response, from.response, dest.response);
      } else if IsOnlyScope(at.scope.kind) {
        response, holds := Back(response, dest.response, from.response);
      } else {
        response, holds := Onward(response, from.response, dest.response);
      }
    }

    method DecideTiming(moved: set<Field>) returns (holds: bool)
      requires Valid()
      modifies this`stop
      ensures Valid() && holds == RuleAllows(implies, from, dest, moved, TimingField)
    {
      var scope := Moved(from, dest, moved).scope.kind;
      if !StopOnly(from.timing, dest.timing) {
        return TimingImplies(from.timing, dest.timing, scope);
      }
      if from.timing.Before? != IsOnlyScope(scope) {
        stop, holds := Back(stop, dest.timing.stop, from.timing.stop);
      } else {
        stop, holds := Onward(stop, from.timing.stop, dest.timing.stop);
      }
    }

    method DecideStep(moved: set<Field>, field: Field) returns (holds: bool)
      requires Valid()
      modifies this`condition, this`response, this`stop
      ensures Valid() && holds == RuleAllows(implies, from, dest, moved, field)
    {
      var at := Moved(from, dest, moved);
      match field {
        case ConditionField => holds := DecideCondition(moved);
        case ResponseField => holds := DecideResponse(moved);
        case TimingField => holds := DecideTiming(moved);
        case ConditionTypeField => holds := ConditionTypeStep(from.conditionType, at.timing, at.scope.kind);
        case ScopeField => holds := ScopeImplies(from.scope, dest.scope, at.timing, at.conditionType);
      }
    }

    /** No visited state from `moved` on reaches the destination. */
    ghost predicate DeadFrom(moved: set<Field>)
      requires Comparable(from, dest)
      reads this
    {
      forall v :: v in visited && moved <= v ==> !CanReach(implies, from, dest, v)
    }

    /** Depth first, each state once. A state visited before and met again did not reach the
        destination, since its search has ended: steps only add moved fields. */
    method Reach(moved: set<Field>) returns (found: bool)
      requires Valid() && DeadFrom(moved)
      modifies this
      ensures Valid() && found == CanReach(implies, from, dest, moved)
      ensures old(visited) <= visited
      ensures !found ==> forall v :: v in visited - old(visited) ==> moved <= v && !CanReach(implies, from, dest, v)
      decreases |ALL_MOVED - moved|
    {
      if moved == ALL_MOVED {
        return true;
      }
      if moved in visited {
        return false;
      }
      visited := visited + {moved};
      for i := 0 to |FIELDS|
        invariant Valid() && old(visited) <= visited
        invariant forall v :: v in visited - old(visited) ==> moved <= v && (v == moved || !CanReach(implies, from, dest, v))
        invariant forall j :: 0 <= j < i && FIELDS[j] !in moved ==> !CanStep(implies, from, dest, moved, FIELDS[j])
      {
        var field := FIELDS[i];
        if field !in moved {
          MovesOn(moved, field);
          var next := moved + {field};
          var holds := DecideStep(moved, field);
          if holds {
            assert !(next <= moved);
            var further := Reach(next);
            if further {
              assert CanStep(implies, from, dest, moved, field);
              return true;
            }
          }
        }
      }
      forall field: Field | field in ALL_MOVED - moved ensures !CanStep(implies, from, dest, moved, field) {
        var j := PlaceOf(field);
        assert FIELDS[j] == field;
      }
      found := false;
    }

    method ReachesDest() returns (found: bool)
      requires Valid() && visited == {}
      modifies this
      ensures found == CanReach(implies, from, dest, Agreeing(from, dest))
    {
      var start := Agreeing(from, dest);
      found := Reach(start);
    }
  }

  // -- Chains of requirements -------------------------------------------------------------------

  /** `b` is `a` with one field, in which `a` is not yet `dest`, moved to what `dest` has there: and the
      rule for that field, in the company of the others as `a` has them, lets it. */
  predicate RuleStep(implies: Oracle, a: Requirement, b: Requirement, dest: Requirement)
    requires !IsZeroTickBound(a.timing) && !IsZeroTickBound(dest.timing)
  {
    || (a.condition != dest.condition && b == a.(condition := dest.condition)
        && implies(dest.condition, a.condition) && (a.conditionType.Trigger? ==> implies(a.condition, dest.condition)))
    || (a.response != dest.response && b == a.(response := dest.response)
        && (!IsOnlyScope(a.scope.kind) || a.timing.AfterTicks? ==> implies(a.response, dest.response))
        && (IsOnlyScope(a.scope.kind) || a.timing.AfterTicks? ==> implies(dest.response, a.response)))
    || (a.timing != dest.timing && b == a.(timing := dest.timing)
        && (if a.timing.Until? && dest.timing.Until? then
              if IsOnlyScope(a.scope.kind) then implies(dest.timing.stop, a.timing.stop) else implies(a.timing.stop, dest.timing.stop)
            else if a.timing.Before? && dest.timing.Before? then
              if IsOnlyScope(a.scope.kind) then implies(a.timing.stop, dest.timing.stop) else implies(dest.timing.stop, a.timing.stop)
            else TimingImplies(a.timing, dest.timing, a.scope.kind)))
    || (a.conditionType != dest.conditionType && b == a.(conditionType := dest.conditionType)
        && (a.conditionType.Continual? || (if IsOnlyScope(a.scope.kind) then a.timing.Eventually? else a.timing.Always?)))
    || (a.scope != dest.scope && b == a.(scope := dest.scope)
        && ScopeImplies(a.scope, dest.scope, a.timing, a.conditionType))
  }

  predicate TicksCount(path: seq<Requirement>) {
    forall k :: 0 <= k < |path| ==> !IsZeroTickBound(path[k].timing)
  }

  /** A chain of such steps from the first requirement to `dest`. */
  predicate RuleChain(implies: Oracle, path: seq<Requirement>, dest: Requirement) {
    && path != [] && path[|path| - 1] == dest && TicksCount(path)
    && forall k :: 0 <= k < |path| - 1 ==> RuleStep(implies, path[k], path[k + 1], dest)
  }

  /** The field a chain's step moves. */
  lemma StepMoves(implies: Oracle, from: Requirement, dest: Requirement, moved: set<Field>, b: Requirement)
    returns (field: Field)
    requires Comparable(from, dest) && RuleStep(implies, Moved(from, dest, moved), b, dest)
    ensures field in ALL_MOVED - moved && b == Moved(from, dest, moved + {field})
    ensures RuleAllows(implies, from, dest, moved, field)
  {
    var a := Moved(from, dest, moved);
    if a.condition != dest.condition && b == a.(condition := dest.condition) { field := ConditionField; }
    else if a.response != dest.response && b == a.(response := dest.response) { field := ResponseField; }
    else if a.timing != dest.timing && b == a.(timing := dest.timing) { field := TimingField; }
    else if a.conditionType != dest.conditionType && b == a.(conditionType := dest.conditionType) { field := ConditionTypeField; }
    else { field := ScopeField; }
  }

  lemma MoveSteps(implies: Oracle, from: Requirement, dest: Requirement, moved: set<Field>, field: Field)
    requires Comparable(from, dest) && Agreeing(from, dest) <= moved && field in ALL_MOVED - moved
    requires RuleAllows(implies, from, dest, moved, field)
    ensures RuleStep(implies, Moved(from, dest, moved), Moved(from, dest, moved + {field}), dest)
  {}

  lemma {:induction false} ReachHasChain(implies: Oracle, from: Requirement, dest: Requirement, moved: set<Field>)
    returns (path: seq<Requirement>)
    requires Comparable(from, dest) && Agreeing(from, dest) <= moved && CanReach(implies, from, dest, moved)
    ensures RuleChain(implies, path, dest) && path[0] == Moved(from, dest, moved)
    decreases |ALL_MOVED - moved|
  {
    hide RuleAllows, RuleStep, IsZeroTickBound;
    var a := Moved(from, dest, moved);
    if moved == ALL_MOVED {
      path := [a];
    } else {
      var field: Field :| field in ALL_MOVED - moved && CanStep(implies, from, dest, moved, field);
      MovesOn(moved, field);
      MoveSteps(implies, from, dest, moved, field);
      var rest := ReachHasChain(implies, from, dest, moved + {field});
      path := [a] + rest;
      ChainPrepends(implies, a, rest, dest);
    }
  }

  lemma ChainPrepends(implies: Oracle, a: Requirement, rest: seq<Requirement>, dest: Requirement)
    requires RuleChain(implies, rest, dest) && !IsZeroTickBound(a.timing) && !IsZeroTickBound(dest.timing)
    requires RuleStep(implies, a, rest[0], dest)
    ensures RuleChain(implies, [a] + rest, dest)
  {
    hide RuleStep;
    var path := [a] + rest;
    forall k | 0 <= k < |path| ensures !IsZeroTickBound(path[k].timing) { if k > 0 { assert path[k] == rest[k - 1]; } }
    forall k | 0 <= k < |path| - 1 ensures RuleStep(implies, path[k], path[k + 1], dest) {
      if k > 0 { assert RuleStep(implies, rest[k - 1], rest[k], dest); }
    }
  }

  lemma {:induction false} ChainReaches(implies: Oracle, from: Requirement, dest: Requirement, moved: set<Field>,
                                        path: seq<Requirement>)
    requires Comparable(from, dest) && moved <= ALL_MOVED && Agreeing(from, dest) <= moved
    requires RuleChain(implies, path, dest) && path[0] == Moved(from, dest, moved)
    ensures CanReach(implies, from, dest, moved)
    decreases |path|
  {
    hide RuleAllows, RuleStep;
    if |path| == 1 {
      AllAreMoved(from, dest, moved);
    } else {
      assert RuleStep(implies, path[0], path[1], dest);
      var field := StepMoves(implies, from, dest, moved, path[1]);
      MovesOn(moved, field);
      var rest := path[1..];
      forall k | 0 <= k < |rest| - 1 ensures RuleStep(implies, rest[k], rest[k + 1], dest) {
        assert RuleStep(implies, path[k + 1], path[k + 2], dest);
      }
      ChainReaches(implies, from, dest, moved + {field}, rest);
      assert CanStep(implies, from, dest, moved, field);
    }
  }

  lemma AllAreMoved(from: Requirement, dest: Requirement, moved: set<Field>)
    requires moved <= ALL_MOVED && Agreeing(from, dest) <= moved && Moved(from, dest, moved) == dest
    ensures moved == ALL_MOVED
  {
    forall field: Field ensures field in moved {
      assert field !in moved ==> field !in Agreeing(from, dest);
      match field {
        case ConditionField =>
        case ResponseField =>
        case TimingField =>
        case ConditionTypeField =>
        case ScopeField =>
      }
    }
  }

  /** The search over sets of fields finds exactly the chains there are. */
  lemma ReachIsChain(implies: Oracle, from: Requirement, dest: Requirement)
    requires Comparable(from, dest)
    ensures CanReach(implies, from, dest, Agreeing(from, dest))
       <==> exists path :: RuleChain(implies, path, dest) && path[0] == from
  {
    hide RuleAllows, RuleStep;
    var start := Agreeing(from, dest);
    assert Moved(from, dest, start) == from;
    if CanReach(implies, from, dest, start) { var path := ReachHasChain(implies, from, dest, start); }
    if path :| RuleChain(implies, path, dest) && path[0] == from { ChainReaches(implies, from, dest, start, path); }
  }

  /** Requirements that differ in one field. */
  predicate OneFieldApart(a: Requirement, b: Requirement) {
    a != b && (b == a.(condition := b.condition) || b == a.(response := b.response) || b == a.(timing := b.timing)
               || b == a.(conditionType := b.conditionType) || b == a.(scope := b.scope))
  }

  /** Between them the only chain is the one step. */
  lemma OneFieldChain(implies: Oracle, a: Requirement, b: Requirement)
    requires Comparable(a, b) && OneFieldApart(a, b)
    ensures (exists path :: RuleChain(implies, path, b) && path[0] == a) <==> RuleStep(implies, a, b, b)
  {
    if RuleStep(implies, a, b, b) { assert RuleChain(implies, [a, b], b) && [a, b][0] == a; }
    if path :| RuleChain(implies, path, b) && path[0] == a {
      assert RuleStep(implies, path[0], path[1], b);
      assert path[1] == b;
    }
  }

  predicate ByRule(implies: Oracle, stronger: Requirement, weaker: Requirement)
    requires Comparable(stronger, weaker)
  {
    RequirementToLtl(stronger) == RequirementToLtl(weaker) || CanReach(implies, stronger, weaker, Agreeing(stronger, weaker))
  }

  /** Two requirements, compared without a solver: equal lowerings, or a chain of rules. The answer is
      whether there is such a chain; it is yes only where the one lowered formula implies the other
      throughout. */
  method RequirementImplies(implies: Oracle, stronger: Requirement, weaker: Requirement) returns (holds: bool)
    requires Comparable(stronger, weaker)
    ensures holds <==> RequirementToLtl(stronger) == RequirementToLtl(weaker)
                       || exists path :: RuleChain(implies, path, weaker) && path[0] == stronger
    ensures holds && SoundOracle(implies) ==> Implied(stronger, weaker)
  {
    ReachIsChain(implies, stronger, weaker);
    if RequirementToLtl(stronger) == RequirementToLtl(weaker) {
      return true;
    }
    var search := new RuleSearch(stronger, weaker, implies);
    holds := search.ReachesDest();
    if holds && SoundOracle(implies) { ByRuleIsImplied(implies, stronger, weaker); }
  }

  lemma ByRuleIsImplied(implies: Oracle, stronger: Requirement, weaker: Requirement)
    requires Comparable(stronger, weaker) && SoundOracle(implies) && ByRule(implies, stronger, weaker)
    ensures Implied(stronger, weaker)
  {
    if RequirementToLtl(stronger) != RequirementToLtl(weaker) {
      ReachIsImplied(implies, stronger, weaker, Agreeing(stronger, weaker));
      assert Moved(stronger, weaker, Agreeing(stronger, weaker)) == stronger;
    }
  }
}
