/** The normal form a cache key is taken of: operands of commutative connectives in one order. */
module CanonicalForms {
  import opened Ltl
  import opened Realizability

  /** Which of two formulas goes first. */
  type Comparison = (Formula, Formula) -> bool

  /** The connectives whose chains are flattened. */
  datatype Chained = Conjunction | Disjunction

  predicate IsChain(f: Formula, kind: Chained) {
    if kind.Conjunction? then f.And? else f.Or?
  }

  function Join(kind: Chained, f: Formula, g: Formula): Formula {
    if kind.Conjunction? then And(f, g) else Or(f, g)
  }

  /** What a formula joins by one connective, nested joins of the same connective opened up. */
  function Flatten(f: Formula, kind: Chained): (ops: seq<Formula>)
    ensures ops != []
  {
    if f.And? && kind.Conjunction? then Flatten(f.left, kind) + Flatten(f.right, kind)
    else if f.Or? && kind.Disjunction? then Flatten(f.left, kind) + Flatten(f.right, kind)
    else [f]
  }

  /** A left-leaning chain. */
  function Chain(kind: Chained, ops: seq<Formula>): Formula
    requires ops != []
  {
    if |ops| == 1 then ops[0] else Join(kind, Chain(kind, ops[..|ops| - 1]), ops[|ops| - 1])
  }

  function Insert(less: Comparison, f: Formula, ops: seq<Formula>): (sorted: seq<Formula>)
    ensures sorted != []
  {
    if ops == [] then [f] else if less(f, ops[0]) then [f] + ops else [ops[0]] + Insert(less, f, ops[1..])
  }

  function Sort(less: Comparison, ops: seq<Formula>): (sorted: seq<Formula>)
    ensures ops != [] ==> sorted != []
  {
    if ops == [] then [] else Insert(less, ops[0], Sort(less, ops[1..]))
  }

  /** Runs of one operand shortened to one. */
  function Unique(ops: seq<Formula>): (unique: seq<Formula>)
    ensures ops != [] ==> unique != []
  {
    if |ops| <= 1 then ops
    else if ops[0] == ops[1] then Unique(ops[1..])
    else [ops[0]] + Unique(ops[1..])
  }

  function Canonical(less: Comparison, f: Formula): Formula
    decreases f, 0
  {
    match f
    case Atom(_) => f
    case Not(g) =>
      var inner := Canonical(less, g);
      if inner.Not? then inner.child else Not(inner)
    case Next(g) => Next(Canonical(less, g))
    case Eventually(g) => Eventually(Canonical(less, g))
    case Globally(g) => Globally(Canonical(less, g))
    case And(g, h) => Chain(Conjunction, Unique(Sort(less, Operands(less, g, Conjunction) + Operands(less, h, Conjunction))))
    case Or(g, h) => Chain(Disjunction, Unique(Sort(less, Operands(less, g, Disjunction) + Operands(less, h, Disjunction))))
    case Iff(g, h) =>
      var left, right := Canonical(less, g), Canonical(less, h);
      if less(left, right) then Iff(left, right) else Iff(right, left)
    case Implies(g, h) => Implies(Canonical(less, g), Canonical(less, h))
    case Until(g, h) => Until(Canonical(less, g), Canonical(less, h))
    case Release(g, h) => Release(Canonical(less, g), Canonical(less, h))
    case WeakUntil(g, h) => WeakUntil(Canonical(less, g), Canonical(less, h))
  }

  /** The canonical operands of a chain, flattened again: a double negation may have hidden a chain. */
  function Operands(less: Comparison, f: Formula, kind: Chained): (ops: seq<Formula>)
    ensures ops != []
    decreases f, 1
  {
    if f.And? && kind.Conjunction? then Operands(less, f.left, kind) + Operands(less, f.right, kind)
    else if f.Or? && kind.Disjunction? then Operands(less, f.left, kind) + Operands(less, f.right, kind)
    else Flatten(Canonical(less, f), kind)
  }

  // -- Meaning ----------------------------------------------------------------------------------

  /** Every operand holds, or some does. */
  ghost function Combined(sigma: Trace, kind: Chained, ops: seq<Formula>): Pred {
    (t: nat) => if kind.Conjunction? then forall i :: 0 <= i < |ops| ==> Holds(sigma, ops[i], t)
                else exists i :: 0 <= i < |ops| && Holds(sigma, ops[i], t)
  }

  lemma CombinedOne(sigma: Trace, kind: Chained, f: Formula)
    ensures Same(Combined(sigma, kind, [f]), Sem(sigma, f))
  {
    forall t: nat ensures Combined(sigma, kind, [f])(t) <==> Sem(sigma, f)(t) { assert [f][0] == f; }
  }

  lemma CombinedJoins(sigma: Trace, kind: Chained, a: seq<Formula>, b: seq<Formula>)
    ensures Same(Combined(sigma, kind, a + b),
                 if kind.Conjunction? then AndP(Combined(sigma, kind, a), Combined(sigma, kind, b))
                 else OrP(Combined(sigma, kind, a), Combined(sigma, kind, b)))
  {
    var c := a + b;
    assert forall i :: 0 <= i < |a| ==> c[i] == a[i];
    assert forall i :: 0 <= i < |b| ==> c[|a| + i] == b[i];
    assert forall i :: |a| <= i < |c| ==> c[i] == b[i - |a|];
  }

  /** What holds together depends on the operands alone, not on their order or number. */
  lemma CombinedMembers(sigma: Trace, kind: Chained, a: seq<Formula>, b: seq<Formula>)
    requires forall f :: f in a <==> f in b
    ensures Same(Combined(sigma, kind, a), Combined(sigma, kind, b))
  {
    forall i | 0 <= i < |a| ensures exists j :: 0 <= j < |b| && b[j] == a[i] { assert a[i] in b; }
    forall i | 0 <= i < |b| ensures exists j :: 0 <= j < |a| && a[j] == b[i] { assert b[i] in a; }
  }

  lemma JoinMeans(sigma: Trace, kind: Chained, f: Formula, g: Formula)
    ensures Sem(sigma, Join(kind, f, g)) ==
              if kind.Conjunction? then AndP(Sem(sigma, f), Sem(sigma, g)) else OrP(Sem(sigma, f), Sem(sigma, g))
  {}

  lemma {:induction false} FlattenMeans(sigma: Trace, f: Formula, kind: Chained)
    ensures Same(Combined(sigma, kind, Flatten(f, kind)), Sem(sigma, f))
  {
    if IsChain(f, kind) {
      FlattenMeans(sigma, f.left, kind);
      FlattenMeans(sigma, f.right, kind);
      CombinedJoins(sigma, kind, Flatten(f.left, kind), Flatten(f.right, kind));
      JoinMeans(sigma, kind, f.left, f.right);
      assert f == Join(kind, f.left, f.right);
    } else {
      CombinedOne(sigma, kind, f);
    }
  }

  lemma {:induction false} ChainMeans(sigma: Trace, kind: Chained, ops: seq<Formula>)
    requires ops != []
    ensures Same(Sem(sigma, Chain(kind, ops)), Combined(sigma, kind, ops))
  {
    var n := |ops| - 1;
    CombinedOne(sigma, kind, ops[n]);
    if n == 0 {
      assert ops == [ops[0]];
    } else {
      ChainMeans(sigma, kind, ops[..n]);
      CombinedJoins(sigma, kind, ops[..n], [ops[n]]);
      JoinMeans(sigma, kind, Chain(kind, ops[..n]), ops[n]);
      assert ops == ops[..n] + [ops[n]];
    }
  }

  lemma {:induction false} InsertMembers(less: Comparison, f: Formula, ops: seq<Formula>)
    ensures forall g :: g in Insert(less, f, ops) <==> g == f || g in ops
  {
    if ops != [] { InsertMembers(less, f, ops[1..]); }
  }

  lemma {:induction false} SortMembers(less: Comparison, ops: seq<Formula>)
    ensures forall g :: g in Sort(less, ops) <==> g in ops
  {
    if ops != [] {
      SortMembers(less, ops[1..]);
      InsertMembers(less, ops[0], Sort(less, ops[1..]));
    }
  }

  lemma {:induction false} UniqueMembers(ops: seq<Formula>)
    ensures forall g :: g in Unique(ops) <==> g in ops
  {
    if |ops| > 1 { UniqueMembers(ops[1..]); }
  }

  lemma ArrangedMeans(sigma: Trace, less: Comparison, kind: Chained, ops: seq<Formula>)
    requires ops != []
    ensures Same(Sem(sigma, Chain(kind, Unique(Sort(less, ops)))), Combined(sigma, kind, ops))
  {
    SortMembers(less, ops);
    UniqueMembers(Sort(less, ops));
    CombinedMembers(sigma, kind, ops, Unique(Sort(less, ops)));
    ChainMeans(sigma, kind, Unique(Sort(less, ops)));
  }

  lemma {:induction false} OperandsMean(sigma: Trace, less: Comparison, f: Formula, kind: Chained)
    ensures Same(Combined(sigma, kind, Operands(less, f, kind)), Sem(sigma, f))
    decreases f, 2
  {
    if IsChain(f, kind) {
      OperandsMean(sigma, less, f.left, kind);
      OperandsMean(sigma, less, f.right, kind);
      CombinedJoins(sigma, kind, Operands(less, f.left, kind), Operands(less, f.right, kind));
      JoinMeans(sigma, kind, f.left, f.right);
      assert f == Join(kind, f.left, f.right);
    } else {
      CanonicalMeans(sigma, less, f);
      FlattenMeans(sigma, Canonical(less, f), kind);
    }
  }

  lemma {:induction false} ChainCanonicalMeans(sigma: Trace, less: Comparison, f: Formula, kind: Chained)
    requires IsChain(f, kind)
    ensures Same(Sem(sigma, Canonical(less, f)), Sem(sigma, f))
    decreases f, 0
  {
    var a, b := Operands(less, f.left, kind), Operands(less, f.right, kind);
    OperandsMean(sigma, less, f.left, kind);
    OperandsMean(sigma, less, f.right, kind);
    CombinedJoins(sigma, kind, a, b);
    JoinMeans(sigma, kind, f.left, f.right);
    ArrangedMeans(sigma, less, kind, a + b);
    assert f == Join(kind, f.left, f.right);
  }

  lemma {:induction false} UnaryCanonicalMeans(sigma: Trace, less: Comparison, f: Formula)
    requires IsUnary(f)
    ensures Same(Sem(sigma, Canonical(less, f)), Sem(sigma, f))
    decreases f, 0
  {
    CanonicalMeans(sigma, less, f.child);
    SameUnary(Sem(sigma, Canonical(less, f.child)), Sem(sigma, f.child));
    if f.Not? && Canonical(less, f.child).Not? { DoubleNegation(sigma, Canonical(less, f.child).child); }
  }

  lemma DoubleNegation(sigma: Trace, f: Formula)
    ensures Same(NotP(Sem(sigma, Not(f))), Sem(sigma, f))
  {}

  lemma {:induction false} BinaryCanonicalMeans(sigma: Trace, less: Comparison, f: Formula)
    requires f.Implies? || f.Until? || f.Release? || f.WeakUntil?
    ensures Same(Sem(sigma, Canonical(less, f)), Sem(sigma, f))
    decreases f, 0
  {
    hide UP, RP, WP, ImpP, Same;
    CanonicalMeans(sigma, less, f.left);
    CanonicalMeans(sigma, less, f.right);
    var p, q, p', q' := Sem(sigma, Canonical(less, f.left)), Sem(sigma, Canonical(less, f.right)), Sem(sigma, f.left), Sem(sigma, f.right);
    if f.Implies? { SameBoolean(p, q, p', q'); } else { SameTemporal(p, q, p', q'); }
  }

  lemma {:induction false} IffCanonicalMeans(sigma: Trace, less: Comparison, f: Formula)
    requires f.Iff?
    ensures Same(Sem(sigma, Canonical(less, f)), Sem(sigma, f))
    decreases f, 0
  {
    hide Sem, IffP;
    CanonicalMeans(sigma, less, f.left);
    CanonicalMeans(sigma, less, f.right);
    var left, right := Canonical(less, f.left), Canonical(less, f.right);
    SameBoolean(Sem(sigma, left), Sem(sigma, right), Sem(sigma, f.left), Sem(sigma, f.right));
    IffMeans(sigma, left, right);
    IffMeans(sigma, right, left);
    IffMeans(sigma, f.left, f.right);
  }

  lemma IffMeans(sigma: Trace, f: Formula, g: Formula)
    ensures Sem(sigma, Iff(f, g)) == IffP(Sem(sigma, f), Sem(sigma, g))
    ensures Same(Sem(sigma, Iff(f, g)), IffP(Sem(sigma, g), Sem(sigma, f)))
  {}

  /** The normal form says what the formula says, on every trace and at every position. */
  lemma {:induction false} CanonicalMeans(sigma: Trace, less: Comparison, f: Formula)
    ensures Same(Sem(sigma, Canonical(less, f)), Sem(sigma, f))
    decreases f, 1
  {
    hide Sem;
    if f.And? { ChainCanonicalMeans(sigma, less, f, Conjunction); }
    else if f.Or? { ChainCanonicalMeans(sigma, less, f, Disjunction); }
    else if IsUnary(f) { UnaryCanonicalMeans(sigma, less, f); }
    else if f.Iff? { IffCanonicalMeans(sigma, less, f); }
    else if !f.Atom? { BinaryCanonicalMeans(sigma, less, f); }
  }

  // -- Atoms ------------------------------------------------------------------------------------

  ghost predicate AtomsWithin(ops: seq<Formula>, names: set<string>) {
    forall f :: f in ops ==> Atoms(f) <= names
  }

  lemma {:induction false} FlattenAtoms(f: Formula, kind: Chained)
    ensures AtomsWithin(Flatten(f, kind), Atoms(f))
  {
    if IsChain(f, kind) {
      FlattenAtoms(f.left, kind);
      FlattenAtoms(f.right, kind);
    }
  }

  lemma {:induction false} ChainAtoms(kind: Chained, ops: seq<Formula>, names: set<string>)
    requires ops != [] && AtomsWithin(ops, names)
    ensures Atoms(Chain(kind, ops)) <= names
  {
    assert ops[|ops| - 1] in ops;
    if |ops| > 1 { ChainAtoms(kind, ops[..|ops| - 1], names); }
  }

  lemma {:induction false} OperandsAtoms(less: Comparison, f: Formula, kind: Chained)
    ensures AtomsWithin(Operands(less, f, kind), Atoms(f))
    decreases f, 2
  {
    if IsChain(f, kind) {
      OperandsAtoms(less, f.left, kind);
      OperandsAtoms(less, f.right, kind);
    } else {
      CanonicalAtoms(less, f);
      FlattenAtoms(Canonical(less, f), kind);
    }
  }

  lemma {:induction false} ArrangedAtoms(less: Comparison, f: Formula, kind: Chained)
    requires IsChain(f, kind)
    ensures Atoms(Canonical(less, f)) <= Atoms(f)
    decreases f, 0
  {
    var ops := Operands(less, f.left, kind) + Operands(less, f.right, kind);
    OperandsAtoms(less, f.left, kind);
    OperandsAtoms(less, f.right, kind);
    SortMembers(less, ops);
    UniqueMembers(Sort(less, ops));
    ChainAtoms(kind, Unique(Sort(less, ops)), Atoms(f));
  }

  /** It mentions no atom of its own. */
  lemma {:induction false} CanonicalAtoms(less: Comparison, f: Formula)
    ensures Atoms(Canonical(less, f)) <= Atoms(f)
    decreases f, 1
  {
    if f.And? { ArrangedAtoms(less, f, Conjunction); }
    else if f.Or? { ArrangedAtoms(less, f, Disjunction); }
    else if IsUnary(f) { CanonicalAtoms(less, f.child); }
    else if !f.Atom? { CanonicalAtoms(less, f.left); CanonicalAtoms(less, f.right); }
  }

  // -- What stays as it is ----------------------------------------------------------------------

  /** No commutative connective and no double negation. */
  predicate Plain(f: Formula) {
    match f
    case Atom(_) => true
    case Not(g) => !g.Not? && Plain(g)
    case Next(g) => Plain(g)
    case Eventually(g) => Plain(g)
    case Globally(g) => Plain(g)
    case And(_, _) => false
    case Or(_, _) => false
    case Iff(_, _) => false
    case _ => Plain(f.left) && Plain(f.right)
  }

  lemma {:induction false} PlainIsCanonical(less: Comparison, f: Formula)
    requires Plain(f)
    ensures Canonical(less, f) == f
  {
    if IsUnary(f) { PlainIsCanonical(less, f.child); }
    else if !f.Atom? { PlainIsCanonical(less, f.left); PlainIsCanonical(less, f.right); }
  }

  // -- One form for every spelling --------------------------------------------------------------

  ghost predicate TotalOrder<T(!new)>(less: (T, T) -> bool) {
    && (forall x :: !less(x, x))
    && (forall x, y, z :: less(x, y) && less(y, z) ==> less(x, z))
    && (forall x, y :: less(x, y) || x == y || less(y, x))
  }

  ghost predicate Ascending(less: Comparison, ops: seq<Formula>) {
    forall i, j :: 0 <= i < j < |ops| ==> ops[i] == ops[j] || less(ops[i], ops[j])
  }

  ghost predicate StrictlyAscending(less: Comparison, ops: seq<Formula>) {
    forall i, j :: 0 <= i < j < |ops| ==> less(ops[i], ops[j])
  }

  lemma {:induction false} InsertAscends(less: Comparison, f: Formula, ops: seq<Formula>)
    requires TotalOrder(less) && Ascending(less, ops)
    ensures Ascending(less, Insert(less, f, ops))
  {
    if ops != [] && !less(f, ops[0]) {
      var rest := Insert(less, f, ops[1..]);
      InsertAscends(less, f, ops[1..]);
      InsertMembers(less, f, ops[1..]);
      forall j | 0 <= j < |rest| ensures ops[0] == rest[j] || less(ops[0], rest[j]) { assert rest[j] in rest; }
    }
  }

  lemma {:induction false} SortAscends(less: Comparison, ops: seq<Formula>)
    requires TotalOrder(less)
    ensures Ascending(less, Sort(less, ops))
  {
    if ops != [] {
      SortAscends(less, ops[1..]);
      InsertAscends(less, ops[0], Sort(less, ops[1..]));
    }
  }

  lemma {:induction false} UniqueAscends(less: Comparison, ops: seq<Formula>)
    requires TotalOrder(less) && Ascending(less, ops)
    ensures StrictlyAscending(less, Unique(ops))
  {
    if |ops| > 1 {
      var rest := Unique(ops[1..]);
      UniqueAscends(less, ops[1..]);
      UniqueMembers(ops[1..]);
      if ops[0] != ops[1] {
        forall j | 0 <= j < |rest| ensures less(ops[0], rest[j]) {
          assert rest[j] in ops[1..];
          var i :| 1 <= i < |ops| && ops[i] == rest[j];
          assert ops[1] == ops[i] || less(ops[1], ops[i]);
        }
      }
    }
  }

  lemma FirstIsMember(ops: seq<Formula>)
    requires ops != []
    ensures ops[0] in ops
  {}

  /** A strictly ascending list is fixed by its members. */
  lemma {:induction false} AscendingIsUnique(less: Comparison, a: seq<Formula>, b: seq<Formula>)
    requires TotalOrder(less) && StrictlyAscending(less, a) && StrictlyAscending(less, b)
    requires forall f :: f in a <==> f in b
    ensures a == b
  {
    if a == [] {
      if b != [] { FirstIsMember(b); }
    } else {
      assert a[0] in b && b != [];
      assert b[0] in a;
      assert a[0] == b[0];
      forall f ensures f in a[1..] <==> f in b[1..] { TailMembers(less, a, f); TailMembers(less, b, f); }
      AscendingIsUnique(less, a[1..], b[1..]);
    }
  }

  lemma TailMembers(less: Comparison, a: seq<Formula>, f: Formula)
    requires TotalOrder(less) && StrictlyAscending(less, a) && a != []
    ensures f in a[1..] <==> f in a && f != a[0]
  {
    if f in a[1..] {
      var i :| 0 <= i < |a[1..]| && a[1..][i] == f;
      assert less(a[0], a[i + 1]);
    }
  }

  lemma ArrangedOneForm(less: Comparison, a: seq<Formula>, b: seq<Formula>)
    requires TotalOrder(less) && forall f :: f in a <==> f in b
    ensures Unique(Sort(less, a)) == Unique(Sort(less, b))
  {
    SortMembers(less, a);
    SortMembers(less, b);
    UniqueMembers(Sort(less, a));
    UniqueMembers(Sort(less, b));
    SortAscends(less, a);
    SortAscends(less, b);
    UniqueAscends(less, Sort(less, a));
    UniqueAscends(less, Sort(less, b));
    AscendingIsUnique(less, Unique(Sort(less, a)), Unique(Sort(less, b)));
  }

  /** Chains of one connective over the same operands, however grouped, ordered or repeated, have one
      normal form. */
  lemma ChainOneForm(less: Comparison, f: Formula, g: Formula, kind: Chained)
    requires TotalOrder(less) && IsChain(f, kind) && IsChain(g, kind)
    requires forall h :: h in Operands(less, f, kind) <==> h in Operands(less, g, kind)
    ensures Canonical(less, f) == Canonical(less, g)
  {
    ArrangedOneForm(less, Operands(less, f, kind), Operands(less, g, kind));
  }

  /** No double negation anywhere. */
  predicate Unnegated(f: Formula) {
    match f
    case Atom(_) => true
    case Not(g) => !g.Not? && Unnegated(g)
    case Next(g) => Unnegated(g)
    case Eventually(g) => Unnegated(g)
    case Globally(g) => Unnegated(g)
    case _ => Unnegated(f.left) && Unnegated(f.right)
  }

  ghost predicate AllUnnegated(ops: seq<Formula>) {
    forall f :: f in ops ==> Unnegated(f)
  }

  lemma {:induction false} FlattenUnnegated(f: Formula, kind: Chained)
    requires Unnegated(f)
    ensures AllUnnegated(Flatten(f, kind))
  {
    if IsChain(f, kind) {
      FlattenUnnegated(f.left, kind);
      FlattenUnnegated(f.right, kind);
    }
  }

  lemma {:induction false} ChainUnnegated(kind: Chained, ops: seq<Formula>)
    requires ops != [] && AllUnnegated(ops)
    ensures Unnegated(Chain(kind, ops))
  {
    assert ops[|ops| - 1] in ops;
    if |ops| > 1 { ChainUnnegated(kind, ops[..|ops| - 1]); }
  }

  lemma {:induction false} OperandsUnnegated(less: Comparison, f: Formula, kind: Chained)
    ensures AllUnnegated(Operands(less, f, kind))
    decreases f, 2
  {
    if IsChain(f, kind) {
      OperandsUnnegated(less, f.left, kind);
      OperandsUnnegated(less, f.right, kind);
    } else {
      CanonicalUnnegated(less, f);
      FlattenUnnegated(Canonical(less, f), kind);
    }
  }

  lemma {:induction false} ArrangedUnnegated(less: Comparison, f: Formula, kind: Chained)
    requires IsChain(f, kind)
    ensures Unnegated(Canonical(less, f))
    decreases f, 0
  {
    var ops := Operands(less, f.left, kind) + Operands(less, f.right, kind);
    OperandsUnnegated(less, f.left, kind);
    OperandsUnnegated(less, f.right, kind);
    SortMembers(less, ops);
    UniqueMembers(Sort(less, ops));
    ChainUnnegated(kind, Unique(Sort(less, ops)));
  }

  lemma {:induction false} CanonicalUnnegated(less: Comparison, f: Formula)
    ensures Unnegated(Canonical(less, f))
    decreases f, 1
  {
    if f.And? { ArrangedUnnegated(less, f, Conjunction); }
    else if f.Or? { ArrangedUnnegated(less, f, Disjunction); }
    else if IsUnary(f) { CanonicalUnnegated(less, f.child); }
    else if !f.Atom? { CanonicalUnnegated(less, f.left); CanonicalUnnegated(less, f.right); }
  }

  lemma OperandsOfJoin(less: Comparison, f: Formula, g: Formula, kind: Chained)
    ensures IsChain(Join(kind, f, g), kind)
    ensures Operands(less, Join(kind, f, g), kind) == Operands(less, f, kind) + Operands(less, g, kind)
  {}

  lemma SwappedOperands(less: Comparison, f: Formula, g: Formula, kind: Chained)
    requires TotalOrder(less)
    ensures Canonical(less, Join(kind, f, g)) == Canonical(less, Join(kind, g, f))
  {
    hide Flatten;
    OperandsOfJoin(less, f, g, kind);
    OperandsOfJoin(less, g, f, kind);
    ChainOneForm(less, Join(kind, f, g), Join(kind, g, f), kind);
  }

  lemma RegroupedOperands(less: Comparison, f: Formula, g: Formula, h: Formula, kind: Chained)
    requires TotalOrder(less)
    ensures Canonical(less, Join(kind, Join(kind, f, g), h)) == Canonical(less, Join(kind, f, Join(kind, g, h)))
  {
    var left, right := Join(kind, f, g), Join(kind, g, h);
    OperandsOfJoin(less, f, g, kind);
    OperandsOfJoin(less, g, h, kind);
    OperandsOfJoin(less, left, h, kind);
    OperandsOfJoin(less, f, right, kind);
    ChainOneForm(less, Join(kind, left, h), Join(kind, f, right), kind);
  }

  lemma RepeatedOperand(less: Comparison, f: Formula, g: Formula, kind: Chained)
    requires TotalOrder(less)
    ensures Canonical(less, Join(kind, Join(kind, f, g), g)) == Canonical(less, Join(kind, f, g))
  {
    var once := Join(kind, f, g);
    OperandsOfJoin(less, f, g, kind);
    OperandsOfJoin(less, once, g, kind);
    ChainOneForm(less, Join(kind, once, g), once, kind);
  }

  lemma IffRespelling(less: Comparison, f: Formula, g: Formula)
    requires TotalOrder(less)
    ensures Canonical(less, Iff(f, g)) == Canonical(less, Iff(g, f))
  {
    var p, q := Canonical(less, f), Canonical(less, g);
    assert less(p, q) ==> !less(q, p);
  }

  lemma NegationRespelling(less: Comparison, f: Formula)
    ensures Canonical(less, Not(Not(f))) == Canonical(less, f)
  {
    CanonicalUnnegated(less, f);
  }

  /** Swapping and regrouping operands, writing one twice, and negating twice are not seen. */
  lemma RespellingsShareForm(less: Comparison, f: Formula, g: Formula, h: Formula, kind: Chained)
    requires TotalOrder(less)
    ensures Canonical(less, Join(kind, f, g)) == Canonical(less, Join(kind, g, f))
    ensures Canonical(less, Join(kind, Join(kind, f, g), h)) == Canonical(less, Join(kind, f, Join(kind, g, h)))
    ensures Canonical(less, Join(kind, Join(kind, f, g), g)) == Canonical(less, Join(kind, f, g))
    ensures Canonical(less, Iff(f, g)) == Canonical(less, Iff(g, f))
    ensures Canonical(less, Not(Not(f))) == Canonical(less, f)
  {
    SwappedOperands(less, f, g, kind);
    RegroupedOperands(less, f, g, h, kind);
    RepeatedOperand(less, f, g, kind);
    IffRespelling(less, f, g);
    NegationRespelling(less, f);
  }

  /** What the keys need of a normal form. */
  ghost predicate NormalForm(canonical: Formula -> Formula) {
    && (forall f: Formula, sigma: Trace, t: nat :: Holds(sigma, f, t) <==> Holds(sigma, canonical(f), t))
    && (forall f: Formula :: Atoms(canonical(f)) <= Atoms(f))
    && (forall f: Formula :: Plain(f) ==> canonical(f) == f)
  }

  function CanonicalBy(less: Comparison): Formula -> Formula {
    (f: Formula) => Canonical(less, f)
  }

  lemma CanonicalIsNormal(less: Comparison)
    ensures NormalForm(CanonicalBy(less))
  {
    var canonical := CanonicalBy(less);
    forall f: Formula, sigma: Trace, t: nat ensures Holds(sigma, f, t) <==> Holds(sigma, canonical(f), t) {
      CanonicalMeans(sigma, less, f);
      assert Sem(sigma, Canonical(less, f))(t) <==> Sem(sigma, f)(t);
    }
    forall f: Formula ensures Atoms(canonical(f)) <= Atoms(f) { CanonicalAtoms(less, f); }
    forall f: Formula | Plain(f) ensures canonical(f) == f { PlainIsCanonical(less, f); }
  }
}
