/** Clauses over the truth values of numbered atoms, and entailment between short ones. */
module Clauses {

  datatype Literal = Literal(atom: nat, positive: bool)

  type Clause = seq<Literal>

  /** The truth values of atoms 0, 1, .. */
  type Vector = seq<bool>

  function Negate(l: Literal): Literal {
    Literal(l.atom, !l.positive)
  }

  predicate LiteralHolds(v: Vector, l: Literal) {
    l.atom < |v| && v[l.atom] == l.positive
  }

  predicate Satisfies(v: Vector, c: Clause) {
    exists l :: l in c && LiteralHolds(v, l)
  }

  predicate Admits(clauses: seq<Clause>, v: Vector) {
    forall c :: c in clauses ==> Satisfies(v, c)
  }

  predicate Over(c: Clause, k: nat) {
    forall l :: l in c ==> l.atom < k
  }

  /** Every model of `clauses` over `k` atoms satisfies `target`. */
  ghost predicate Entailed(clauses: seq<Clause>, target: Clause, k: nat) {
    forall v: Vector :: |v| == k && Admits(clauses, v) ==> Satisfies(v, target)
  }

  ghost predicate Satisfiable(clauses: seq<Clause>, k: nat) {
    exists v: Vector :: |v| == k && Admits(clauses, v)
  }

  // -- The implication graph --------------------------------------------------------------------

  type Edges = map<Literal, set<Literal>>

  function Successors(edges: Edges, l: Literal): set<Literal> {
    if l in edges then edges[l] else {}
  }

  function AddEdge(edges: Edges, from: Literal, to: Literal): Edges {
    edges[from := Successors(edges, from) + {to}]
  }

  /** A binary clause lets `to` be concluded from `from`. */
  ghost predicate Forces(c: Clause, from: Literal, to: Literal) {
    |c| == 2 && ((Negate(from) == c[0] && to == c[1]) || (Negate(from) == c[1] && to == c[0]))
  }

  ghost predicate IsGraph(edges: Edges, clauses: seq<Clause>) {
    forall from, to :: to in Successors(edges, from) <==> exists c :: c in clauses && Forces(c, from, to)
  }

  method ImplicationGraph(clauses: seq<Clause>) returns (edges: Edges)
    ensures IsGraph(edges, clauses)
  {
    edges := map[];
    for n := 0 to |clauses|
      invariant IsGraph(edges, clauses[..n])
    {
      var c := clauses[n];
      ghost var before := edges;
      if |c| == 2 {
        edges := AddEdge(edges, Negate(c[0]), c[1]);
        edges := AddEdge(edges, Negate(c[1]), c[0]);
      }
      GraphGrows(before, edges, clauses[..n], c);
      assert clauses[..n + 1] == clauses[..n] + [c];
    }
    assert clauses[..|clauses|] == clauses;
  }

  lemma GraphGrows(before: Edges, after: Edges, clauses: seq<Clause>, c: Clause)
    requires IsGraph(before, clauses)
    requires after == if |c| == 2 then AddEdge(AddEdge(before, Negate(c[0]), c[1]), Negate(c[1]), c[0]) else before
    ensures IsGraph(after, clauses + [c])
  {
    forall from, to
      ensures to in Successors(after, from) <==> exists d :: d in clauses + [c] && Forces(d, from, to)
    {
      assert to in Successors(after, from) <==> to in Successors(before, from) || Forces(c, from, to);
      if to in Successors(before, from) {
        var d :| d in clauses && Forces(d, from, to);
        assert d in clauses + [c];
      }
      if Forces(c, from, to) { assert c in clauses + [c]; }
    }
  }

  /** The members of a set, in no particular order. */
  method AnyOrder(s: set<Literal>) returns (q: seq<Literal>)
    ensures forall l :: l in q <==> l in s
  {
    q := [];
    var rest := s;
    while rest != {}
      invariant rest <= s && forall l :: l in q <==> l in s - rest
      decreases rest
    {
      var l :| l in rest;
      q, rest := q + [l], rest - {l};
    }
  }

  ghost function AllLiterals(k: nat): set<Literal> {
    set i, b | 0 <= i < k && b in {true, false} :: Literal(i, b)
  }

  lemma AllLiteralsIn(k: nat, l: Literal)
    requires l.atom < k
    ensures l in AllLiterals(k)
  {
    assert l == Literal(l.atom, l.positive) && l.positive in {true, false};
  }

  /** What propagation starts from: the target denied, and the unit clauses. */
  ghost predicate Start(clauses: seq<Clause>, target: Clause, l: Literal) {
    Negate(l) in target || [l] in clauses
  }

  method StartLiterals(clauses: seq<Clause>, target: Clause) returns (todo: seq<Literal>)
    ensures forall l :: l in todo <==> Start(clauses, target, l)
  {
    todo := seq(|target|, i requires 0 <= i < |target| => Negate(target[i]));
    assert forall l :: l in todo <==> Negate(l) in target by {
      forall l ensures l in todo <==> Negate(l) in target {
        if Negate(l) in target {
          var i :| 0 <= i < |target| && target[i] == Negate(l);
          assert todo[i] == l;
        }
      }
    }
    for n := 0 to |clauses|
      invariant forall l :: l in todo <==> Negate(l) in target || [l] in clauses[..n]
    {
      var c := clauses[n];
      assert clauses[..n + 1] == clauses[..n] + [c];
      if |c| == 1 {
        assert c == [c[0]];
        todo := todo + [c[0]];
      }
    }
    assert clauses[..|clauses|] == clauses;
  }

  /** Every model of the clauses that falsifies the target satisfies `l`. */
  ghost predicate Consequence(clauses: seq<Clause>, target: Clause, k: nat, l: Literal) {
    l.atom < k &&
    forall v: Vector :: |v| == k && Admits(clauses, v) && !Satisfies(v, target) ==> LiteralHolds(v, l)
  }

  /** What propagation has reached so far: every start, closed under the edges, and nothing else. */
  ghost predicate Propagating(clauses: seq<Clause>, target: Clause, k: nat, edges: Edges,
                              seen: set<Literal>, todo: seq<Literal>) {
    && (forall l :: Start(clauses, target, l) ==> l in seen || l in todo)
    && (forall l, m :: l in seen && m in Successors(edges, l) ==> m in seen || m in todo)
    && (forall l :: l in seen || l in todo ==> Consequence(clauses, target, k, l))
  }

  lemma ConsequenceInRange(clauses: seq<Clause>, target: Clause, k: nat, l: Literal)
    requires Consequence(clauses, target, k, l)
    ensures l in AllLiterals(k)
  {
    AllLiteralsIn(k, l);
  }

  lemma StartsAreConsequences(clauses: seq<Clause>, target: Clause, k: nat, todo: seq<Literal>)
    requires forall c :: c in clauses ==> Over(c, k)
    requires Over(target, k)
    requires forall l :: l in todo <==> Start(clauses, target, l)
    ensures forall l :: l in todo ==> Consequence(clauses, target, k, l)
  {
    forall l | l in todo ensures Consequence(clauses, target, k, l) {
      if Negate(l) in target {
        assert Negate(l).atom < k;
      } else {
        assert l in [l];
        assert l.atom < k;
        forall v: Vector | |v| == k && Admits(clauses, v) ensures LiteralHolds(v, l) {
          assert Satisfies(v, [l]);
        }
      }
    }
  }

  lemma SuccessorsAreConsequences(clauses: seq<Clause>, target: Clause, k: nat, edges: Edges, l: Literal)
    requires IsGraph(edges, clauses) && Consequence(clauses, target, k, l)
    requires forall c :: c in clauses ==> Over(c, k)
    ensures forall m :: m in Successors(edges, l) ==> Consequence(clauses, target, k, m)
  {
    forall m | m in Successors(edges, l) ensures Consequence(clauses, target, k, m) {
      var c :| c in clauses && Forces(c, l, m);
      assert c[0] in c && c[1] in c && m.atom < k;
      forall v: Vector | |v| == k && Admits(clauses, v) && !Satisfies(v, target) ensures LiteralHolds(v, m) {
        assert Satisfies(v, c);
        assert LiteralHolds(v, l);
      }
    }
  }

  /** Drains `todo` along the edges, most recent literal first. */
  method Propagate(clauses: seq<Clause>, target: Clause, ghost k: nat) returns (seen: set<Literal>, ghost edges: Edges)
    requires forall c :: c in clauses ==> Over(c, k)
    requires Over(target, k)
    ensures IsGraph(edges, clauses) && Propagating(clauses, target, k, edges, seen, [])
  {
    hide Consequence, Start, IsGraph;
    var graph := ImplicationGraph(clauses);
    edges := graph;
    seen := {};
    var todo := StartLiterals(clauses, target);
    StartsAreConsequences(clauses, target, k, todo);
    while todo != []
      invariant Propagating(clauses, target, k, edges, seen, todo)
      decreases AllLiterals(k) - seen, |todo|
    {
      var lit := todo[|todo| - 1];
      ghost var before := todo;
      todo := todo[..|todo| - 1];
      assert before == todo + [lit];
      if lit !in seen {
        ConsequenceInRange(clauses, target, k, lit);
        var next := AnyOrder(Successors(graph, lit));
        SuccessorsAreConsequences(clauses, target, k, edges, lit);
        seen := seen + {lit};
        todo := todo + next;
      }
    }
  }

  /** Propagation finds a conflict exactly when the target is entailed, for satisfiable clauses of at
      most two literals; a conflict always means entailment. */
  method Entails(clauses: seq<Clause>, target: Clause, ghost k: nat) returns (entailed: bool)
    requires forall c :: c in clauses ==> |c| <= 2 && Over(c, k)
    requires Over(target, k)
    ensures entailed ==> Entailed(clauses, target, k)
    ensures Satisfiable(clauses, k) ==> (entailed <==> Entailed(clauses, target, k))
  {
    ghost var edges;
    var seen;
    seen, edges := Propagate(clauses, target, k);
    entailed := exists l :: l in seen && Negate(l) in seen;
    if entailed {
      ghost var l :| l in seen && Negate(l) in seen;
      ConflictEntails(clauses, target, k, l);
    } else if Satisfiable(clauses, k) {
      PropagationIsModel(clauses, target, k, edges, seen);
    }
  }

  lemma ConflictEntails(clauses: seq<Clause>, target: Clause, k: nat, l: Literal)
    requires Consequence(clauses, target, k, l) && Consequence(clauses, target, k, Negate(l))
    ensures Entailed(clauses, target, k)
  {
    forall v: Vector | |v| == k && Admits(clauses, v) ensures Satisfies(v, target) {
      assert !(LiteralHolds(v, l) && LiteralHolds(v, Negate(l)));
    }
  }

  /** A model with the literals reached by propagation laid over it. */
  function Override(v: Vector, seen: set<Literal>): Vector {
    seq(|v|, i requires 0 <= i < |v| =>
      if Literal(i, true) in seen then true else if Literal(i, false) in seen then false else v[i])
  }

  lemma OverrideHolds(v: Vector, seen: set<Literal>, l: Literal)
    requires l.atom < |v| && !(Literal(l.atom, true) in seen && Literal(l.atom, false) in seen)
    ensures LiteralHolds(Override(v, seen), l) <==> l in seen || (Negate(l) !in seen && LiteralHolds(v, l))
  {
    assert l == Literal(l.atom, l.positive);
  }

  /** Propagation without a conflict leaves a model of the clauses that falsifies the target. */
  lemma PropagationIsModel(clauses: seq<Clause>, target: Clause, k: nat, edges: Edges, seen: set<Literal>)
    requires forall c :: c in clauses ==> |c| <= 2 && Over(c, k)
    requires Over(target, k) && Satisfiable(clauses, k) && IsGraph(edges, clauses)
    requires forall l :: Start(clauses, target, l) ==> l in seen
    requires forall l, m :: l in seen && m in Successors(edges, l) ==> m in seen
    requires !exists l :: l in seen && Negate(l) in seen
    ensures !Entailed(clauses, target, k)
  {
    var v: Vector :| |v| == k && Admits(clauses, v);
    var w := Override(v, seen);
    forall c | c in clauses ensures Satisfies(w, c) {
      ClauseSurvives(clauses, target, k, edges, seen, v, c);
    }
    forall l | l in target ensures !LiteralHolds(w, l) {
      assert Start(clauses, target, Negate(l)) by { assert Negate(Negate(l)) == l; }
      NoConflictAt(seen, l.atom);
      OverrideHolds(v, seen, l);
      assert Negate(l) in seen;
    }
    assert Admits(clauses, w) && !Satisfies(w, target);
  }

  lemma NoConflictAt(seen: set<Literal>, i: nat)
    requires !exists l :: l in seen && Negate(l) in seen
    ensures !(Literal(i, true) in seen && Literal(i, false) in seen)
  {
    assert Negate(Literal(i, true)) == Literal(i, false);
  }

  lemma ClauseSurvives(clauses: seq<Clause>, target: Clause, k: nat, edges: Edges, seen: set<Literal>,
                       v: Vector, c: Clause)
    requires c in clauses && |c| <= 2 && Over(c, k) && |v| == k && Satisfies(v, c) && IsGraph(edges, clauses)
    requires forall l :: Start(clauses, target, l) ==> l in seen
    requires forall l, m :: l in seen && m in Successors(edges, l) ==> m in seen
    requires !exists l :: l in seen && Negate(l) in seen
    ensures Satisfies(Override(v, seen), c)
  {
    var l :| l in c && LiteralHolds(v, l);
    NoConflictAt(seen, l.atom);
    OverrideHolds(v, seen, l);
    if |c| == 1 { assert c == [l] && Start(clauses, target, l) && l in seen; }
    if Negate(l) in seen {
      assert |c| == 2;
      var m := if l == c[0] then c[1] else c[0];
      assert Negate(Negate(l)) == l && Forces(c, Negate(l), m);
      assert m in Successors(edges, Negate(l)) && m in c;
      NoConflictAt(seen, m.atom);
      OverrideHolds(v, seen, m);
    }
  }
}
