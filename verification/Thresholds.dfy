/** Clauses for what one variable is compared with: the chain its thresholds form. */
module Thresholds {
  import opened Clauses
  import opened CnfSynthesis
  import Comparisons

  // -- One variable against numbers -------------------------------------------------------------

  function Highest(preds: seq<Comparisons.Pred>, c: Clause): real
    requires c != [] && Over(c, |preds|)
  {
    assert c[0] in c;
    var x := preds[c[0].atom].c;
    if |c| == 1 then x else
      assert Over(c[1..], |preds|);
      var rest := Highest(preds, c[1..]);
      if x > rest then x else rest
  }

  function Lowest(preds: seq<Comparisons.Pred>, c: Clause): real
    requires c != [] && Over(c, |preds|)
  {
    assert c[0] in c;
    var x := preds[c[0].atom].c;
    if |c| == 1 then x else
      assert Over(c[1..], |preds|);
      var rest := Lowest(preds, c[1..]);
      if x < rest then x else rest
  }

  function Span(preds: seq<Comparisons.Pred>, c: Clause): real {
    if c != [] && Over(c, |preds|) then Highest(preds, c) - Lowest(preds, c) else 0.0
  }

  /** A clause that holds at every value of the domain. */
  ghost predicate HoldsThroughout(preds: seq<Comparisons.Pred>, integer: bool, unsigned: bool, c: Clause) {
    forall v :: Comparisons.Realised(preds, integer, unsigned, v) ==> Satisfies(v, c)
  }

  predicate IsOrdering(op: Comparisons.Op) {
    !op.Eq? && !op.Ne?
  }

  /** No literal of a clause can be dropped. */
  ghost predicate NothingToDrop(preds: seq<Comparisons.Pred>, integer: bool, unsigned: bool, clauses: seq<Clause>) {
    forall c, l :: c in clauses && l in c ==> !HoldsThroughout(preds, integer, unsigned, Drop(c, l))
  }

  /** What holds throughout and has at most two literals follows from the clauses that have. */
  ghost predicate GivesShort(preds: seq<Comparisons.Pred>, integer: bool, unsigned: bool, clauses: seq<Clause>) {
    forall c: Clause, v: Vector ::
      |c| <= 2 && Over(c, |preds|) && HoldsThroughout(preds, integer, unsigned, c) && |v| == |preds| && AdmitsSmall(clauses, v)
      ==> Satisfies(v, c)
  }

  /** No binary clause reaches across the threshold of an ordering. */
  ghost predicate NeighboursOnly(preds: seq<Comparisons.Pred>, clauses: seq<Clause>) {
    forall c, m: nat :: c in clauses && |c| == 2 && Over(c, |preds|) && m < |preds| && IsOrdering(preds[m].op) ==>
      !(Lowest(preds, c) < preds[m].c < Highest(preds, c))
  }

  /** The models of the result are the truth vectors some value of the variable realises. No literal of
      a clause can be dropped, the short clauses give every short consequence, and the binary ones form
      a chain that the thresholds of orderings cut, and nothing else that lies between two comparisons
      that vary. */
  method DomainClauses(preds: seq<Comparisons.Pred>, integer: bool, unsigned: bool) returns (clauses: seq<Clause>)
    requires preds != []
    ensures forall v: Vector :: |v| == |preds| ==>
              (Admits(clauses, v) <==> Comparisons.Realised(preds, integer, unsigned, v))
    ensures forall c :: c in clauses ==> Over(c, |preds|)
    ensures forall c :: c in clauses && |c| == 2 ==> !Redundant(clauses, c, |preds|)
    ensures NothingToDrop(preds, integer, unsigned, clauses) && GivesShort(preds, integer, unsigned, clauses)
    ensures forall t: real :: Crossed(preds, clauses, t) <==> Uncut(preds, integer, unsigned, t)
  {
    var truths := Comparisons.SampledVectors(preds, integer, unsigned);
    var span := c => Span(preds, c);
    SomeVector(preds, integer, unsigned, truths);
    clauses := ExactClauses(truths, |preds|, span);
    ForcedThroughout(preds, integer, unsigned, truths, clauses);
    ChainOfNeighbours(preds, integer, unsigned, truths, clauses, span);
    forall t: real ensures Crossed(preds, clauses, t) <==> Uncut(preds, integer, unsigned, t) {
      CrossedExactly(preds, integer, unsigned, clauses, t);
    }
  }

  lemma SomeVector(preds: seq<Comparisons.Pred>, integer: bool, unsigned: bool, truths: set<Vector>)
    requires forall v :: v in truths <==> Comparisons.Realised(preds, integer, unsigned, v)
    ensures truths != {} && Sized(truths, |preds|)
  {
    assert (0.0).Floor == 0;
    assert Comparisons.InDomain(0.0, integer, unsigned);
    assert Comparisons.VectorAt(preds, 0.0) in truths;
  }

  lemma ForcedThroughout(preds: seq<Comparisons.Pred>, integer: bool, unsigned: bool, truths: set<Vector>,
                         clauses: seq<Clause>)
    requires forall v :: v in truths <==> Comparisons.Realised(preds, integer, unsigned, v)
    requires ShortComplete(truths, clauses, |preds|) && forall c :: c in clauses ==> Tight(truths, c)
    ensures NothingToDrop(preds, integer, unsigned, clauses) && GivesShort(preds, integer, unsigned, clauses)
  {
    forall c ensures Forced(truths, c) <==> HoldsThroughout(preds, integer, unsigned, c) {}
    forall c, l | c in clauses && l in c ensures !HoldsThroughout(preds, integer, unsigned, Drop(c, l)) {
      assert !Forced(truths, Drop(c, l));
    }
  }

  lemma ChainOfNeighbours(preds: seq<Comparisons.Pred>, integer: bool, unsigned: bool, truths: set<Vector>,
                          clauses: seq<Clause>, span: Clause -> real)
    requires forall v :: v in truths <==> Comparisons.Realised(preds, integer, unsigned, v)
    requires Sized(truths, |preds|) && Exact(truths, clauses, |preds|) && forall c :: c in clauses ==> Tight(truths, c)
    requires forall c :: c in clauses && |c| == 2 ==> Needed(truths, c, |preds|, span)
    requires forall d :: span(d) == Span(preds, d)
    ensures NeighboursOnly(preds, clauses)
  {
    forall c, m: nat | c in clauses && |c| == 2 && Over(c, |preds|) && m < |preds| && IsOrdering(preds[m].op)
      ensures !(Lowest(preds, c) < preds[m].c < Highest(preds, c))
    {
      forall v | v in truths ensures Satisfies(v, c) { assert Admits(clauses, v); }
      NoThresholdBetween(preds, integer, unsigned, truths, c, m, span);
    }
  }

  // -- Neighbouring thresholds ------------------------------------------------------------------

  /** Whether a literal fails at a value. */
  predicate Fails(preds: seq<Comparisons.Pred>, l: Literal, x: real)
    requires l.atom < |preds|
  {
    Comparisons.OpHolds(preds[l.atom].op, x, preds[l.atom].c) != l.positive
  }

  lemma FailsInVector(preds: seq<Comparisons.Pred>, l: Literal, x: real)
    requires l.atom < |preds|
    ensures Fails(preds, l, x) <==> !LiteralHolds(Comparisons.VectorAt(preds, x), l)
  {}

  /** Beyond its threshold a comparison no longer changes. */
  lemma SameBeyond(preds: seq<Comparisons.Pred>, l: Literal, x: real, y: real)
    requires l.atom < |preds|
    requires (preds[l.atom].c < x && preds[l.atom].c < y) || (x < preds[l.atom].c && y < preds[l.atom].c)
    ensures Fails(preds, l, x) == Fails(preds, l, y)
  {}

  /** Two literals that never fail together, each failing somewhere, fail on different sides of any
      value between their thresholds. */
  lemma SidesOfThreshold(preds: seq<Comparisons.Pred>, integer: bool, unsigned: bool, l: Literal, h: Literal, t: real,
                         xl: real, xh: real, x: real)
    requires l.atom < |preds| && h.atom < |preds| && preds[l.atom].c < t < preds[h.atom].c
    requires Comparisons.InDomain(xl, integer, unsigned) && Fails(preds, l, xl)
    requires Comparisons.InDomain(xh, integer, unsigned) && Fails(preds, h, xh)
    requires Comparisons.InDomain(x, integer, unsigned)
    requires forall y :: Comparisons.InDomain(y, integer, unsigned) ==> !(Fails(preds, l, y) && Fails(preds, h, y))
    ensures xl != t && (Fails(preds, l, x) ==> if xl < t then x < t else x > t)
    ensures Fails(preds, h, x) ==> if xl < t then x > t else x < t
  {
    if xl >= t && xh >= t { SameBeyond(preds, l, xl, xh); }
    if xl <= t && xh <= t { SameBeyond(preds, h, xl, xh); }
    if Fails(preds, l, x) {
      if x >= t && xh >= t { SameBeyond(preds, l, x, xh); }
      if x <= t && xh <= t { SameBeyond(preds, h, x, xh); }
    }
    if Fails(preds, h, x) {
      if x <= t && xl <= t { SameBeyond(preds, h, x, xl); }
      if x >= t && xl >= t { SameBeyond(preds, l, x, xl); }
    }
  }

  /** The literal of an ordering that holds above its threshold and fails below. */
  function Upward(preds: seq<Comparisons.Pred>, m: nat): Literal
    requires m < |preds|
  {
    Literal(m, preds[m].op.Gt? || preds[m].op.Ge?)
  }

  lemma UpwardIs(preds: seq<Comparisons.Pred>, m: nat, x: real)
    requires m < |preds| && IsOrdering(preds[m].op)
    ensures x > preds[m].c ==> !Fails(preds, Upward(preds, m), x) && Fails(preds, Negate(Upward(preds, m)), x)
    ensures x < preds[m].c ==> Fails(preds, Upward(preds, m), x) && !Fails(preds, Negate(Upward(preds, m)), x)
  {}

  /** The value at which the one literal of a tight pair fails. */
  lemma TightFails(preds: seq<Comparisons.Pred>, integer: bool, unsigned: bool, truths: set<Vector>, c: Clause, l: Literal,
                   other: Literal) returns (x: real)
    requires forall v :: v in truths <==> Comparisons.Realised(preds, integer, unsigned, v)
    requires Tight(truths, c) && l in c && other in c && l != other && (forall d :: d in c ==> d == l || d == other)
    requires l.atom < |preds| && other.atom < |preds|
    ensures Comparisons.InDomain(x, integer, unsigned) && Fails(preds, other, x)
  {
    var v :| v in truths && !Satisfies(v, Drop(c, l));
    x :| Comparisons.InDomain(x, integer, unsigned) && v == Comparisons.VectorAt(preds, x);
    assert other in Drop(c, l);
    FailsInVector(preds, other, x);
  }

  lemma PairForced(preds: seq<Comparisons.Pred>, integer: bool, unsigned: bool, truths: set<Vector>, a: Literal, b: Literal)
    requires forall v :: v in truths <==> Comparisons.Realised(preds, integer, unsigned, v)
    requires a.atom < |preds| && b.atom < |preds|
    requires forall x :: Comparisons.InDomain(x, integer, unsigned) ==> !(Fails(preds, a, x) && Fails(preds, b, x))
    ensures Forced(truths, InOrder([a, b])) && Over(InOrder([a, b]), |preds|)
  {
    var d := InOrder([a, b]);
    assert a in d && b in d;
    forall v | v in truths ensures Satisfies(v, d) {
      var x :| Comparisons.InDomain(x, integer, unsigned) && v == Comparisons.VectorAt(preds, x);
      FailsInVector(preds, a, x);
      FailsInVector(preds, b, x);
    }
  }

  lemma PairFails(preds: seq<Comparisons.Pred>, integer: bool, unsigned: bool, truths: set<Vector>, c: Clause, a: Literal,
                  b: Literal)
    requires forall v :: v in truths <==> Comparisons.Realised(preds, integer, unsigned, v)
    requires Forced(truths, c) && (forall l :: l in c ==> l == a || l == b) && a.atom < |preds| && b.atom < |preds|
    ensures forall x :: Comparisons.InDomain(x, integer, unsigned) ==> !(Fails(preds, a, x) && Fails(preds, b, x))
  {
    forall x | Comparisons.InDomain(x, integer, unsigned) ensures !(Fails(preds, a, x) && Fails(preds, b, x)) {
      var v := Comparisons.VectorAt(preds, x);
      assert v in truths && Satisfies(v, c);
      FailsInVector(preds, a, x);
      FailsInVector(preds, b, x);
    }
  }

  lemma PairSpan(preds: seq<Comparisons.Pred>, a: Literal, b: Literal)
    requires a.atom < |preds| && b.atom < |preds|
    ensures Span(preds, [a, b]) == Span(preds, [b, a])
    ensures preds[a.atom].c <= preds[b.atom].c ==> Span(preds, [a, b]) == preds[b.atom].c - preds[a.atom].c
  {
    PairExtremes(preds, a, b);
    PairExtremes(preds, b, a);
  }

  lemma PairExtremes(preds: seq<Comparisons.Pred>, a: Literal, b: Literal)
    requires a.atom < |preds| && b.atom < |preds|
    ensures Over([a, b], |preds|)
    ensures Highest(preds, [a, b]) == (if preds[a.atom].c > preds[b.atom].c then preds[a.atom].c else preds[b.atom].c)
    ensures Lowest(preds, [a, b]) == (if preds[a.atom].c < preds[b.atom].c then preds[a.atom].c else preds[b.atom].c)
  {
    assert [a, b][1..] == [b];
  }

  /** A vector that satisfies two pairs resolves them. */
  lemma Resolves(v: Vector, a: Literal, b: Literal, l: Literal, c: Clause)
    requires a in c && b in c && Satisfies(v, InOrder([a, Negate(l)])) && Satisfies(v, InOrder([b, l]))
    ensures Satisfies(v, c)
  {
    assert !(LiteralHolds(v, l) && LiteralHolds(v, Negate(l)));
  }

  lemma InOrderPlaces(a: Literal, b: Literal)
    requires a.atom != b.atom
    ensures |InOrder([a, b])| == 2 && Place(InOrder([a, b])[0]) < Place(InOrder([a, b])[1])
  {
    PlacesDiffer(a, b);
  }

  /** Either literal, or the ordering between them on the side where the other fails. */
  lemma ThresholdForces(preds: seq<Comparisons.Pred>, integer: bool, unsigned: bool, truths: set<Vector>, l: Literal,
                        h: Literal, m: nat, xl: real, xh: real)
    requires forall v :: v in truths <==> Comparisons.Realised(preds, integer, unsigned, v)
    requires l.atom < |preds| && h.atom < |preds| && m < |preds| && IsOrdering(preds[m].op)
    requires preds[l.atom].c < preds[m].c < preds[h.atom].c
    requires Comparisons.InDomain(xl, integer, unsigned) && Fails(preds, l, xl)
    requires Comparisons.InDomain(xh, integer, unsigned) && Fails(preds, h, xh)
    requires forall y :: Comparisons.InDomain(y, integer, unsigned) ==> !(Fails(preds, l, y) && Fails(preds, h, y))
    ensures var lit := if xl < preds[m].c then Upward(preds, m) else Negate(Upward(preds, m));
            && lit.atom == m
            && Forced(truths, InOrder([l, Negate(lit)])) && Over(InOrder([l, Negate(lit)]), |preds|)
            && Forced(truths, InOrder([h, lit])) && Over(InOrder([h, lit]), |preds|)
  {
    var t, up := preds[m].c, Upward(preds, m);
    var lit := if xl < t then up else Negate(up);
    forall x | Comparisons.InDomain(x, integer, unsigned)
      ensures !(Fails(preds, l, x) && Fails(preds, Negate(lit), x)) && !(Fails(preds, h, x) && Fails(preds, lit, x))
    {
      SidesOfThreshold(preds, integer, unsigned, l, h, t, xl, xh, x);
      UpwardIs(preds, m, x);
      assert Negate(Negate(up)) == up;
    }
    PairForced(preds, integer, unsigned, truths, l, Negate(lit));
    PairForced(preds, integer, unsigned, truths, h, lit);
  }

  /** A pair spanning the threshold of an ordering follows from two narrower pairs through it. */
  lemma PairThrough(preds: seq<Comparisons.Pred>, integer: bool, unsigned: bool, truths: set<Vector>, c: Clause,
                    l: Literal, h: Literal, m: nat, xl: real, xh: real, v: Vector, span: Clause -> real)
    requires forall v :: v in truths <==> Comparisons.Realised(preds, integer, unsigned, v)
    requires l.atom < |preds| && h.atom < |preds| && m < |preds| && IsOrdering(preds[m].op)
    requires preds[l.atom].c < preds[m].c < preds[h.atom].c
    requires Comparisons.InDomain(xl, integer, unsigned) && Fails(preds, l, xl)
    requires Comparisons.InDomain(xh, integer, unsigned) && Fails(preds, h, xh)
    requires forall y :: Comparisons.InDomain(y, integer, unsigned) ==> !(Fails(preds, l, y) && Fails(preds, h, y))
    requires l in c && h in c && span(c) == preds[h.atom].c - preds[l.atom].c
    requires forall d :: span(d) == Span(preds, d)
    requires AdmitsNarrowerForced(truths, c, |preds|, span, v)
    ensures Satisfies(v, c)
  {
    hide Fails, Span;
    var t, up := preds[m].c, Upward(preds, m);
    var lit := if xl < t then up else Negate(up);
    ThresholdForces(preds, integer, unsigned, truths, l, h, m, xl, xh);
    InOrderPlaces(l, Negate(lit));
    InOrderPlaces(h, lit);
    PairSpan(preds, l, Negate(lit));
    PairSpan(preds, lit, h);
    assert IsNarrowerPair(InOrder([l, Negate(lit)]), c, span) && IsNarrowerPair(InOrder([h, lit]), c, span);
    Resolves(v, l, h, lit, c);
  }

  lemma AcrossIsNotNeeded(preds: seq<Comparisons.Pred>, integer: bool, unsigned: bool, truths: set<Vector>, c: Clause,
                          l: Literal, h: Literal, m: nat, span: Clause -> real)
    requires forall v :: v in truths <==> Comparisons.Realised(preds, integer, unsigned, v)
    requires Forced(truths, c) && Tight(truths, c) && l in c && h in c && forall d :: d in c ==> d == l || d == h
    requires l.atom < |preds| && h.atom < |preds| && m < |preds| && IsOrdering(preds[m].op)
    requires preds[l.atom].c < preds[m].c < preds[h.atom].c
    requires span(c) == preds[h.atom].c - preds[l.atom].c && forall d :: span(d) == Span(preds, d)
    ensures !Needed(truths, c, |preds|, span)
  {
    var xh := TightFails(preds, integer, unsigned, truths, c, l, h);
    var xl := TightFails(preds, integer, unsigned, truths, c, h, l);
    PairFails(preds, integer, unsigned, truths, c, l, h);
    forall v: Vector | |v| == |preds| && AdmitsNarrowerForced(truths, c, |preds|, span, v) ensures Satisfies(v, c) {
      PairThrough(preds, integer, unsigned, truths, c, l, h, m, xl, xh, v, span);
    }
  }

  lemma NoThresholdBetween(preds: seq<Comparisons.Pred>, integer: bool, unsigned: bool, truths: set<Vector>, c: Clause,
                           m: nat, span: Clause -> real)
    requires forall v :: v in truths <==> Comparisons.Realised(preds, integer, unsigned, v)
    requires |c| == 2 && Over(c, |preds|) && Forced(truths, c) && Tight(truths, c) && Needed(truths, c, |preds|, span)
    requires m < |preds| && IsOrdering(preds[m].op) && forall d :: span(d) == Span(preds, d)
    ensures !(Lowest(preds, c) < preds[m].c < Highest(preds, c))
  {
    var a, b := c[0], c[1];
    MembersOfPair(preds, c);
    if preds[a.atom].c < preds[m].c < preds[b.atom].c {
      AcrossIsNotNeeded(preds, integer, unsigned, truths, c, a, b, m, span);
    } else if preds[b.atom].c < preds[m].c < preds[a.atom].c {
      AcrossIsNotNeeded(preds, integer, unsigned, truths, c, b, a, m, span);
    }
  }

  lemma MembersOfPair(preds: seq<Comparisons.Pred>, c: Clause)
    requires |c| == 2 && Over(c, |preds|)
    ensures c[0] in c && c[1] in c && c[0].atom < |preds| && c[1].atom < |preds|
    ensures forall d :: d in c ==> d == c[0] || d == c[1]
    ensures var x, y := preds[c[0].atom].c, preds[c[1].atom].c;
      && Lowest(preds, c) == (if x < y then x else y) && Highest(preds, c) == (if x > y then x else y)
      && Span(preds, c) == if x < y then y - x else x - y
  {
    assert c == [c[0], c[1]];
    PairExtremes(preds, c[0], c[1]);
  }

  // -- Where the chain is not cut ---------------------------------------------------------------

  /** A binary clause reaches across `t`. */
  ghost predicate Crossed(preds: seq<Comparisons.Pred>, clauses: seq<Clause>, t: real) {
    exists c :: c in clauses && Crosses(preds, c, t)
  }

  predicate Crosses(preds: seq<Comparisons.Pred>, c: Clause, t: real) {
    |c| == 2 && Over(c, |preds|) && Lowest(preds, c) < t < Highest(preds, c)
  }

  predicate TruthAt(preds: seq<Comparisons.Pred>, m: nat, x: real)
    requires m < |preds|
  {
    Comparisons.OpHolds(preds[m].op, x, preds[m].c)
  }

  /** A comparison that takes both truth values over the domain. */
  ghost predicate Varies(preds: seq<Comparisons.Pred>, integer: bool, unsigned: bool, m: nat) {
    m < |preds| &&
    exists x, y :: Comparisons.InDomain(x, integer, unsigned) && Comparisons.InDomain(y, integer, unsigned)
                   && TruthAt(preds, m, x) && !TruthAt(preds, m, y)
  }

  /** Nothing cuts the chain at `t`, and on either side of it some comparison varies. */
  ghost predicate Uncut(preds: seq<Comparisons.Pred>, integer: bool, unsigned: bool, t: real) {
    && (forall m: nat :: m < |preds| && IsOrdering(preds[m].op) ==> preds[m].c != t)
    && (exists m: nat :: Varies(preds, integer, unsigned, m) && preds[m].c < t)
    && (exists m: nat :: Varies(preds, integer, unsigned, m) && preds[m].c > t)
  }

  /** What the clauses of a domain are known to do. */
  ghost predicate DescribesDomain(preds: seq<Comparisons.Pred>, integer: bool, unsigned: bool, clauses: seq<Clause>) {
    && (forall v: Vector :: |v| == |preds| ==> (Admits(clauses, v) <==> Comparisons.Realised(preds, integer, unsigned, v)))
    && (forall c :: c in clauses ==> Over(c, |preds|))
    && NothingToDrop(preds, integer, unsigned, clauses) && GivesShort(preds, integer, unsigned, clauses)
  }

  lemma ClausesHoldThroughout(preds: seq<Comparisons.Pred>, integer: bool, unsigned: bool, clauses: seq<Clause>, c: Clause)
    requires DescribesDomain(preds, integer, unsigned, clauses) && c in clauses
    ensures HoldsThroughout(preds, integer, unsigned, c)
  {
    forall v | Comparisons.Realised(preds, integer, unsigned, v) ensures Satisfies(v, c) { assert Admits(clauses, v); }
  }

  /** A value at which a literal fails, where a clause without it would not hold throughout. */
  lemma FailsSomewhere(preds: seq<Comparisons.Pred>, integer: bool, unsigned: bool, c: Clause, l: Literal, other: Literal)
    returns (x: real)
    requires !HoldsThroughout(preds, integer, unsigned, Drop(c, other)) && l in c && l != other && l.atom < |preds|
    ensures Comparisons.InDomain(x, integer, unsigned) && Fails(preds, l, x)
  {
    var v :| Comparisons.Realised(preds, integer, unsigned, v) && !Satisfies(v, Drop(c, other));
    x :| Comparisons.InDomain(x, integer, unsigned) && v == Comparisons.VectorAt(preds, x);
    assert l in Drop(c, other);
    FailsInVector(preds, l, x);
  }

  lemma PairAt(preds: seq<Comparisons.Pred>, integer: bool, unsigned: bool, c: Clause, l: Literal, h: Literal, x: real)
    requires HoldsThroughout(preds, integer, unsigned, c) && Comparisons.InDomain(x, integer, unsigned)
    requires l.atom < |preds| && h.atom < |preds| && forall d :: d in c ==> d == l || d == h
    ensures !Fails(preds, l, x) || !Fails(preds, h, x)
  {
    assert Satisfies(Comparisons.VectorAt(preds, x), c);
    FailsInVector(preds, l, x);
    FailsInVector(preds, h, x);
  }

  /** Neither comparison of a pair nothing can be dropped from is constant. */
  lemma PairVaries(preds: seq<Comparisons.Pred>, integer: bool, unsigned: bool, c: Clause, l: Literal, h: Literal)
    requires HoldsThroughout(preds, integer, unsigned, c) && l in c && h in c && l != h
    requires l.atom < |preds| && h.atom < |preds| && forall d :: d in c ==> d == l || d == h
    requires !HoldsThroughout(preds, integer, unsigned, Drop(c, l)) && !HoldsThroughout(preds, integer, unsigned, Drop(c, h))
    ensures Varies(preds, integer, unsigned, l.atom)
  {
    var x := FailsSomewhere(preds, integer, unsigned, c, l, h);
    var y := FailsSomewhere(preds, integer, unsigned, c, h, l);
    PairAt(preds, integer, unsigned, c, l, h, y);
    assert TruthAt(preds, l.atom, x) == !l.positive && TruthAt(preds, l.atom, y) == l.positive;
  }

  lemma CrossedIsUncut(preds: seq<Comparisons.Pred>, integer: bool, unsigned: bool, clauses: seq<Clause>, c: Clause, t: real)
    requires DescribesDomain(preds, integer, unsigned, clauses) && NeighboursOnly(preds, clauses)
    requires c in clauses && Crosses(preds, c, t)
    ensures Uncut(preds, integer, unsigned, t)
  {
    var l, h := c[0], c[1];
    MembersOfPair(preds, c);
    ClausesHoldThroughout(preds, integer, unsigned, clauses, c);
    PairVaries(preds, integer, unsigned, c, l, h);
    PairVaries(preds, integer, unsigned, c, h, l);
  }

  /** The vector that is `x`'s on the comparisons up to `t` and `y`'s beyond. */
  function Glue(preds: seq<Comparisons.Pred>, t: real, x: real, y: real): (v: Vector)
    ensures |v| == |preds|
  {
    seq(|preds|, m requires 0 <= m < |preds| => TruthAt(preds, m, if preds[m].c <= t then x else y))
  }

  /** Where it only compares with what is on one side of `t`, a clause cannot tell. */
  lemma GlueMeets(preds: seq<Comparisons.Pred>, integer: bool, unsigned: bool, c: Clause, t: real, x: real, y: real)
    requires HoldsThroughout(preds, integer, unsigned, c) && Over(c, |preds|) && x < t < y
    requires Comparisons.InDomain(x, integer, unsigned) && Comparisons.InDomain(y, integer, unsigned)
    requires forall m: nat :: m < |preds| && IsOrdering(preds[m].op) ==> preds[m].c != t
    requires (forall l: Literal :: l in c ==> preds[l.atom].c <= t) || (forall l: Literal :: l in c ==> preds[l.atom].c >= t)
    ensures Satisfies(Glue(preds, t, x, y), c)
  {
    var z := if forall l: Literal :: l in c ==> preds[l.atom].c <= t then x else y;
    assert Satisfies(Comparisons.VectorAt(preds, z), c);
    var l :| l in c && LiteralHolds(Comparisons.VectorAt(preds, z), l);
    assert TruthAt(preds, l.atom, z) == l.positive;
    assert LiteralHolds(Glue(preds, t, x, y), l);
  }

  lemma OneSided(preds: seq<Comparisons.Pred>, c: Clause, t: real)
    requires |c| <= 2 && Over(c, |preds|) && !Crosses(preds, c, t)
    ensures (forall l: Literal :: l in c ==> preds[l.atom].c <= t) || (forall l: Literal :: l in c ==> preds[l.atom].c >= t)
  {
    if |c| == 2 {
      MembersOfPair(preds, c);
    } else if |c| == 1 {
      assert forall l :: l in c ==> l == c[0];
    }
  }

  /** Where a comparison below `t` has the truth it does not have above its threshold, and one above `t`
      the truth it does not have below. */
  lemma OddValue(preds: seq<Comparisons.Pred>, integer: bool, unsigned: bool, m: nat, t: real, above: bool) returns (x: real, b: bool)
    requires Varies(preds, integer, unsigned, m) && if above then preds[m].c > t else preds[m].c < t
    ensures Comparisons.InDomain(x, integer, unsigned) && TruthAt(preds, m, x) != b
    ensures if above then x > t && forall z: real :: z < preds[m].c ==> TruthAt(preds, m, z) == b
            else x < t && forall z: real :: z > preds[m].c ==> TruthAt(preds, m, z) == b
  {
    var c := preds[m].c;
    var p, q :| Comparisons.InDomain(p, integer, unsigned) && Comparisons.InDomain(q, integer, unsigned)
                && TruthAt(preds, m, p) && !TruthAt(preds, m, q);
    b := TruthAt(preds, m, if above then c - 1.0 else c + 1.0);
    x := if b then q else p;
  }

  /** The pair that holds on either side of `t` for a reason of its own. */
  lemma StraddleHolds(preds: seq<Comparisons.Pred>, integer: bool, unsigned: bool, l: Literal, h: Literal)
    requires l.atom < |preds| && h.atom < |preds| && preds[l.atom].c < preds[h.atom].c
    requires forall z: real :: z > preds[l.atom].c ==> TruthAt(preds, l.atom, z) == l.positive
    requires forall z: real :: z < preds[h.atom].c ==> TruthAt(preds, h.atom, z) == h.positive
    ensures HoldsThroughout(preds, integer, unsigned, [l, h])
  {
    forall v | Comparisons.Realised(preds, integer, unsigned, v) ensures Satisfies(v, [l, h]) {
      var z :| Comparisons.InDomain(z, integer, unsigned) && v == Comparisons.VectorAt(preds, z);
      var met := if z > preds[l.atom].c then l else h;
      assert met in [l, h] && TruthAt(preds, met.atom, z) == met.positive;
      assert LiteralHolds(v, met);
    }
  }

  /** A short consequence that reaches across `t`, and a vector that breaks it. */
  lemma StraddlingPair(preds: seq<Comparisons.Pred>, integer: bool, unsigned: bool, t: real)
    returns (pair: Clause, x: real, y: real)
    requires Uncut(preds, integer, unsigned, t)
    ensures x < t < y && Comparisons.InDomain(x, integer, unsigned) && Comparisons.InDomain(y, integer, unsigned)
    ensures |pair| == 2 && Over(pair, |preds|) && HoldsThroughout(preds, integer, unsigned, pair)
    ensures !Satisfies(Glue(preds, t, x, y), pair)
  {
    var i: nat :| Varies(preds, integer, unsigned, i) && preds[i].c < t;
    var j: nat :| Varies(preds, integer, unsigned, j) && preds[j].c > t;
    var a, b;
    x, a := OddValue(preds, integer, unsigned, i, t, false);
    y, b := OddValue(preds, integer, unsigned, j, t, true);
    var l, h := Literal(i, a), Literal(j, b);
    pair := [l, h];
    StraddleHolds(preds, integer, unsigned, l, h);
    GlueBreaks(preds, l, h, t, x, y);
  }

  lemma UncutIsCrossed(preds: seq<Comparisons.Pred>, integer: bool, unsigned: bool, clauses: seq<Clause>, t: real)
    requires DescribesDomain(preds, integer, unsigned, clauses) && Uncut(preds, integer, unsigned, t)
    ensures Crossed(preds, clauses, t)
  {
    var pair, x, y := StraddlingPair(preds, integer, unsigned, t);
    PairUnmet(preds, integer, unsigned, clauses, pair, t, x, y);
  }

  /** A short consequence the glued vector breaks is the work of a clause across `t`. */
  lemma PairUnmet(preds: seq<Comparisons.Pred>, integer: bool, unsigned: bool, clauses: seq<Clause>, pair: Clause,
                  t: real, x: real, y: real)
    requires DescribesDomain(preds, integer, unsigned, clauses) && x < t < y
    requires Comparisons.InDomain(x, integer, unsigned) && Comparisons.InDomain(y, integer, unsigned)
    requires forall m: nat :: m < |preds| && IsOrdering(preds[m].op) ==> preds[m].c != t
    requires |pair| <= 2 && Over(pair, |preds|) && HoldsThroughout(preds, integer, unsigned, pair)
    requires !Satisfies(Glue(preds, t, x, y), pair)
    ensures Crossed(preds, clauses, t)
  {
    var c := UnmetShort(preds, integer, unsigned, clauses, pair, Glue(preds, t, x, y));
    UnmetCrosses(preds, integer, unsigned, c, t, x, y);
  }

  lemma UnmetCrosses(preds: seq<Comparisons.Pred>, integer: bool, unsigned: bool, c: Clause, t: real, x: real, y: real)
    requires HoldsThroughout(preds, integer, unsigned, c) && Over(c, |preds|) && |c| <= 2 && x < t < y
    requires Comparisons.InDomain(x, integer, unsigned) && Comparisons.InDomain(y, integer, unsigned)
    requires forall m: nat :: m < |preds| && IsOrdering(preds[m].op) ==> preds[m].c != t
    requires !Satisfies(Glue(preds, t, x, y), c)
    ensures Crosses(preds, c, t)
  {
    if !Crosses(preds, c, t) {
      OneSided(preds, c, t);
      GlueMeets(preds, integer, unsigned, c, t, x, y);
      assert false;
    }
  }

  lemma GlueBreaks(preds: seq<Comparisons.Pred>, l: Literal, h: Literal, t: real, x: real, y: real)
    requires l.atom < |preds| && h.atom < |preds| && preds[l.atom].c < t < preds[h.atom].c
    requires TruthAt(preds, l.atom, x) != l.positive && TruthAt(preds, h.atom, y) != h.positive
    ensures !Satisfies(Glue(preds, t, x, y), [l, h])
  {
    var v := Glue(preds, t, x, y);
    forall d | d in [l, h] ensures !LiteralHolds(v, d) { assert d == l || d == h; }
  }

  /** Some short clause breaks with a short consequence. */
  lemma UnmetShort(preds: seq<Comparisons.Pred>, integer: bool, unsigned: bool, clauses: seq<Clause>, pair: Clause, v: Vector)
    returns (c: Clause)
    requires DescribesDomain(preds, integer, unsigned, clauses) && HoldsThroughout(preds, integer, unsigned, pair)
    requires |pair| <= 2 && Over(pair, |preds|) && |v| == |preds| && !Satisfies(v, pair)
    ensures c in clauses && |c| <= 2 && !Satisfies(v, c)
    ensures Over(c, |preds|) && HoldsThroughout(preds, integer, unsigned, c)
  {
    assert !AdmitsSmall(clauses, v);
    c :| c in clauses && |c| <= 2 && !Satisfies(v, c);
    ClausesHoldThroughout(preds, integer, unsigned, clauses, c);
  }

  /** Exactly where a binary clause reaches across: at every value that is no ordering's threshold and
      has a comparison that varies on each side. */
  lemma CrossedExactly(preds: seq<Comparisons.Pred>, integer: bool, unsigned: bool, clauses: seq<Clause>, t: real)
    requires DescribesDomain(preds, integer, unsigned, clauses) && NeighboursOnly(preds, clauses)
    ensures Crossed(preds, clauses, t) <==> Uncut(preds, integer, unsigned, t)
  {
    if c :| c in clauses && Crosses(preds, c, t) { CrossedIsUncut(preds, integer, unsigned, clauses, c, t); }
    if Uncut(preds, integer, unsigned, t) { UncutIsCrossed(preds, integer, unsigned, clauses, t); }
  }

  /** `x < 1`, `x > 3` and `x == 2`. */
  function Bridged(): seq<Comparisons.Pred> {
    [Comparisons.Pred(Comparisons.Lt, 1.0), Comparisons.Pred(Comparisons.Gt, 3.0), Comparisons.Pred(Comparisons.Eq, 2.0)]
  }

  /** So the thresholds of its clauses need not be neighbours: here nothing but an equality lies
      between the two orderings, and a clause reaches across it. */
  lemma EqualityIsBridged(clauses: seq<Clause>)
    requires DescribesDomain(Bridged(), false, false, clauses)
    ensures Crossed(Bridged(), clauses, 2.0)
  {
    var preds := Bridged();
    assert Comparisons.InDomain(0.0, false, false) && Comparisons.InDomain(4.0, false, false);
    assert TruthAt(preds, 0, 0.0) && !TruthAt(preds, 0, 4.0) && TruthAt(preds, 1, 4.0) && !TruthAt(preds, 1, 0.0);
    assert Varies(preds, false, false, 0) && Varies(preds, false, false, 1);
    UncutIsCrossed(preds, false, false, clauses, 2.0);
  }
}
