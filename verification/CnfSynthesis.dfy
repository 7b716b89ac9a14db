/** Clauses whose models are exactly a given set of truth vectors. */
module CnfSynthesis {
  import opened Clauses
  import opened Sequences
  import opened Wrappers

  // -- All vectors, in the order they are tried -------------------------------------------------

  function Prepend(b: bool, vs: seq<Vector>): seq<Vector> {
    seq(|vs|, i requires 0 <= i < |vs| => [b] + vs[i])
  }

  /** Every vector of length `k`, true before false, the first atom slowest. */
  function Product(k: nat): seq<Vector> {
    if k == 0 then [[]] else Prepend(true, Product(k - 1)) + Prepend(false, Product(k - 1))
  }

  lemma {:induction false} ProductComplete(k: nat, v: Vector)
    ensures v in Product(k) <==> |v| == k
  {
    hide Prepend;
    if k == 0 {
      assert |v| == 0 ==> v == [];
    } else {
      PrependMember(true, Product(k - 1), v);
      PrependMember(false, Product(k - 1), v);
      assert v in Product(k) <==> v in Prepend(true, Product(k - 1)) || v in Prepend(false, Product(k - 1));
      if v != [] { ProductComplete(k - 1, v[1..]); }
    }
  }

  lemma PrependMember(b: bool, vs: seq<Vector>, v: Vector)
    ensures v in Prepend(b, vs) <==> v != [] && v[0] == b && v[1..] in vs
  {
    if v != [] && v[0] == b && v[1..] in vs {
      var i :| 0 <= i < |vs| && vs[i] == v[1..];
      assert Prepend(b, vs)[i] == [b] + v[1..] == v;
    }
  }

  // -- Clauses that hold throughout the target set ----------------------------------------------

  predicate Forced(truths: set<Vector>, c: Clause) {
    forall v :: v in truths ==> Satisfies(v, c)
  }

  predicate Sized(truths: set<Vector>, k: nat) {
    forall v :: v in truths ==> |v| == k
  }

  /** Both literals of every atom, the positive one first. */
  function Literals(k: nat): seq<Literal> {
    seq(2 * k, (n: nat) => Literal(n / 2, n % 2 == 0))
  }

  lemma LiteralsAre(k: nat)
    ensures forall n :: 0 <= n < 2 * k ==> Literals(k)[n].atom < k
    ensures forall l: Literal :: l.atom < k ==>
              Place(l) < 2 * k && Literals(k)[Place(l)] == l
    ensures forall n :: 0 <= n < 2 * k ==> Place(Literals(k)[n]) == n
  {
    forall l: Literal | l.atom < k ensures Place(l) < 2 * k && Literals(k)[Place(l)] == l {
      PlaceSplits(l);
    }
  }

  function Place(l: Literal): nat {
    2 * l.atom + if l.positive then 0 else 1
  }

  lemma PlaceSplits(l: Literal)
    ensures Place(l) / 2 == l.atom && (Place(l) % 2 == 0 <==> l.positive)
  {}

  method UnitClauses(truths: set<Vector>, k: nat) returns (clauses: seq<Clause>)
    ensures Distinct(clauses)
    ensures forall c: Clause :: c in clauses <==> |c| == 1 && Over(c, k) && Forced(truths, c)
  {
    var lits := Literals(k);
    LiteralsAre(k);
    clauses := [];
    for n := 0 to |lits|
      invariant Distinct(clauses)
      invariant forall c: Clause :: c in clauses <==> |c| == 1 && c[0].atom < k && Place(c[0]) < n && Forced(truths, c)
    {
      var c := [lits[n]];
      if Forced(truths, c) {
        clauses := clauses + [c];
      }
      assert forall d: Clause :: |d| == 1 && d[0].atom < k && Place(d[0]) == n ==> d == c;
    }
    forall c: Clause | |c| == 1 ensures Over(c, k) <==> c[0].atom < k { assert c[0] in c; }
  }

  function FirstAtoms(clauses: seq<Clause>): set<nat> {
    set c: Clause | c in clauses && c != [] :: c[0].atom
  }

  /** A pair of literals on two atoms that no unit clause settles. */
  predicate IsPair(c: Clause, k: nat, units: set<nat>) {
    && |c| == 2 && c[0].atom < k && c[1].atom < k && Place(c[0]) < Place(c[1])
    && c[0].atom != c[1].atom && c[0].atom !in units && c[1].atom !in units
  }

  method BinaryClauses(truths: set<Vector>, k: nat, units: set<nat>) returns (clauses: seq<Clause>)
    ensures Distinct(clauses)
    ensures forall c: Clause :: c in clauses <==> IsPair(c, k, units) && Forced(truths, c)
  {
    var lits := Literals(k);
    LiteralsAre(k);
    clauses := [];
    for n := 0 to |lits|
      invariant Distinct(clauses)
      invariant forall c: Clause :: c in clauses <==> IsPair(c, k, units) && Forced(truths, c) && Place(c[0]) < n
    {
      ghost var before := clauses;
      for m := n + 1 to |lits|
        invariant Distinct(clauses)
        invariant forall c: Clause :: c in clauses <==>
          c in before || (IsPair(c, k, units) && Forced(truths, c) && Place(c[0]) == n && Place(c[1]) < m)
      {
        var a, b := lits[n], lits[m];
        if a.atom != b.atom && a.atom !in units && b.atom !in units && Forced(truths, [a, b]) {
          clauses := clauses + [[a, b]];
        }
        assert forall d: Clause :: IsPair(d, k, units) && Place(d[0]) == n && Place(d[1]) == m ==> d == [a, b];
      }
    }
  }

  // -- The counterexample loop ------------------------------------------------------------------

  predicate IsExtra(truths: set<Vector>, clauses: seq<Clause>, v: Vector) {
    v !in truths && Admits(clauses, v)
  }

  predicate FirstExtraAt(truths: set<Vector>, clauses: seq<Clause>, all: seq<Vector>, n: nat) {
    n < |all| && IsExtra(truths, clauses, all[n]) && forall i :: 0 <= i < n ==> !IsExtra(truths, clauses, all[i])
  }

  /** The first vector the clauses admit and `truths` does not hold. */
  method FirstExtra(truths: set<Vector>, k: nat, clauses: seq<Clause>) returns (extra: Option<Vector>)
    ensures extra.None? ==> forall v: Vector :: |v| == k ==> !IsExtra(truths, clauses, v)
    ensures extra.Some? ==> |extra.value| == k && IsExtra(truths, clauses, extra.value)
    ensures extra.Some? ==> exists n: nat :: FirstExtraAt(truths, clauses, Product(k), n) && Product(k)[n] == extra.value
  {
    var all := Product(k);
    for n := 0 to |all|
      invariant forall i :: 0 <= i < n ==> !IsExtra(truths, clauses, all[i])
    {
      if IsExtra(truths, clauses, all[n]) {
        ProductComplete(k, all[n]);
        assert FirstExtraAt(truths, clauses, all, n);
        return Some(all[n]);
      }
    }
    forall v: Vector | |v| == k ensures !IsExtra(truths, clauses, v) {
      ProductComplete(k, v);
    }
    extra := None;
  }

  /** `v` and `w` agree on the listed atoms. */
  predicate Agree(v: Vector, w: Vector, atoms: seq<nat>) {
    forall j :: j in atoms ==> j < |v| && j < |w| && v[j] == w[j]
  }

  predicate Reached(truths: set<Vector>, w: Vector, atoms: seq<nat>) {
    exists v :: v in truths && Agree(v, w, atoms)
  }

  function Drop<T(==,!new)>(s: seq<T>, x: T): (r: seq<T>)
    ensures forall y :: y in r <==> y in s && y != x
  {
    if s == [] then [] else if s[0] == x then Drop(s[1..], x) else [s[0]] + Drop(s[1..], x)
  }

  /** Shrinks the atoms of `extra` to a set no realised vector agrees with, none of it superfluous. */
  method ShrinkCore(truths: set<Vector>, k: nat, extra: Vector) returns (core: seq<nat>)
    requires Sized(truths, k) && |extra| == k && extra !in truths
    ensures forall j :: j in core ==> j < k
    ensures !Reached(truths, extra, core)
    ensures forall j :: j in core ==> Reached(truths, extra, Drop<nat>(core, j))
  {
    core := seq(k, (i: nat) => i);
    assert forall j: nat :: j < k ==> core[j] == j;
    assert !Reached(truths, extra, core) by {
      forall v | v in truths ensures !Agree(v, extra, core) { AgreeEverywhere(v, extra, core); }
    }
    for i := 0 to k
      invariant forall j :: j in core ==> j < k
      invariant !Reached(truths, extra, core)
      invariant forall j :: j in core && j < i ==> Reached(truths, extra, Drop<nat>(core, j))
    {
      var rest := Drop<nat>(core, i);
      if !Reached(truths, extra, rest) {
        forall j | j in rest && j < i ensures Reached(truths, extra, Drop<nat>(rest, j)) {
          ReachedShrinks(truths, extra, Drop<nat>(core, j), Drop<nat>(rest, j));
        }
        core := rest;
      }
    }
  }

  lemma AgreeEverywhere(v: Vector, w: Vector, atoms: seq<nat>)
    requires |v| == |w| == |atoms| && forall j: nat :: j < |atoms| ==> atoms[j] == j
    ensures Agree(v, w, atoms) ==> v == w
  {
    if Agree(v, w, atoms) {
      forall j: nat | j < |v| ensures v[j] == w[j] { assert atoms[j] in atoms; }
    }
  }

  lemma ReachedShrinks(truths: set<Vector>, w: Vector, atoms: seq<nat>, fewer: seq<nat>)
    requires Reached(truths, w, atoms) && forall j :: j in fewer ==> j in atoms
    ensures Reached(truths, w, fewer)
  {
    var v :| v in truths && Agree(v, w, atoms);
    assert Agree(v, w, fewer);
  }

  /** The clause denying that the atoms of `core` are as in `extra`. */
  function Denial(core: seq<nat>, extra: Vector): Clause
    requires forall j :: j in core ==> j < |extra|
  {
    seq(|core|, n requires 0 <= n < |core| => assert core[n] in core; Literal(core[n], !extra[core[n]]))
  }

  lemma DenialSays(core: seq<nat>, extra: Vector, v: Vector)
    requires |v| == |extra| && forall j :: j in core ==> j < |extra|
    ensures Satisfies(v, Denial(core, extra)) <==> !Agree(v, extra, core)
  {
    var c := Denial(core, extra);
    if !Agree(v, extra, core) {
      var j :| j in core && v[j] != extra[j];
      var n :| 0 <= n < |core| && core[n] == j;
      assert c[n] in c && LiteralHolds(v, c[n]);
    }
  }

  /** No literal of `c` can be dropped without losing a vector of `truths`. */
  ghost predicate Tight(truths: set<Vector>, c: Clause) {
    forall l :: l in c ==> !Forced(truths, Drop(c, l))
  }

  lemma DenialIsTight(truths: set<Vector>, k: nat, core: seq<nat>, extra: Vector)
    requires Sized(truths, k) && |extra| == k && forall j :: j in core ==> j < k
    requires forall j :: j in core ==> Reached(truths, extra, Drop<nat>(core, j))
    ensures Tight(truths, Denial(core, extra))
  {
    var c := Denial(core, extra);
    forall l | l in c ensures !Forced(truths, Drop(c, l)) {
      var n :| 0 <= n < |c| && c[n] == l;
      assert core[n] in core && l == Literal(core[n], !extra[core[n]]);
      var v :| v in truths && Agree(v, extra, Drop<nat>(core, core[n]));
      forall m | m in Drop(c, l) ensures !LiteralHolds(v, m) {
        var i :| 0 <= i < |c| && c[i] == m;
        assert core[i] in core && m == Literal(core[i], !extra[core[i]]);
        assert core[i] != core[n];
        assert core[i] in Drop<nat>(core, core[n]);
      }
      assert !Satisfies(v, Drop(c, l));
    }
  }

  /** The vectors still admitted wrongly. */
  ghost function Extras(truths: set<Vector>, k: nat, clauses: seq<Clause>): set<Vector> {
    set v | v in Product(k) && IsExtra(truths, clauses, v)
  }

  // -- The redundancy pass ----------------------------------------------------------------------

  /** The other clauses of at most two literals. */
  function Others(clauses: seq<Clause>, c: Clause): (r: seq<Clause>)
    ensures forall d :: d in r <==> d in clauses && d != c && |d| <= 2
  {
    if clauses == [] then []
    else (if clauses[0] != c && |clauses[0]| <= 2 then [clauses[0]] else []) + Others(clauses[1..], c)
  }

  /** `clauses` without the first occurrence of `c`. */
  function Remove(clauses: seq<Clause>, c: Clause): (r: seq<Clause>)
    requires Distinct(clauses)
    ensures Distinct(r) && forall d :: d in r <==> d in clauses && d != c
  {
    if clauses == [] then []
    else if clauses[0] == c then
      assert forall i :: 0 < i < |clauses| ==> clauses[i] != c;
      clauses[1..]
    else
      TailDistinct(clauses);
      var r := Remove(clauses[1..], c);
      ConsDistinct(clauses[0], r);
      [clauses[0]] + r
  }

  lemma TailDistinct(clauses: seq<Clause>)
    requires clauses != [] && Distinct(clauses)
    ensures Distinct(clauses[1..]) && clauses[0] !in clauses[1..]
  {
    assert forall i :: 0 <= i < |clauses| - 1 ==> clauses[1..][i] == clauses[i + 1];
  }

  lemma ConsDistinct(c: Clause, rest: seq<Clause>)
    requires Distinct(rest) && c !in rest
    ensures Distinct([c] + rest)
  {
    var s := [c] + rest;
    forall i, j | 0 <= i < j < |s| ensures s[i] != s[j] {
      assert s[j] == rest[j - 1] && s[j] in rest;
    }
  }

  ghost predicate Redundant(clauses: seq<Clause>, c: Clause, k: nat) {
    Entailed(Others(clauses, c), c, k)
  }

  lemma RedundantShrinks(clauses: seq<Clause>, fewer: seq<Clause>, c: Clause, k: nat)
    requires forall d :: d in fewer ==> d in clauses
    requires Redundant(fewer, c, k)
    ensures Redundant(clauses, c, k)
  {
    forall v: Vector | |v| == k && Admits(Others(clauses, c), v) ensures Satisfies(v, c) {
      assert Admits(Others(fewer, c), v);
    }
  }

  /** Inserts `c` after every clause of at least its span. */
  function InsertBySpan(c: Clause, sorted: seq<Clause>, span: Clause -> real): (r: seq<Clause>)
    ensures forall d :: d in r <==> d == c || d in sorted
  {
    if sorted == [] || span(sorted[0]) < span(c) then [c] + sorted
    else [sorted[0]] + InsertBySpan(c, sorted[1..], span)
  }

  /** The binary clauses, widest span first; clauses of equal span keep their order. */
  function BinariesBySpan(clauses: seq<Clause>, span: Clause -> real): (r: seq<Clause>)
    ensures forall d :: d in r <==> d in clauses && |d| == 2
  {
    if clauses == [] then []
    else
      var n := |clauses| - 1;
      var r := BinariesBySpan(clauses[..n], span);
      assert clauses == clauses[..n] + [clauses[n]];
      if |clauses[n]| == 2 then InsertBySpan(clauses[n], r, span) else r
  }

  ghost predicate WidestFirst(order: seq<Clause>, span: Clause -> real) {
    forall i, j :: 0 <= i < j < |order| ==> span(order[j]) <= span(order[i])
  }

  lemma {:induction false} InsertKeepsSpans(c: Clause, sorted: seq<Clause>, span: Clause -> real)
    requires WidestFirst(sorted, span)
    ensures WidestFirst(InsertBySpan(c, sorted, span), span)
  {
    if sorted != [] && span(sorted[0]) >= span(c) {
      var rest := InsertBySpan(c, sorted[1..], span);
      InsertKeepsSpans(c, sorted[1..], span);
      forall j | 0 <= j < |rest| ensures span(rest[j]) <= span(sorted[0]) { assert rest[j] in rest; }
    }
  }

  lemma {:induction false} BinariesWidestFirst(clauses: seq<Clause>, span: Clause -> real)
    ensures WidestFirst(BinariesBySpan(clauses, span), span)
  {
    if clauses != [] {
      var n := |clauses| - 1;
      BinariesWidestFirst(clauses[..n], span);
      InsertKeepsSpans(clauses[n], BinariesBySpan(clauses[..n], span), span);
    }
  }

  /** Some vector that breaks `c` agrees with every unit clause and every narrower binary one. */
  ghost predicate NeededOver(given: seq<Clause>, c: Clause, k: nat, span: Clause -> real) {
    exists v: Vector :: |v| == k && !Satisfies(v, c) && AdmitsNarrower(given, c, span, v)
  }

  ghost predicate AdmitsNarrower(given: seq<Clause>, c: Clause, span: Clause -> real, v: Vector) {
    forall d :: d in given && |d| <= 2 && (|d| == 2 ==> span(d) < span(c)) ==> Satisfies(v, d)
  }

  /** What is not yet decided is still there; what was kept was needed when narrower clauses all stood. */
  ghost predicate Deciding(given: seq<Clause>, clauses: seq<Clause>, done: seq<Clause>, k: nat, span: Clause -> real) {
    && (forall c :: c in given && c !in done ==> c in clauses)
    && (forall c :: c in done && c in clauses ==> NeededOver(given, c, k, span))
  }

  lemma DecideStep(given: seq<Clause>, clauses: seq<Clause>, done: seq<Clause>, c: Clause, k: nat, span: Clause -> real,
                   after: seq<Clause>)
    requires Deciding(given, clauses, done, k, span) && c in given && |c| == 2
    requires forall d :: d in given && |d| != 2 ==> d in clauses
    requires forall d :: d in done ==> span(c) <= span(d)
    requires if Redundant(clauses, c, k) then forall d :: d in after <==> d in clauses && d != c else after == clauses
    ensures Deciding(given, after, done + [c], k, span)
  {
    if !Redundant(clauses, c, k) {
      var v: Vector :| |v| == k && Admits(Others(clauses, c), v) && !Satisfies(v, c);
      forall d | d in given && |d| <= 2 && (|d| == 2 ==> span(d) < span(c)) ensures Satisfies(v, d) {
        assert d in Others(clauses, c);
      }
      assert AdmitsNarrower(given, c, span, v);
    }
  }

  /** `small` speaks for the clauses of at most two literals alone. */
  ghost predicate AdmitsSmall(clauses: seq<Clause>, v: Vector) {
    forall c :: c in clauses && |c| <= 2 ==> Satisfies(v, c)
  }

  /** What the pass has kept and settled once the clauses of `done` are behind it. */
  ghost predicate Dropping(given: seq<Clause>, clauses: seq<Clause>, done: seq<Clause>, k: nat) {
    && Distinct(clauses)
    && (forall c :: c in clauses ==> c in given)
    && (forall c :: c in given && |c| != 2 ==> c in clauses)
    && (forall v: Vector :: |v| == k ==> (AdmitsSmall(clauses, v) <==> AdmitsSmall(given, v)))
    && (forall c :: c in done && c in clauses ==> !Redundant(clauses, c, k))
  }

  ghost predicate ModelIfBinary(clauses: seq<Clause>, k: nat) {
    forall c :: c in clauses && |c| == 2 ==> Satisfiable(clauses, k)
  }

  method DropIfRedundant(ghost given: seq<Clause>, clauses: seq<Clause>, ghost done: seq<Clause>, c: Clause,
                         ghost k: nat, ghost span: Clause -> real)
    returns (after: seq<Clause>)
    requires Dropping(given, clauses, done, k) && Deciding(given, clauses, done, k, span) && c in given && |c| == 2
    requires ModelIfBinary(given, k) && forall d :: d in given ==> Over(d, k)
    requires forall d :: d in done ==> span(c) <= span(d)
    ensures Dropping(given, after, done + [c], k) && Deciding(given, after, done + [c], k, span)
  {
    hide Over;
    after := clauses;
    assert Satisfiable(given, k);
    var rest := Others(clauses, c);
    OthersSatisfiable(given, rest, k);
    var entailed := Entails(rest, c, k);
    if entailed {
      DropStep(given, clauses, done, c, k);
      after := Remove(clauses, c);
    }
    DecideStep(given, clauses, done, c, k, span, after);
  }

  method DropRedundant(given: seq<Clause>, k: nat, span: Clause -> real) returns (clauses: seq<Clause>)
    requires Distinct(given) && forall c :: c in given ==> Over(c, k)
    requires ModelIfBinary(given, k)
    ensures Distinct(clauses)
    ensures forall c :: c in clauses ==> c in given
    ensures forall c :: c in given && |c| != 2 ==> c in clauses
    ensures forall v: Vector :: |v| == k ==> (Admits(clauses, v) <==> Admits(given, v))
    ensures forall v: Vector :: |v| == k ==> (AdmitsSmall(clauses, v) <==> AdmitsSmall(given, v))
    ensures forall c :: c in clauses && |c| == 2 ==> !Redundant(clauses, c, k) && NeededOver(given, c, k, span)
  {
    hide Dropping, Deciding, Redundant, NeededOver, AdmitsSmall, Admits, Distinct, Over;
    clauses := given;
    var order := BinariesBySpan(given, span);
    DroppingStarts(given, k, span);
    BinariesWidestFirst(given, span);
    assert order[..0] == [];
    for n := 0 to |order|
      invariant Dropping(given, clauses, order[..n], k) && Deciding(given, clauses, order[..n], k, span)
    {
      assert order[..n + 1] == order[..n] + [order[n]] && order[n] in order;
      DoneAreWider(order, span, n);
      clauses := DropIfRedundant(given, clauses, order[..n], order[n], k, span);
    }
    assert order[..|order|] == order;
    DroppingEnds(given, clauses, order, k, span);
  }

  lemma DoneAreWider(order: seq<Clause>, span: Clause -> real, n: nat)
    requires WidestFirst(order, span) && n < |order|
    ensures forall d :: d in order[..n] ==> span(order[n]) <= span(d)
  {
    forall d | d in order[..n] ensures span(order[n]) <= span(d) {
      var i :| 0 <= i < n && order[i] == d;
    }
  }

  lemma DroppingStarts(given: seq<Clause>, k: nat, span: Clause -> real)
    requires Distinct(given)
    ensures Dropping(given, given, [], k) && Deciding(given, given, [], k, span)
  {}

  lemma DroppingEnds(given: seq<Clause>, clauses: seq<Clause>, order: seq<Clause>, k: nat, span: Clause -> real)
    requires Dropping(given, clauses, order, k) && Deciding(given, clauses, order, k, span)
    requires forall c :: c in order <==> c in given && |c| == 2
    ensures Distinct(clauses)
    ensures forall c :: c in clauses ==> c in given
    ensures forall c :: c in given && |c| != 2 ==> c in clauses
    ensures forall v: Vector :: |v| == k ==> (AdmitsSmall(clauses, v) <==> AdmitsSmall(given, v))
    ensures forall c :: c in clauses && |c| == 2 ==> !Redundant(clauses, c, k) && NeededOver(given, c, k, span)
    ensures forall v: Vector :: |v| == k ==> (Admits(clauses, v) <==> Admits(given, v))
  {
    SmallDecides(given, clauses, k);
  }

  lemma DropStep(given: seq<Clause>, clauses: seq<Clause>, done: seq<Clause>, c: Clause, k: nat)
    requires Dropping(given, clauses, done, k) && |c| == 2 && Redundant(clauses, c, k)
    ensures Dropping(given, Remove(clauses, c), done + [c], k)
  {
    var after := Remove(clauses, c);
    RemovalKeepsSmall(clauses, after, c, k);
    forall d | d in done + [c] && d in after ensures !Redundant(after, d, k) {
      if Redundant(after, d, k) { RedundantShrinks(clauses, after, d, k); }
    }
  }

  lemma OthersSatisfiable(given: seq<Clause>, rest: seq<Clause>, k: nat)
    requires Satisfiable(given, k) && forall d :: d in rest ==> d in given
    ensures Satisfiable(rest, k)
  {
    var v: Vector :| |v| == k && Admits(given, v);
    assert Admits(rest, v);
  }

  lemma RemovalKeepsSmall(before: seq<Clause>, after: seq<Clause>, c: Clause, k: nat)
    requires Redundant(before, c, k) && forall d :: d in after <==> d in before && d != c
    ensures forall v: Vector :: |v| == k ==> (AdmitsSmall(after, v) <==> AdmitsSmall(before, v))
  {
    forall v: Vector | |v| == k ensures AdmitsSmall(after, v) <==> AdmitsSmall(before, v) {
      if AdmitsSmall(after, v) { assert Admits(Others(before, c), v); }
    }
  }

  lemma SmallDecides(given: seq<Clause>, clauses: seq<Clause>, k: nat)
    requires forall c :: c in clauses ==> c in given
    requires forall c :: c in given && |c| != 2 ==> c in clauses
    requires forall v: Vector :: |v| == k ==> (AdmitsSmall(clauses, v) <==> AdmitsSmall(given, v))
    ensures forall v: Vector :: |v| == k ==> (Admits(clauses, v) <==> Admits(given, v))
  {
    forall v: Vector | |v| == k ensures Admits(clauses, v) <==> Admits(given, v) {
      if Admits(clauses, v) {
        assert AdmitsSmall(clauses, v) && AdmitsSmall(given, v);
      }
    }
  }

  // -- The synthesis ----------------------------------------------------------------------------

  /** Every clause of at most two literals that holds throughout `truths` follows from the short ones. */
  ghost predicate ShortComplete(truths: set<Vector>, clauses: seq<Clause>, k: nat) {
    forall c: Clause, v: Vector :: |c| <= 2 && Over(c, k) && Forced(truths, c) && |v| == k && AdmitsSmall(clauses, v)
      ==> Satisfies(v, c)
  }

  ghost predicate Exact(truths: set<Vector>, clauses: seq<Clause>, k: nat) {
    forall v: Vector :: |v| == k ==> (Admits(clauses, v) <==> v in truths)
  }

  /** The clauses of at most two literals tried first. */
  ghost predicate IsShortList(truths: set<Vector>, clauses: seq<Clause>, k: nat) {
    && Distinct(clauses)
    && (forall c :: c in clauses ==> Over(c, k) && Forced(truths, c) && 1 <= |c| <= 2)
    && (truths != {} ==> ShortComplete(truths, clauses, k) && forall c :: c in clauses ==> Tight(truths, c))
    && (truths == {} ==> forall c :: c in clauses ==> |c| == 1)
  }

  method ShortClauses(truths: set<Vector>, k: nat) returns (clauses: seq<Clause>)
    requires Sized(truths, k)
    ensures IsShortList(truths, clauses, k) && ListsAllShort(truths, k, clauses)
  {
    var ones := UnitClauses(truths, k);
    var units := FirstAtoms(ones);
    var twos := BinaryClauses(truths, k, units);
    clauses := ones + twos;
    UnitsAre(truths, k, ones, units);
    ShortListAssembled(truths, k, ones, units, twos);
    AllShortListed(truths, k, ones, units, twos);
  }

  lemma AllShortListed(truths: set<Vector>, k: nat, ones: seq<Clause>, units: set<nat>, twos: seq<Clause>)
    requires Sized(truths, k) && AreShort(truths, k, ones, units, twos)
    ensures ListsAllShort(truths, k, ones + twos)
  {
    forall c: Clause | |c| == 2 && Over(c, k) && Forced(truths, c) && Place(c[0]) < Place(c[1]) && c !in ones + twos
      ensures TouchesSettled(truths, k, c)
    {
      assert c[0] in c && c[1] in c;
      assert !IsPair(c, k, units);
    }
  }

  /** The atoms some unit clause settles. */
  ghost predicate AreUnits(truths: set<Vector>, k: nat, units: set<nat>) {
    forall l: Literal :: l.atom < k && Forced(truths, [l]) ==> l.atom in units
  }

  lemma UnitsAre(truths: set<Vector>, k: nat, ones: seq<Clause>, units: set<nat>)
    requires forall c: Clause :: c in ones <==> |c| == 1 && Over(c, k) && Forced(truths, c)
    requires units == FirstAtoms(ones)
    ensures AreUnits(truths, k, units)
    ensures forall i :: i in units ==> i < k && (Forced(truths, [Literal(i, true)]) || Forced(truths, [Literal(i, false)]))
  {
    forall l: Literal | l.atom < k && Forced(truths, [l]) ensures l.atom in units {
      var c := [l];
      assert c in ones && c[0] == l;
    }
    forall i | i in units ensures i < k && (Forced(truths, [Literal(i, true)]) || Forced(truths, [Literal(i, false)])) {
      var c: Clause :| c in ones && c != [] && c[0].atom == i;
      assert c[0] in c && c == [Literal(i, c[0].positive)];
    }
  }

  /** The unit and binary clauses found for `truths`. */
  ghost predicate AreShort(truths: set<Vector>, k: nat, ones: seq<Clause>, units: set<nat>, twos: seq<Clause>) {
    && AreUnits(truths, k, units)
    && (forall i :: i in units ==> i < k && (Forced(truths, [Literal(i, true)]) || Forced(truths, [Literal(i, false)])))
    && (forall c: Clause :: c in ones <==> |c| == 1 && Over(c, k) && Forced(truths, c))
    && (forall c: Clause :: c in twos <==> IsPair(c, k, units) && Forced(truths, c))
  }

  lemma ShortListAssembled(truths: set<Vector>, k: nat, ones: seq<Clause>, units: set<nat>, twos: seq<Clause>)
    requires Sized(truths, k) && Distinct(ones) && Distinct(twos) && AreShort(truths, k, ones, units, twos)
    ensures IsShortList(truths, ones + twos, k)
  {
    ConcatDistinct(ones, twos);
    PairsAreOver(k, units, twos);
    if truths == {} {
      NoPairsOfNothing(truths, k, ones, units, twos);
    } else {
      ShortListTight(truths, k, ones, units, twos);
      ShortListComplete(truths, k, ones, units, twos);
    }
  }

  lemma PairsAreOver(k: nat, units: set<nat>, twos: seq<Clause>)
    requires forall c :: c in twos ==> IsPair(c, k, units)
    ensures forall c :: c in twos ==> Over(c, k)
  {
    forall c | c in twos ensures Over(c, k) { assert c == [c[0], c[1]]; }
  }

  lemma NoPairsOfNothing(truths: set<Vector>, k: nat, ones: seq<Clause>, units: set<nat>, twos: seq<Clause>)
    requires truths == {} && AreShort(truths, k, ones, units, twos)
    ensures twos == []
  {
    if twos != [] {
      var c := twos[0];
      assert c in twos && IsPair(c, k, units);
      assert Forced(truths, [c[0]]);
    }
  }

  lemma ShortListTight(truths: set<Vector>, k: nat, ones: seq<Clause>, units: set<nat>, twos: seq<Clause>)
    requires truths != {} && AreShort(truths, k, ones, units, twos)
    ensures forall c :: c in ones + twos ==> Tight(truths, c)
  {
    forall c | c in ones + twos ensures Tight(truths, c) {
      if c in ones { UnitIsTight(truths, c); } else { PairIsTight(truths, k, units, c); }
    }
  }

  lemma ShortListComplete(truths: set<Vector>, k: nat, ones: seq<Clause>, units: set<nat>, twos: seq<Clause>)
    requires Sized(truths, k) && truths != {} && AreShort(truths, k, ones, units, twos)
    ensures ShortComplete(truths, ones + twos, k)
  {
    forall c: Clause, v: Vector
      | |c| <= 2 && Over(c, k) && Forced(truths, c) && |v| == k && AdmitsSmall(ones + twos, v)
      ensures Satisfies(v, c)
    {
      ShortFollows(truths, k, ones, units, twos, c, v);
    }
  }

  lemma UnitIsTight(truths: set<Vector>, c: Clause)
    requires truths != {} && |c| == 1
    ensures Tight(truths, c)
  {
    forall l | l in c ensures !Forced(truths, Drop(c, l)) {
      var v :| v in truths;
      assert c == [l];
      assert Drop(c, l) == [] by { assert Drop(c, l) == Drop([], l); }
      assert !Satisfies(v, []);
    }
  }

  lemma PairIsTight(truths: set<Vector>, k: nat, units: set<nat>, c: Clause)
    requires AreUnits(truths, k, units) && IsPair(c, k, units)
    ensures Tight(truths, c)
  {
    forall l | l in c ensures !Forced(truths, Drop(c, l)) {
      var m := if l == c[0] then c[1] else c[0];
      assert c == [c[0], c[1]];
      assert !Forced(truths, [m]);
      var v :| v in truths && !Satisfies(v, [m]);
      assert m in [m] && !LiteralHolds(v, m);
      assert !Satisfies(v, Drop(c, l));
    }
  }

  /** A short clause that holds throughout a non-empty set follows from the list. */
  lemma ShortFollows(truths: set<Vector>, k: nat, ones: seq<Clause>, units: set<nat>, twos: seq<Clause>,
                     c: Clause, v: Vector)
    requires Sized(truths, k) && truths != {} && AreShort(truths, k, ones, units, twos)
    requires |c| <= 2 && Over(c, k) && Forced(truths, c) && |v| == k && AdmitsSmall(ones + twos, v)
    ensures Satisfies(v, c)
  {
    assert c != [] by {
      var w :| w in truths;
      assert Satisfies(w, c);
    }
    if |c| == 1 {
      assert c in ones + twos;
    } else if c[0].atom in units || c[1].atom in units || c[0].atom == c[1].atom {
      UnitsFollow(truths, k, ones, units, twos, v);
      SettledPair(truths, k, units, c, v);
    } else {
      ListedPair(truths, k, ones, units, twos, c, v);
    }
  }

  lemma ListedPair(truths: set<Vector>, k: nat, ones: seq<Clause>, units: set<nat>, twos: seq<Clause>,
                   c: Clause, v: Vector)
    requires AreShort(truths, k, ones, units, twos)
    requires |c| == 2 && Over(c, k) && Forced(truths, c) && AdmitsSmall(ones + twos, v)
    requires c[0].atom !in units && c[1].atom !in units && c[0].atom != c[1].atom
    ensures Satisfies(v, c)
  {
    var d := InOrder(c);
    InOrderIsPair(k, units, c);
    assert Forced(truths, d) by {
      forall u | u in truths ensures Satisfies(u, d) { SwapKeeps(c, d, u); }
    }
    assert d in twos && d in ones + twos;
    SwapKeeps(d, c, v);
  }

  function InOrder(c: Clause): Clause
    requires |c| == 2
  {
    if Place(c[0]) < Place(c[1]) then c else [c[1], c[0]]
  }

  lemma InOrderIsPair(k: nat, units: set<nat>, c: Clause)
    requires |c| == 2 && Over(c, k)
    requires c[0].atom !in units && c[1].atom !in units && c[0].atom != c[1].atom
    ensures IsPair(InOrder(c), k, units)
    ensures forall l :: l in c <==> l in InOrder(c)
  {
    PlacesDiffer(c[0], c[1]);
    assert c[0] in c && c[1] in c && c == [c[0], c[1]];
  }

  lemma SwapKeeps(c: Clause, d: Clause, v: Vector)
    requires Satisfies(v, c) && forall l :: l in c ==> l in d
    ensures Satisfies(v, d)
  {}

  lemma PlacesDiffer(a: Literal, b: Literal)
    requires a.atom != b.atom
    ensures Place(a) != Place(b)
  {}

  lemma UnitsFollow(truths: set<Vector>, k: nat, ones: seq<Clause>, units: set<nat>, twos: seq<Clause>, v: Vector)
    requires forall d: Clause :: d in ones <==> |d| == 1 && Over(d, k) && Forced(truths, d)
    requires AdmitsSmall(ones + twos, v)
    ensures forall l: Literal :: l.atom < k && Forced(truths, [l]) ==> LiteralHolds(v, l)
  {
    forall l: Literal | l.atom < k && Forced(truths, [l]) ensures LiteralHolds(v, l) {
      var d := [l];
      assert d in ones && d in ones + twos;
      assert Satisfies(v, d);
    }
  }

  /** A pair touching a settled atom, or naming one atom twice. */
  lemma SettledPair(truths: set<Vector>, k: nat, units: set<nat>, c: Clause, v: Vector)
    requires Sized(truths, k) && truths != {} && |v| == k && |c| == 2 && Over(c, k) && Forced(truths, c)
    requires forall i :: i in units ==> i < k && (Forced(truths, [Literal(i, true)]) || Forced(truths, [Literal(i, false)]))
    requires c[0].atom in units || c[1].atom in units || c[0].atom == c[1].atom
    requires forall l: Literal :: l.atom < k && Forced(truths, [l]) ==> LiteralHolds(v, l)
    ensures Satisfies(v, c)
  {
    hide Forced;
    var a, b := c[0], c[1];
    assert c == [a, b] && a in c && b in c;
    if a.atom == b.atom {
      if a == b {
        LeftoverForced(truths, c, a, b);
      } else {
        assert LiteralHolds(v, a) || LiteralHolds(v, b);
      }
    } else if a.atom in units {
      SettledSide(truths, k, c, a, b, v);
    } else {
      SettledSide(truths, k, c, b, a, v);
    }
  }

  lemma LeftoverForced(truths: set<Vector>, c: Clause, a: Literal, b: Literal)
    requires Forced(truths, c) && forall l :: l in c ==> l == a || l == b
    requires forall v :: v in truths ==> a == b || !LiteralHolds(v, a)
    ensures Forced(truths, [b])
  {
    forall v | v in truths ensures Satisfies(v, [b]) {
      assert Satisfies(v, c);
      assert b in [b];
    }
  }

  lemma SettledSide(truths: set<Vector>, k: nat, c: Clause, a: Literal, b: Literal, v: Vector)
    requires Sized(truths, k) && a.atom < k && b.atom < k && Forced(truths, c)
    requires (forall l :: l in c ==> l == a || l == b) && a in c && b in c
    requires Forced(truths, [Literal(a.atom, true)]) || Forced(truths, [Literal(a.atom, false)])
    requires forall l: Literal :: l.atom < k && Forced(truths, [l]) ==> LiteralHolds(v, l)
    ensures Satisfies(v, c)
  {
    assert a == Literal(a.atom, a.positive);
    if !Forced(truths, [a]) {
      var other := Literal(a.atom, !a.positive);
      forall u | u in truths ensures !LiteralHolds(u, a) {
        assert Satisfies(u, [other]);
      }
      LeftoverForced(truths, c, a, b);
    }
  }

  /** The models of the result over `k` atoms are exactly `truths`. When `truths` is not empty, no literal
      of any clause can be dropped, every one- and two-literal consequence of `truths` follows from the
      clauses of at most two literals, and no binary clause follows from the others of them; wider
      clauses have at least three literals. */
  method ExactClauses(truths: set<Vector>, k: nat, span: Clause -> real) returns (clauses: seq<Clause>)
    requires Sized(truths, k)
    ensures Exact(truths, clauses, k) && Distinct(clauses)
    ensures forall c :: c in clauses ==> Over(c, k)
    ensures forall c :: c in clauses && |c| == 2 ==> !Redundant(clauses, c, k)
    ensures truths != {} ==> ShortComplete(truths, clauses, k) && forall c :: c in clauses ==> Tight(truths, c)
    ensures truths != {} ==> forall c :: c in clauses && |c| == 2 ==> Needed(truths, c, k, span)
  {
    var short := ShortClauses(truths, k);
    var closed := CloseOver(truths, k, short);
    BinariesMeanModels(truths, k, closed);
    clauses := DropRedundant(closed, k, span);
    ShortStays(truths, k, closed, clauses);
    if truths != {} {
      forall c | c in clauses && |c| == 2 ensures Needed(truths, c, k, span) { NeededInTruths(truths, k, short, closed, c, span); }
    }
  }

  /** Some vector that breaks `c` agrees with every narrower binary clause and every unit clause that
      holds throughout `truths`. */
  ghost predicate Needed(truths: set<Vector>, c: Clause, k: nat, span: Clause -> real) {
    exists v: Vector :: |v| == k && !Satisfies(v, c) && AdmitsNarrowerForced(truths, c, k, span, v)
  }

  ghost predicate AdmitsNarrowerForced(truths: set<Vector>, c: Clause, k: nat, span: Clause -> real, v: Vector) {
    forall d: Clause :: Over(d, k) && Forced(truths, d) && (|d| == 1 || IsNarrowerPair(d, c, span)) ==> Satisfies(v, d)
  }

  predicate IsNarrowerPair(d: Clause, c: Clause, span: Clause -> real) {
    |d| == 2 && Place(d[0]) < Place(d[1]) && span(d) < span(c)
  }

  lemma NeededInTruths(truths: set<Vector>, k: nat, short: seq<Clause>, closed: seq<Clause>, c: Clause, span: Clause -> real)
    requires truths != {} && ListsAllShort(truths, k, short) && short <= closed && NeededOver(closed, c, k, span)
    ensures Needed(truths, c, k, span)
  {
    var v: Vector :| |v| == k && !Satisfies(v, c) && AdmitsNarrower(closed, c, span, v);
    forall d: Clause | Over(d, k) && Forced(truths, d) && (|d| == 1 || IsNarrowerPair(d, c, span)) ensures Satisfies(v, d) {
      if d in short {
        assert d in closed;
      } else {
        UnitsHold(truths, k, short, closed, c, span, v);
        Unlisted(truths, k, short, d, v);
      }
    }
    assert AdmitsNarrowerForced(truths, c, k, span, v);
  }

  lemma UnitsHold(truths: set<Vector>, k: nat, short: seq<Clause>, closed: seq<Clause>, c: Clause, span: Clause -> real,
                  v: Vector)
    requires ListsAllShort(truths, k, short) && short <= closed && AdmitsNarrower(closed, c, span, v)
    ensures forall l: Literal :: l.atom < k && Forced(truths, [l]) ==> LiteralHolds(v, l)
  {
    forall l: Literal | l.atom < k && Forced(truths, [l]) ensures LiteralHolds(v, l) {
      var d := [l];
      assert Over(d, k);
      assert d in short && d in closed;
      assert Satisfies(v, d);
    }
  }

  /** Every unit clause that holds throughout `truths` is listed, and every pair of literals that does
      and touches no atom a unit clause settles. */
  ghost predicate ListsAllShort(truths: set<Vector>, k: nat, short: seq<Clause>) {
    && Sized(truths, k)
    && (forall c: Clause :: |c| == 1 && Over(c, k) && Forced(truths, c) ==> c in short)
    && (forall c: Clause :: |c| == 2 && Over(c, k) && Forced(truths, c) && Place(c[0]) < Place(c[1]) && c !in short ==>
          TouchesSettled(truths, k, c))
  }

  ghost predicate TouchesSettled(truths: set<Vector>, k: nat, c: Clause)
    requires |c| == 2
  {
    c[0].atom == c[1].atom || IsSettled(truths, k, c[0].atom) || IsSettled(truths, k, c[1].atom)
  }

  ghost predicate IsSettled(truths: set<Vector>, k: nat, i: nat) {
    i < k && (Forced(truths, [Literal(i, true)]) || Forced(truths, [Literal(i, false)]))
  }

  lemma Unlisted(truths: set<Vector>, k: nat, short: seq<Clause>, d: Clause, v: Vector)
    requires truths != {} && ListsAllShort(truths, k, short) && d !in short
    requires Over(d, k) && Forced(truths, d) && (|d| == 1 || (|d| == 2 && Place(d[0]) < Place(d[1])))
    requires |v| == k && forall l: Literal :: l.atom < k && Forced(truths, [l]) ==> LiteralHolds(v, l)
    ensures Satisfies(v, d)
  {
    var units := set i | 0 <= i < k && IsSettled(truths, k, i);
    assert d[0] in d && d[1] in d;
    SettledPair(truths, k, units, d, v);
  }

  lemma BinariesMeanModels(truths: set<Vector>, k: nat, clauses: seq<Clause>)
    requires Sized(truths, k) && Exact(truths, clauses, k)
    requires truths == {} ==> forall c :: c in clauses ==> |c| != 2
    ensures ModelIfBinary(clauses, k)
  {
    if truths != {} {
      var v :| v in truths;
      assert |v| == k && Admits(clauses, v);
    }
  }

  lemma ShortStays(truths: set<Vector>, k: nat, closed: seq<Clause>, clauses: seq<Clause>)
    requires truths != {} ==> ShortComplete(truths, closed, k)
    requires forall v: Vector :: |v| == k ==> (AdmitsSmall(clauses, v) <==> AdmitsSmall(closed, v))
    ensures truths != {} ==> ShortComplete(truths, clauses, k)
  {}

  /** Adds a clause against each vector admitted wrongly, until there is none. */
  method CloseOver(truths: set<Vector>, k: nat, short: seq<Clause>) returns (clauses: seq<Clause>)
    requires Sized(truths, k) && IsShortList(truths, short, k)
    ensures Exact(truths, clauses, k) && Distinct(clauses)
    ensures forall c :: c in clauses ==> Over(c, k)
    ensures truths == {} ==> forall c :: c in clauses ==> |c| != 2
    ensures truths != {} ==> ShortComplete(truths, clauses, k) && forall c :: c in clauses ==> Tight(truths, c)
    ensures truths != {} ==> forall c :: c in clauses && c !in short ==> |c| >= 3
    ensures short <= clauses
  {
    clauses := short;
    var extra := FirstExtra(truths, k, clauses);
    while extra.Some?
      invariant Growing(truths, k, short, clauses)
      invariant extra.Some? ==> |extra.value| == k && IsExtra(truths, clauses, extra.value)
      invariant extra.None? ==> forall v: Vector :: |v| == k ==> !IsExtra(truths, clauses, v)
      decreases Extras(truths, k, clauses)
    {
      var core := ShrinkCore(truths, k, extra.value);
      var clause := Denial(core, extra.value);
      DenialGrows(truths, k, short, clauses, core, extra.value);
      clauses := clauses + [clause];
      extra := FirstExtra(truths, k, clauses);
    }
    GrowingEnds(truths, k, short, clauses);
  }

  /** What each added clause keeps. */
  ghost predicate Growing(truths: set<Vector>, k: nat, short: seq<Clause>, clauses: seq<Clause>) {
    && Distinct(clauses)
    && short <= clauses
    && (forall c :: c in clauses ==> Over(c, k) && Forced(truths, c))
    && (truths == {} ==> forall c :: c in clauses ==> |c| != 2)
    && (truths != {} ==> forall c :: c in clauses ==> Tight(truths, c))
    && (truths != {} ==> forall c :: c in clauses && c !in short ==> |c| >= 3)
  }

  lemma DenialGrows(truths: set<Vector>, k: nat, short: seq<Clause>, clauses: seq<Clause>, core: seq<nat>,
                    extra: Vector)
    requires Sized(truths, k) && IsShortList(truths, short, k) && Growing(truths, k, short, clauses)
    requires |extra| == k && IsExtra(truths, clauses, extra)
    requires forall j :: j in core ==> j < k
    requires !Reached(truths, extra, core)
    requires forall j :: j in core ==> Reached(truths, extra, Drop<nat>(core, j))
    ensures Growing(truths, k, short, clauses + [Denial(core, extra)])
    ensures Extras(truths, k, clauses + [Denial(core, extra)]) < Extras(truths, k, clauses)
  {
    var c := Denial(core, extra);
    DenialIsForced(truths, k, core, extra);
    DenialSays(core, extra, extra);
    assert !Satisfies(extra, c) && c !in clauses;
    DenialIsTight(truths, k, core, extra);
    DenialOver(core, extra);
    if truths == {} {
      NothingReached(truths, core, extra);
    } else {
      PrefixAdmits(short, clauses, extra);
      DenialIsWide(truths, k, short, c, extra);
    }
    ExtrasShrink(truths, k, clauses, c, extra);
    ConcatDistinct(clauses, [c]);
    GrowingStep(truths, k, short, clauses, c);
  }

  lemma DenialIsWide(truths: set<Vector>, k: nat, short: seq<Clause>, c: Clause, extra: Vector)
    requires ShortComplete(truths, short, k) && Over(c, k) && Forced(truths, c)
    requires |extra| == k && AdmitsSmall(short, extra) && !Satisfies(extra, c)
    ensures |c| >= 3
  {}

  lemma DenialIsForced(truths: set<Vector>, k: nat, core: seq<nat>, extra: Vector)
    requires Sized(truths, k) && |extra| == k && (forall j :: j in core ==> j < k) && !Reached(truths, extra, core)
    ensures Forced(truths, Denial(core, extra))
  {
    forall v | v in truths ensures Satisfies(v, Denial(core, extra)) { DenialSays(core, extra, v); }
  }

  lemma MemberUnlessEmpty(s: seq<nat>)
    ensures s == [] || exists j :: j in s
  {
    if s != [] { assert s[0] in s; }
  }

  /** With nothing to reach, the whole core is shed. */
  lemma NothingReached(truths: set<Vector>, core: seq<nat>, extra: Vector)
    requires truths == {} && forall j :: j in core ==> Reached(truths, extra, Drop<nat>(core, j))
    ensures core == []
  {
    MemberUnlessEmpty(core);
  }

  lemma PrefixAdmits(short: seq<Clause>, clauses: seq<Clause>, v: Vector)
    requires short <= clauses && AdmitsSmall(clauses, v)
    ensures AdmitsSmall(short, v)
  {
    forall d | d in short && |d| <= 2 ensures Satisfies(v, d) { assert d in clauses; }
  }

  lemma GrowingStep(truths: set<Vector>, k: nat, short: seq<Clause>, clauses: seq<Clause>, c: Clause)
    requires Growing(truths, k, short, clauses) && Distinct(clauses + [c])
    requires Over(c, k) && Forced(truths, c)
    requires truths == {} ==> |c| != 2
    requires truths != {} ==> Tight(truths, c) && |c| >= 3
    ensures Growing(truths, k, short, clauses + [c])
  {}

  lemma DenialOver(core: seq<nat>, extra: Vector)
    requires forall j :: j in core ==> j < |extra|
    ensures Over(Denial(core, extra), |extra|)
  {
    var c := Denial(core, extra);
    forall l | l in c ensures l.atom < |extra| {
      var n :| 0 <= n < |c| && c[n] == l;
      assert core[n] in core;
    }
  }

  lemma ExtrasShrink(truths: set<Vector>, k: nat, clauses: seq<Clause>, c: Clause, extra: Vector)
    requires |extra| == k && IsExtra(truths, clauses, extra) && !Satisfies(extra, c)
    ensures Extras(truths, k, clauses + [c]) < Extras(truths, k, clauses)
  {
    var after := clauses + [c];
    ProductComplete(k, extra);
    assert c in after;
    assert extra in Extras(truths, k, clauses) && extra !in Extras(truths, k, after);
    forall v | v in Extras(truths, k, after) ensures v in Extras(truths, k, clauses) {
      assert forall d :: d in clauses ==> d in after;
    }
  }

  lemma GrowingEnds(truths: set<Vector>, k: nat, short: seq<Clause>, clauses: seq<Clause>)
    requires Sized(truths, k) && IsShortList(truths, short, k) && Growing(truths, k, short, clauses)
    requires forall v: Vector :: |v| == k ==> !IsExtra(truths, clauses, v)
    ensures Exact(truths, clauses, k)
    ensures truths != {} ==> ShortComplete(truths, clauses, k)
  {
    forall v: Vector | |v| == k ensures Admits(clauses, v) <==> v in truths {
      assert !IsExtra(truths, clauses, v);
    }
    if truths != {} {
      forall c: Clause, v: Vector | |c| <= 2 && Over(c, k) && Forced(truths, c) && |v| == k && AdmitsSmall(clauses, v)
        ensures Satisfies(v, c)
      {
        PrefixAdmits(short, clauses, v);
      }
    }
  }
}
