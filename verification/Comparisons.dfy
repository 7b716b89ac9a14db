/** Comparisons between terms. Where each sets the same variable against a number, finitely many values
    show every combination of truth values there is. */
module Comparisons {
  import opened Wrappers

  datatype Op = Lt | Le | Gt | Ge | Eq | Ne

  predicate OpHolds(op: Op, x: real, c: real) {
    match op
    case Lt => x < c
    case Le => x <= c
    case Gt => x > c
    case Ge => x >= c
    case Eq => x == c
    case Ne => x != c
  }

  /** The operator read from right to left. */
  function Flipped(op: Op): Op {
    match op
    case Lt => Gt
    case Le => Ge
    case Gt => Lt
    case Ge => Le
    case Eq => Eq
    case Ne => Ne
  }

  datatype Term = Var(name: string) | Num(value: real) | Neg(arg: Term) | Apply(head: string, args: seq<Term>)

  datatype Comparison = Comparison(op: Op, left: Term, right: Term)

  /** What the arithmetic heads other than negation compute. */
  type Arithmetic = (string, seq<real>) -> real

  type Valuation = string -> real

  function Value(t: Term, at: Valuation, arith: Arithmetic): real {
    match t
    case Var(name) => at(name)
    case Num(x) => x
    case Neg(a) => -Value(a, at, arith)
    case Apply(head, args) => arith(head, seq(|args|, i requires 0 <= i < |args| => Value(args[i], at, arith)))
  }

  function TermVariables(t: Term): set<string> {
    match t
    case Var(name) => {name}
    case Num(_) => {}
    case Neg(a) => TermVariables(a)
    case Apply(_, args) => set i, v | 0 <= i < |args| && v in TermVariables(args[i]) :: v
  }

  function Variables(c: Comparison): set<string> {
    TermVariables(c.left) + TermVariables(c.right)
  }

  predicate Truth(c: Comparison, at: Valuation, arith: Arithmetic) {
    OpHolds(c.op, Value(c.left, at, arith), Value(c.right, at, arith))
  }

  lemma {:induction false} ValueReadsVariables(t: Term, at: Valuation, at': Valuation, arith: Arithmetic)
    requires forall v :: v in TermVariables(t) ==> at(v) == at'(v)
    ensures Value(t, at, arith) == Value(t, at', arith)
  {
    match t {
      case Var(_) =>
      case Num(_) =>
      case Neg(a) => ValueReadsVariables(a, at, at', arith);
      case Apply(head, args) =>
        forall i | 0 <= i < |args| ensures Value(args[i], at, arith) == Value(args[i], at', arith) {
          ValueReadsVariables(args[i], at, at', arith);
        }
        assert seq(|args|, i requires 0 <= i < |args| => Value(args[i], at, arith))
            == seq(|args|, i requires 0 <= i < |args| => Value(args[i], at', arith));
    }
  }

  /** A comparison reads no variable it does not name. */
  lemma TruthReadsVariables(c: Comparison, at: Valuation, at': Valuation, arith: Arithmetic)
    requires forall v :: v in Variables(c) ==> at(v) == at'(v)
    ensures Truth(c, at, arith) == Truth(c, at', arith)
  {
    ValueReadsVariables(c.left, at, at', arith);
    ValueReadsVariables(c.right, at, at', arith);
  }

  /** A bound on the numbers a term is written with. */
  ghost function Largest(t: Term): (b: real)
    ensures b > 0.0
  {
    match t
    case Var(_) => 1.0
    case Num(x) => Size(x) + 1.0
    case Neg(a) => Largest(a)
    case Apply(_, args) => LargestOf(args)
  }

  ghost function LargestOf(args: seq<Term>): (b: real)
    ensures b > 0.0
    ensures forall i :: 0 <= i < |args| ==> Largest(args[i]) <= b
  {
    if args == [] then 1.0
    else
      var b, rest := Largest(args[0]), LargestOf(args[1..]);
      if b > rest then b else rest
  }

  function Size(x: real): real { if x < 0.0 then -x else x }

  /** Arithmetic that shows whether some argument is as large as `b`. */
  ghost function Detector(b: real): Arithmetic {
    (head: string, xs: seq<real>) => if exists i :: 0 <= i < |xs| && Size(xs[i]) >= b then b else 0.0
  }

  /** Every variable a term names is read: under some arithmetic its value depends on that one alone. */
  lemma VariablesAreRead(t: Term, v: string)
    ensures v in TermVariables(t) <==>
            exists at: Valuation, at': Valuation, arith: Arithmetic ::
              (forall u :: u != v ==> at(u) == at'(u)) && Value(t, at, arith) != Value(t, at', arith)
  {
    var b := Largest(t);
    var at: Valuation, at': Valuation := (u: string) => 0.0, (u: string) => if u == v then b else 0.0;
    LargeWhenNamed(t, v, b);
    if v in TermVariables(t) {
      assert Value(t, at, Detector(b)) != Value(t, at', Detector(b)) && forall u :: u != v ==> at(u) == at'(u);
    } else {
      forall at: Valuation, at': Valuation, arith: Arithmetic | forall u :: u != v ==> at(u) == at'(u)
        ensures Value(t, at, arith) == Value(t, at', arith)
      {
        ValueReadsVariables(t, at, at', arith);
      }
    }
  }

  lemma {:induction false} LargeWhenNamed(t: Term, v: string, b: real)
    requires Largest(t) <= b
    ensures Size(Value(t, (u: string) => 0.0, Detector(b))) < b
    ensures Size(Value(t, (u: string) => if u == v then b else 0.0, Detector(b))) >= b <==> v in TermVariables(t)
  {
    match t {
      case Var(_) =>
      case Num(_) =>
      case Neg(a) => LargeWhenNamed(a, v, b);
      case Apply(head, args) =>
        forall i | 0 <= i < |args|
          ensures Size(Value(args[i], (u: string) => 0.0, Detector(b))) < b
          ensures Size(Value(args[i], (u: string) => if u == v then b else 0.0, Detector(b))) >= b
             <==> v in TermVariables(args[i])
        {
          LargeWhenNamed(args[i], v, b);
        }
        ArgumentsShow(head, args, (u: string) => if u == v then b else 0.0, b);
        ArgumentsShow(head, args, (u: string) => 0.0, b);
    }
  }

  lemma ArgumentsShow(head: string, args: seq<Term>, at: Valuation, b: real)
    requires b > 0.0
    ensures Size(Value(Apply(head, args), at, Detector(b))) >= b
       <==> exists i :: 0 <= i < |args| && Size(Value(args[i], at, Detector(b))) >= b
  {
    var xs := seq(|args|, i requires 0 <= i < |args| => Value(args[i], at, Detector(b)));
    assert Value(Apply(head, args), at, Detector(b)) == Detector(b)(head, xs);
    if i :| 0 <= i < |args| && Size(Value(args[i], at, Detector(b))) >= b { assert Size(xs[i]) >= b; }
  }

  // -- One variable against a number ------------------------------------------------------------

  datatype Against = Against(name: string, op: Op, c: real)

  function FoldNumber(t: Term): Term {
    if t.Neg? && t.arg.Num? then Num(-t.arg.value) else t
  }

  function AgainstConstant(c: Comparison): Option<Against> {
    var a, b := FoldNumber(c.left), FoldNumber(c.right);
    var (left, right, op) := if a.Num? then (b, a, Flipped(c.op)) else (a, b, c.op);
    if left.Var? && right.Num? then Some(Against(left.name, op, right.value)) else None
  }

  predicate IsNumber(t: Term) {
    t.Num? || (t.Neg? && t.arg.Num?)
  }

  /** A comparison is recognised exactly when one side is a variable and the other a number, signed or
      not, and what is recognised says the same under every valuation. */
  lemma AgainstConstantMeans(c: Comparison, at: Valuation, arith: Arithmetic)
    ensures AgainstConstant(c).Some?
       <==> (c.left.Var? && IsNumber(c.right)) || (IsNumber(c.left) && c.right.Var?)
    ensures AgainstConstant(c).Some? ==>
              var s := AgainstConstant(c).value;
              (Truth(c, at, arith) <==> OpHolds(s.op, at(s.name), s.c)) && Variables(c) == {s.name}
  {
    FoldKeepsValue(c.left, at, arith);
    FoldKeepsValue(c.right, at, arith);
  }

  lemma FoldKeepsValue(t: Term, at: Valuation, arith: Arithmetic)
    ensures Value(FoldNumber(t), at, arith) == Value(t, at, arith)
    ensures FoldNumber(t).Num? <==> IsNumber(t)
    ensures FoldNumber(t).Var? <==> t.Var?
    ensures IsNumber(t) ==> TermVariables(t) == {}
  {}

  // -- Samples ----------------------------------------------------------------------------------

  /** The values of a variable: every real, every integer, or the non-negative ones of either. */
  predicate InDomain(x: real, integer: bool, unsigned: bool) {
    (integer ==> x == x.Floor as real) && (unsigned ==> x >= 0.0)
  }

  function Ceil(x: real): int { -((-x).Floor) }

  /** `x` and `y` compare alike with every constant. */
  predicate SameSide(consts: seq<real>, x: real, y: real) {
    forall c :: c in consts ==> (x < c <==> y < c) && (x > c <==> y > c)
  }

  predicate Increasing(s: seq<real>) {
    forall i, j :: 0 <= i < j < |s| ==> s[i] < s[j]
  }

  /** A set of constants, sorted. */
  method SortedSet(consts: seq<real>) returns (cs: seq<real>)
    ensures Increasing(cs)
    ensures forall x :: x in cs ==> x in consts
    ensures forall x :: x in consts ==> x in cs
  {
    cs := [];
    for n := 0 to |consts|
      invariant Increasing(cs)
      invariant forall x :: x in cs ==> x in consts[..n]
      invariant forall x :: x in consts[..n] ==> x in cs
    {
      var at := Position(cs, consts[n]);
      assert consts[..n + 1] == consts[..n] + [consts[n]];
      if at == |cs| || cs[at] != consts[n] {
        InsertKeepsOrder(cs, at, consts[n]);
        cs := cs[..at] + [consts[n]] + cs[at..];
      }
    }
    assert consts[..|consts|] == consts;
  }

  /** The first place whose constant is at least `x`. */
  method Position(cs: seq<real>, x: real) returns (at: nat)
    requires Increasing(cs)
    ensures at <= |cs|
    ensures forall i :: 0 <= i < at ==> cs[i] < x
    ensures forall i :: at <= i < |cs| ==> x <= cs[i]
  {
    at := 0;
    while at < |cs| && cs[at] < x
      invariant at <= |cs|
      invariant forall i :: 0 <= i < at ==> cs[i] < x
    {
      at := at + 1;
    }
  }

  lemma InsertKeepsOrder(cs: seq<real>, at: nat, x: real)
    requires Increasing(cs) && at <= |cs|
    requires forall i :: 0 <= i < at ==> cs[i] < x
    requires forall i :: at <= i < |cs| ==> x < cs[i]
    ensures Increasing(cs[..at] + [x] + cs[at..])
    ensures forall y :: y in cs[..at] + [x] + cs[at..] <==> y in cs || y == x
  {
    var s := cs[..at] + [x] + cs[at..];
    forall i, j | 0 <= i < j < |s| ensures s[i] < s[j] {
      assert s[i] == if i < at then cs[i] else if i == at then x else cs[i - 1];
      assert s[j] == if j < at then cs[j] else if j == at then x else cs[j - 1];
    }
    assert cs == cs[..at] + cs[at..];
  }

  /** Values of the domain, at least one of which compares with the constants as any given value does. */
  method Samples(consts: seq<real>, integer: bool, unsigned: bool) returns (pts: set<real>)
    requires consts != []
    ensures forall p :: p in pts ==> InDomain(p, integer, unsigned)
    ensures forall x :: InDomain(x, integer, unsigned) ==> exists p :: p in pts && SameSide(consts, x, p)
  {
    var cs := SortedSet(consts);
    ghost var first: real := consts[0];
    assert first in consts && first in cs;
    if integer {
      pts := {};
      for n := 0 to |cs|
        invariant forall p :: p in pts ==> p == p.Floor as real
        invariant forall i :: 0 <= i < n ==> Neighbours(cs[i]) <= pts
      {
        var lo, hi := cs[n].Floor, Ceil(cs[n]);
        assert Neighbours(cs[n]) == {lo as real - 1.0, lo as real, hi as real, hi as real + 1.0};
        NeighboursAreWhole(cs[n]);
        pts := pts + {lo as real - 1.0, lo as real, hi as real, hi as real + 1.0};
      }
    } else {
      pts := (set c | c in cs) + {cs[0] - 1.0, cs[|cs| - 1] + 1.0};
      pts := pts + set i | 0 <= i < |cs| - 1 :: Midpoint(cs, i);
    }
    ghost var all := pts;
    if unsigned {
      pts := set p | p in pts + {0.0} && p >= 0.0;
    }
    forall x | InDomain(x, integer, unsigned) ensures exists p :: p in pts && SameSide(consts, x, p) {
      var y := if integer then WholeSample(cs, x) else RealSample(cs, x);
      assert y in all && SameSide(cs, x, y) by {
        if integer { WholeSampleFits(cs, x, all); } else { RealSampleFits(cs, x, all); }
      }
      var p := if unsigned && y < 0.0 then 0.0 else y;
      assert p in pts && SameSide(consts, x, p);
    }
  }

  function Neighbours(c: real): set<real> {
    var lo, hi := c.Floor as real, Ceil(c) as real;
    {lo - 1.0, lo, hi, hi + 1.0}
  }

  lemma NeighboursAreWhole(c: real)
    ensures forall p :: p in Neighbours(c) ==> p == p.Floor as real
  {
    var lo, hi := c.Floor, Ceil(c);
    assert (lo as real).Floor == lo && (hi as real).Floor == hi;
    assert lo as real - 1.0 == (lo - 1) as real && hi as real + 1.0 == (hi + 1) as real;
    assert ((lo - 1) as real).Floor == lo - 1 && ((hi + 1) as real).Floor == hi + 1;
  }

  /** How many constants are at most `x`. */
  function Below(cs: seq<real>, x: real): (n: nat)
    requires Increasing(cs)
    ensures n <= |cs|
    ensures forall i :: 0 <= i < n ==> cs[i] <= x
    ensures forall i :: n <= i < |cs| ==> x < cs[i]
  {
    if cs == [] || x < cs[0] then 0
    else
      var rest := cs[1..];
      assert forall i :: 1 <= i < |cs| ==> cs[i] == rest[i - 1];
      1 + Below(rest, x)
  }

  function Midpoint(cs: seq<real>, i: nat): real
    requires i + 1 < |cs|
  {
    (cs[i] + cs[i + 1]) / 2.0
  }

  function RealSample(cs: seq<real>, x: real): real
    requires Increasing(cs) && cs != []
  {
    var n := Below(cs, x);
    if n == 0 then cs[0] - 1.0
    else if cs[n - 1] == x then x
    else if n == |cs| then cs[n - 1] + 1.0
    else Midpoint(cs, n - 1)
  }

  lemma RealSampleFits(cs: seq<real>, x: real, pts: set<real>)
    requires Increasing(cs) && cs != []
    requires forall c :: c in cs ==> c in pts
    requires cs[0] - 1.0 in pts && cs[|cs| - 1] + 1.0 in pts
    requires forall i :: 0 <= i < |cs| - 1 ==> Midpoint(cs, i) in pts
    ensures RealSample(cs, x) in pts && SameSide(cs, x, RealSample(cs, x))
  {
    var n, y := Below(cs, x), RealSample(cs, x);
    if 0 < n < |cs| { assert Midpoint(cs, n - 1) in pts; }
    forall c | c in cs ensures (x < c <==> y < c) && (x > c <==> y > c) {
      var i :| 0 <= i < |cs| && cs[i] == c;
      if i < n { assert c <= cs[n - 1]; } else if n < |cs| { assert cs[n] <= c; }
    }
  }

  function WholeSample(cs: seq<real>, x: real): real
    requires Increasing(cs) && cs != []
  {
    var n := Below(cs, x);
    if n == 0 then (Ceil(cs[0]) - 1) as real
    else if cs[n - 1] == x then x
    else (cs[n - 1].Floor + 1) as real
  }

  lemma WholeSampleFits(cs: seq<real>, x: real, pts: set<real>)
    requires Increasing(cs) && cs != [] && x == x.Floor as real
    requires forall i :: 0 <= i < |cs| ==> Neighbours(cs[i]) <= pts
    ensures WholeSample(cs, x) in pts && SameSide(cs, x, WholeSample(cs, x))
  {
    var n, y := Below(cs, x), WholeSample(cs, x);
    var near := cs[if n == 0 then 0 else n - 1];
    NextWhole(near, x);
    assert y in Neighbours(near);
    forall c | c in cs ensures (x < c <==> y < c) && (x > c <==> y > c) {
      var i :| 0 <= i < |cs| && cs[i] == c;
      if i < n { assert c <= near; } else if n == 0 { assert near <= c; }
    }
  }

  lemma CeilIsFloorOrNext(c: real)
    ensures Ceil(c) == if c == c.Floor as real then c.Floor else c.Floor + 1
  {
    var f := c.Floor;
    if c == f as real { assert -c == (-f) as real; } else { assert (-f - 1) as real < -c < (-f) as real; }
  }

  /** The whole numbers next to `c`, seen from a whole `x`. */
  lemma NextWhole(c: real, x: real)
    requires x == x.Floor as real
    ensures (c.Floor + 1) as real in Neighbours(c) && (Ceil(c) - 1) as real in Neighbours(c)
    ensures c == x ==> x in Neighbours(c)
    ensures c < x ==> c < (c.Floor + 1) as real <= x
    ensures x < c ==> x <= (Ceil(c) - 1) as real < c
  {
    CeilIsFloorOrNext(c);
    WholeGap(c, x.Floor);
    var f, g := c.Floor, Ceil(c);
    assert (f + 1) as real == f as real + 1.0 && (g - 1) as real == g as real - 1.0;
  }

  lemma WholeGap(c: real, k: int)
    ensures c < k as real ==> c.Floor + 1 <= k
    ensures k as real < c ==> k <= c.Floor && (c == c.Floor as real ==> k <= c.Floor - 1)
  {}

  datatype Pred = Pred(op: Op, c: real)

  function VectorAt(preds: seq<Pred>, x: real): seq<bool> {
    seq(|preds|, i requires 0 <= i < |preds| => OpHolds(preds[i].op, x, preds[i].c))
  }

  ghost predicate Realised(preds: seq<Pred>, integer: bool, unsigned: bool, vector: seq<bool>) {
    exists x :: InDomain(x, integer, unsigned) && vector == VectorAt(preds, x)
  }

  lemma SameSideSameVector(preds: seq<Pred>, consts: seq<real>, x: real, y: real)
    requires |consts| == |preds| && forall i :: 0 <= i < |preds| ==> consts[i] == preds[i].c
    requires SameSide(consts, x, y)
    ensures VectorAt(preds, x) == VectorAt(preds, y)
  {
    forall i | 0 <= i < |preds| ensures OpHolds(preds[i].op, x, preds[i].c) == OpHolds(preds[i].op, y, preds[i].c) {
      assert consts[i] in consts;
    }
  }

  /** Exact over an infinite domain, from finitely many values. */
  method SampledVectors(preds: seq<Pred>, integer: bool, unsigned: bool) returns (vectors: set<seq<bool>>)
    requires preds != []
    ensures forall v :: v in vectors <==> Realised(preds, integer, unsigned, v)
  {
    var consts := seq(|preds|, i requires 0 <= i < |preds| => preds[i].c);
    var pts := Samples(consts, integer, unsigned);
    vectors := set x | x in pts :: VectorAt(preds, x);
    forall v | Realised(preds, integer, unsigned, v) ensures v in vectors {
      var x :| InDomain(x, integer, unsigned) && v == VectorAt(preds, x);
      var p :| p in pts && SameSide(consts, x, p);
      SameSideSameVector(preds, consts, x, p);
    }
  }
}
