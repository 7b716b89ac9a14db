/** Which names a key hands out, counted off the formula as it is written. */
module KeyNumbering {
  import opened Decimals
  import opened FormulaKey
  import opened Ltl
  import opened Realizability
  import opened RealizabilityKey
  import opened Sequences

  /** The names of a formula from left to right, each as often as it occurs. */
  function Written(f: Formula): seq<string> {
    match f
    case Atom(name) => [name]
    case Not(g) => Written(g)
    case Next(g) => Written(g)
    case Eventually(g) => Written(g)
    case Globally(g) => Written(g)
    case _ => Written(f.left) + Written(f.right)
  }

  /** The signals named before `x` first is. */
  function Earlier(s: seq<string>, x: string): set<string> {
    set i | 0 <= i < |s| && IsEarlier(s, x, i) :: s[i]
  }

  /** Position `i` has a signal, and `x` is not named up to there. */
  predicate IsEarlier(s: seq<string>, x: string, i: nat) {
    i < |s| && x !in s[..i + 1] && !IsConstantAtom(s[i])
  }

  /** Each signal is `fk` and the number of other signals named before it. */
  lemma RenamedFormNumbers(f: Formula, to: Renaming)
    requires forall x :: x in Written(f) ==>
               to(x) == if IsConstantAtom(x) then x else "fk" + Decimal(|Earlier(Written(f), x)|)
    ensures RenamedForm(f) == Rename(f, to)
  {
    var order := Order(f);
    OrderAre(f);
    OrderIsFirsts(f);
    forall x | x in Written(f) ensures NameBy(order, KeyNames(|order|))(x) == to(x) {
      FirstsHold(Written(f));
      if !IsConstantAtom(x) {
        var k := Position(order, x);
        EarlierAt(Written(f), k);
        SizeOfPart(order, k);
      }
    }
    RenameAgrees(f, NameBy(order, KeyNames(|order|)), to);
  }

  /** Of the declared names, inputs first: each input is `fi` and the number of inputs named before it,
      each other output `fo` and the number of these before it. The rest keep their names. */
  lemma SideFormNumbers(l: Lists, f: Formula, to: Renaming)
    requires forall x :: x in Written(f) ==>
      to(x) ==
        if IsConstantAtom(x) then x
        else if x in l.inputs then "fi" + Decimal(|set y | y in Earlier(Written(f), x) && y in l.inputs|)
        else if x in l.outputs then
          "fo" + Decimal(|set y | y in Earlier(Written(f), x) && y in l.outputs && y !in l.inputs|)
        else x
    ensures SideForm(l, f) == Rename(f, to)
  {
    hide CountOf, Order, Firsts, Earlier, Decimal, NameAt, Distinct;
    var order := Order(f);
    OrderAre(f);
    OrderIsFirsts(f);
    FirstsHold(Written(f));
    forall x | x in Written(f) ensures NameBy(order, SideNames(l, order))(x) == to(x) {
      if !IsConstantAtom(x) { NamedBySide(l, f, x); }
    }
    RenameAgrees(f, NameBy(order, SideNames(l, order)), to);
  }

  lemma NamedBySide(l: Lists, f: Formula, x: string)
    requires x in Order(f)
    ensures var earlier := Earlier(Written(f), x);
      NameBy(Order(f), SideNames(l, Order(f)))(x) ==
        if x in l.inputs then "fi" + Decimal(|set y | y in earlier && y in l.inputs|)
        else if x in l.outputs then "fo" + Decimal(|set y | y in earlier && y in l.outputs && y !in l.inputs|)
        else x
  {
    hide CountOf, Order, Earlier, Decimal, Written;
    CountedEarlier(l, f, Position(Order(f), x));
  }

  /** The spare counts: what of each list is not named, whatever the lists repeat. */
  lemma SparesCounted(l: Lists, f: Formula)
    ensures KeyOf(l, f).spareInputs == |l.inputs| - |set x | x in Atoms(f) && x in l.inputs|
    ensures KeyOf(l, f).spareOutputs == |l.outputs| - |set x | x in Atoms(f) && x in l.outputs && x !in l.inputs|
  {
    var order := Order(f);
    OrderAre(f);
    CountIsSize(l, order, |order|, In);
    CountIsSize(l, order, |order|, Out);
    assert Seen(l, order, |order|, In) == set x | x in Atoms(f) && x in l.inputs;
    assert Seen(l, order, |order|, Out) == set x | x in Atoms(f) && x in l.outputs && x !in l.inputs;
  }

  // -- The order of first appearance ------------------------------------------------------------

  /** The signals named in a text, each where it first is. */
  function Firsts(s: seq<string>): seq<string> {
    if s == [] then []
    else
      var firsts, x := Firsts(s[..|s| - 1]), s[|s| - 1];
      if IsConstantAtom(x) || x in firsts then firsts else firsts + [x]
  }

  lemma OrderIsFirsts(f: Formula)
    ensures Order(f) == Firsts(Written(f))
  {
    FirstsGoOn(f, []);
    assert [] + Written(f) == Written(f);
  }

  lemma {:induction false} FirstsGoOn(f: Formula, s: seq<string>)
    ensures AtomsInOrder(f, Firsts(s)) == Firsts(s + Written(f))
  {
    hide Firsts;
    if f.Atom? {
      FirstsNext(s, f.name);
    } else if IsUnary(f) {
      FirstsGoOn(f.child, s);
    } else {
      FirstsGoOn(f.left, s);
      FirstsGoOn(f.right, s + Written(f.left));
      assert s + Written(f.left) + Written(f.right) == s + (Written(f.left) + Written(f.right));
    }
  }

  lemma FirstsNext(s: seq<string>, x: string)
    ensures Firsts(s + [x]) == if IsConstantAtom(x) || x in Firsts(s) then Firsts(s) else Firsts(s) + [x]
  {
    assert (s + [x])[..|s|] == s;
  }

  lemma {:induction false} FirstsHold(s: seq<string>)
    ensures forall x :: x in Firsts(s) <==> x in s && !IsConstantAtom(x)
    ensures Distinct(Firsts(s))
  {
    if s != [] {
      var n := |s| - 1;
      FirstsHold(s[..n]);
      assert s == s[..n] + [s[n]];
    }
  }

  function Ahead(order: seq<string>, k: nat): set<string>
    requires k <= |order|
  {
    set i | 0 <= i < k :: order[i]
  }

  lemma FirstsAhead(s: seq<string>, last: string, k: nat)
    requires k <= |Firsts(s)|
    ensures k <= |Firsts(s + [last])| && Ahead(Firsts(s + [last]), k) == Ahead(Firsts(s), k)
    ensures k < |Firsts(s)| ==> Firsts(s + [last])[k] == Firsts(s)[k]
  {
    assert (s + [last])[..|s|] == s;
    forall i | 0 <= i < k ensures Firsts(s + [last])[i] == Firsts(s)[i] {}
  }

  /** Ahead of a signal in the order are exactly those named before it. */
  lemma {:induction false} EarlierAt(s: seq<string>, k: nat)
    requires k < |Firsts(s)|
    ensures Earlier(s, Firsts(s)[k]) == Ahead(Firsts(s), k)
  {
    hide Earlier, Distinct;
    var before, last := s[..|s| - 1], s[|s| - 1];
    FirstsHold(before);
    assert s == before + [last];
    if k < |Firsts(before)| {
      EarlierAt(before, k);
      FirstsAhead(before, last, k);
      assert Firsts(before)[k] in before;
      EarlierSkips(before, last, Firsts(before)[k]);
    } else {
      FirstsAhead(before, last, |Firsts(before)|);
      EarlierEnds(before, last);
    }
  }

  lemma EarlierSkips(s: seq<string>, last: string, x: string)
    requires x in s
    ensures Earlier(s + [last], x) == Earlier(s, x)
  {
    var t := s + [last];
    forall i: nat ensures IsEarlier(t, x, i) <==> IsEarlier(s, x, i) {
      if i < |s| { assert t[..i + 1] == s[..i + 1]; }
      if i == |s| { assert t[..i + 1] == t; }
    }
    forall y | y in Earlier(t, x) ensures y in Earlier(s, x) {
      var i: nat :| IsEarlier(t, x, i) && t[i] == y;
      assert IsEarlier(s, x, i) && s[i] == y;
    }
    forall y | y in Earlier(s, x) ensures y in Earlier(t, x) {
      var i: nat :| IsEarlier(s, x, i) && s[i] == y;
      assert IsEarlier(t, x, i) && t[i] == y;
    }
  }

  lemma EarlierEnds(s: seq<string>, x: string)
    requires x !in s
    ensures forall y :: y in Earlier(s + [x], x) <==> y in s && !IsConstantAtom(y)
  {
    var t := s + [x];
    assert t[..|s| + 1] == t;
    forall y | y in s && !IsConstantAtom(y) ensures y in Earlier(t, x) {
      var i :| 0 <= i < |s| && s[i] == y;
      assert t[i] == y && t[..i + 1] == s[..i + 1];
      assert IsEarlier(t, x, i);
    }
  }

  lemma {:induction false} SizeOfPart(order: seq<string>, k: nat)
    requires Distinct(order) && k <= |order|
    ensures |Ahead(order, k)| == k
  {
    if k > 0 {
      SizeOfPart(order, k - 1);
      assert order[k - 1] !in Ahead(order, k - 1) && Ahead(order, k) == Ahead(order, k - 1) + {order[k - 1]};
    }
  }

  /** The count behind a declared name, as a number of signals named earlier. */
  lemma CountedEarlier(l: Lists, f: Formula, k: nat)
    requires k < |Order(f)|
    ensures var earlier := Earlier(Written(f), Order(f)[k]);
      && CountOf(l, Order(f), k, In) == |set y | y in earlier && y in l.inputs|
      && CountOf(l, Order(f), k, Out) == |set y | y in earlier && y in l.outputs && y !in l.inputs|
  {
    var order := Order(f);
    OrderAre(f);
    OrderIsFirsts(f);
    EarlierAt(Written(f), k);
    CountIsSize(l, order, k, In);
    CountIsSize(l, order, k, Out);
    var earlier := Earlier(Written(f), order[k]);
    assert Seen(l, order, k, In) == set y | y in earlier && y in l.inputs;
    assert Seen(l, order, k, Out) == set y | y in earlier && y in l.outputs && y !in l.inputs;
  }

  lemma {:induction false} RenameAgrees(f: Formula, to: Renaming, to': Renaming)
    requires forall x :: x in Written(f) ==> to(x) == to'(x)
    ensures Rename(f, to) == Rename(f, to')
  {
    if f.Atom? {
      assert f.name in Written(f);
    } else if IsUnary(f) {
      RenameAgrees(f.child, to, to');
    } else {
      RenameAgrees(f.left, to, to');
      RenameAgrees(f.right, to, to');
    }
  }
}
