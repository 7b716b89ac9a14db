/** The comparison of formulas by their node arenas, which is a total order. */
module ArenaOrder {
  import opened Ltl
  import opened Realizability
  import opened CanonicalForms

  /** A node of an arena: its kind's place in the enumeration, an atom's name, the children's indices. */
  datatype Node = Node(kind: nat, name: string, left: nat, right: nat)

  function Ordinal(f: Formula): nat {
    match f
    case Atom(_) => 0
    case Not(_) => 1
    case And(_, _) => 2
    case Or(_, _) => 3
    case Implies(_, _) => 4
    case Iff(_, _) => 5
    case Next(_) => 6
    case Eventually(_) => 7
    case Globally(_) => 8
    case Until(_, _) => 9
    case Release(_, _) => 10
    case WeakUntil(_, _) => 11
  }

  /** Moves a node's children by `offset` places; an atom has none. */
  function Shift(node: Node, offset: nat): Node {
    if node.kind == 0 then node
    else if node.kind == 1 || 6 <= node.kind <= 8 then node.(left := node.left + offset)
    else node.(left := node.left + offset, right := node.right + offset)
  }

  function Shifted(nodes: seq<Node>, offset: nat): seq<Node> {
    seq(|nodes|, i requires 0 <= i < |nodes| => Shift(nodes[i], offset))
  }

  /** The nodes in post-order, the root last. */
  function Arena(f: Formula): (nodes: seq<Node>)
    ensures nodes != []
  {
    if f.Atom? then [Node(0, f.name, 0, 0)]
    else if IsUnary(f) then Arena(f.child) + [Node(Ordinal(f), "", |Arena(f.child)| - 1, 0)]
    else
      var left, right := Arena(f.left), Arena(f.right);
      left + Shifted(right, |left|) + [Node(Ordinal(f), "", |left| - 1, |left| + |right| - 1)]
  }

  // -- An arena determines its formula ----------------------------------------------------------

  lemma ShiftedInjective(a: seq<Node>, b: seq<Node>, offset: nat)
    requires Shifted(a, offset) == Shifted(b, offset)
    ensures a == b
  {
    assert |a| == |Shifted(a, offset)| == |b|;
    forall i | 0 <= i < |a| ensures a[i] == b[i] { assert Shift(a[i], offset) == Shifted(a, offset)[i] == Shift(b[i], offset); }
  }

  lemma SameRoot(f: Formula, g: Formula)
    requires Arena(f) == Arena(g)
    ensures Ordinal(f) == Ordinal(g) && (f.Atom? ==> f == g)
    ensures !f.Atom? && !IsUnary(f) ==> !g.Atom? && !IsUnary(g) && |Arena(f.left)| == |Arena(g.left)|
  {
    var n := |Arena(f)| - 1;
    assert Arena(f)[n].kind == Ordinal(f) && Arena(g)[n].kind == Ordinal(g);
    assert !f.Atom? && !IsUnary(f) ==> Arena(f)[n].left == |Arena(f.left)| - 1;
    assert !g.Atom? && !IsUnary(g) ==> Arena(g)[n].left == |Arena(g.left)| - 1;
  }

  lemma ArenaParts(f: Formula)
    requires !f.Atom?
    ensures IsUnary(f) ==> Arena(f)[..|Arena(f)| - 1] == Arena(f.child)
    ensures !IsUnary(f) ==> var n := |Arena(f.left)|;
              Arena(f)[..n] == Arena(f.left) && Arena(f)[n..|Arena(f)| - 1] == Shifted(Arena(f.right), n)
  {}

  lemma {:induction false} ArenaInjective(f: Formula, g: Formula)
    requires Arena(f) == Arena(g)
    ensures f == g
  {
    hide Arena;
    SameRoot(f, g);
    if IsUnary(f) {
      ArenaParts(f);
      ArenaParts(g);
      ArenaInjective(f.child, g.child);
    } else if !f.Atom? {
      ArenaParts(f);
      ArenaParts(g);
      ArenaInjective(f.left, g.left);
      ShiftedInjective(Arena(f.right), Arena(g.right), |Arena(f.left)|);
      ArenaInjective(f.right, g.right);
    }
  }

  // -- Lexicographic comparison -----------------------------------------------------------------

  predicate LexLess<T(==)>(less: (T, T) -> bool, a: seq<T>, b: seq<T>) {
    b != [] && (a == [] || if a[0] == b[0] then LexLess(less, a[1..], b[1..]) else less(a[0], b[0]))
  }

  function Lex<T(==)>(less: (T, T) -> bool): (seq<T>, seq<T>) -> bool {
    (a, b) => LexLess(less, a, b)
  }

  lemma {:induction false} LexIrreflexive<T>(less: (T, T) -> bool, a: seq<T>)
    ensures !LexLess(less, a, a)
  {
    if a != [] { LexIrreflexive(less, a[1..]); }
  }

  lemma {:induction false} LexTransitive<T(!new)>(less: (T, T) -> bool, a: seq<T>, b: seq<T>, c: seq<T>)
    requires TotalOrder(less) && LexLess(less, a, b) && LexLess(less, b, c)
    ensures LexLess(less, a, c)
  {
    if a != [] && a[0] == b[0] == c[0] { LexTransitive(less, a[1..], b[1..], c[1..]); }
  }

  lemma {:induction false} LexTotal<T(!new)>(less: (T, T) -> bool, a: seq<T>, b: seq<T>)
    requires TotalOrder(less)
    ensures LexLess(less, a, b) || a == b || LexLess(less, b, a)
  {
    if a != [] && b != [] && a[0] == b[0] {
      LexTotal(less, a[1..], b[1..]);
      assert a == [a[0]] + a[1..] && b == [b[0]] + b[1..];
    }
  }

  lemma LexOrders<T(!new)>(less: (T, T) -> bool)
    requires TotalOrder(less)
    ensures TotalOrder(Lex(less))
  {
    var lex := Lex(less);
    forall a ensures !lex(a, a) { LexIrreflexive(less, a); }
    forall a, b, c | lex(a, b) && lex(b, c) ensures lex(a, c) { LexTransitive(less, a, b, c); }
    forall a, b ensures lex(a, b) || a == b || lex(b, a) { LexTotal(less, a, b); }
  }

  // -- The order --------------------------------------------------------------------------------

  function CharLess(): (char, char) -> bool { (x, y) => x < y }

  predicate NameLess(x: string, y: string) { LexLess(CharLess(), x, y) }

  predicate NodeLess(a: Node, b: Node) {
    if a.kind != b.kind then a.kind < b.kind
    else if a.name != b.name then NameLess(a.name, b.name)
    else if a.left != b.left then a.left < b.left
    else a.right < b.right
  }

  function ByNode(): (Node, Node) -> bool { (a, b) => NodeLess(a, b) }

  function ByArena(): Comparison { (f, g) => LexLess(ByNode(), Arena(f), Arena(g)) }

  lemma NamesOrdered()
    ensures TotalOrder(Lex(CharLess()))
    ensures forall x, y :: Lex(CharLess())(x, y) == NameLess(x, y)
  {
    LexOrders(CharLess());
  }

  lemma NodesOrdered()
    ensures TotalOrder(ByNode())
  {
    NamesOrdered();
    var less, names := ByNode(), Lex(CharLess());
    forall a, b, c | less(a, b) && less(b, c) ensures less(a, c) {
      assert names(a.name, b.name) && names(b.name, c.name) ==> names(a.name, c.name);
    }
    forall a, b ensures less(a, b) || a == b || less(b, a) {
      assert names(a.name, b.name) || a.name == b.name || names(b.name, a.name);
    }
  }

  /** The comparison the canonical form sorts by is a total order of formulas. */
  lemma ArenasOrdered()
    ensures TotalOrder(ByArena())
  {
    NodesOrdered();
    LexOrders(ByNode());
    var less, lex := ByArena(), Lex(ByNode());
    forall f, g ensures less(f, g) == lex(Arena(f), Arena(g)) {}
    forall f, g ensures less(f, g) || f == g || less(g, f) {
      if Arena(f) == Arena(g) { ArenaInjective(f, g); }
    }
  }

  // -- The order on like formulas ---------------------------------------------------------------

  lemma {:induction false} LexAfter<T(!new)>(less: (T, T) -> bool, p: seq<T>, x: T, y: T)
    requires x != y
    ensures LexLess(less, p + [x], p + [y]) <==> less(x, y)
  {
    if p != [] {
      assert (p + [x])[1..] == p[1..] + [x] && (p + [y])[1..] == p[1..] + [y];
      LexAfter(less, p[1..], x, y);
    }
  }

  lemma {:induction false} LexPrefix<T(!new)>(less: (T, T) -> bool, p: seq<T>, q: seq<T>)
    requires q != []
    ensures LexLess(less, p, p + q)
  {
    if p != [] {
      assert (p + q)[1..] == p[1..] + q;
      LexPrefix(less, p[1..], q);
    }
  }

  /** Formulas over the same operands go by their connectives. */
  lemma RootsDecide(f: Formula, g: Formula)
    requires !f.Atom? && !g.Atom? && Ordinal(f) != Ordinal(g)
    requires (IsUnary(f) && IsUnary(g) && f.child == g.child)
          || (!IsUnary(f) && !IsUnary(g) && f.left == g.left && f.right == g.right)
    ensures ByArena()(f, g) <==> Ordinal(f) < Ordinal(g)
  {
    var p := if IsUnary(f) then Arena(f.child) else Arena(f.left) + Shifted(Arena(f.right), |Arena(f.left)|);
    var x, y := Arena(f)[|Arena(f)| - 1], Arena(g)[|Arena(g)| - 1];
    assert Arena(f) == p + [x] && Arena(g) == p + [y];
    LexAfter(ByNode(), p, x, y);
  }

  lemma UnaryOrdered(f: Formula)
    ensures ByArena()(Not(f), Next(f)) && ByArena()(Next(f), Eventually(f)) && ByArena()(Eventually(f), Globally(f))
  {
    hide Arena, LexLess, ByArena;
    RootsDecide(Not(f), Next(f));
    RootsDecide(Next(f), Eventually(f));
    RootsDecide(Eventually(f), Globally(f));
  }

  lemma BinaryOrdered(f: Formula, g: Formula)
    ensures ByArena()(And(f, g), Or(f, g)) && ByArena()(Or(f, g), Implies(f, g)) && ByArena()(Implies(f, g), Iff(f, g))
    ensures ByArena()(Iff(f, g), Until(f, g)) && ByArena()(Until(f, g), Release(f, g))
    ensures ByArena()(Release(f, g), WeakUntil(f, g))
  {
    hide Arena, LexLess, ByArena;
    RootsDecide(And(f, g), Or(f, g));
    RootsDecide(Or(f, g), Implies(f, g));
    RootsDecide(Implies(f, g), Iff(f, g));
    RootsDecide(Iff(f, g), Until(f, g));
    RootsDecide(Until(f, g), Release(f, g));
    RootsDecide(Release(f, g), WeakUntil(f, g));
  }

  lemma AtomsByName(a: string, b: string)
    ensures ByArena()(Atom(a), Atom(b)) <==> NameLess(a, b)
  {
    assert Arena(Atom(a)) == [] + [Node(0, a, 0, 0)] && Arena(Atom(b)) == [] + [Node(0, b, 0, 0)];
    if a == b {
      LexIrreflexive(ByNode(), Arena(Atom(a)));
      LexIrreflexive(CharLess(), a);
    } else {
      LexAfter(ByNode(), [], Node(0, a, 0, 0), Node(0, b, 0, 0));
    }
  }

  lemma BeforeWhatIsBuilt(f: Formula, h: Formula)
    requires (IsUnary(h) && h.child == f) || (!h.Atom? && !IsUnary(h) && h.left == f)
    ensures ByArena()(f, h)
  {
    var rest := Arena(h)[|Arena(f)|..];
    assert Arena(h) == Arena(f) + rest;
    LexPrefix(ByNode(), Arena(f), rest);
  }

  /** Atoms by their names; a formula before what is built on it; over one operand `!`, `X`, `F`, `G`, and
      over two `&`, `|`, `->`, `<->`, `U`, `R`, `W`, in this order. */
  lemma LikeFormulasOrdered(f: Formula, g: Formula, a: string, b: string)
    ensures ByArena()(Atom(a), Atom(b)) <==> NameLess(a, b)
    ensures ByArena()(f, Not(f)) && ByArena()(f, And(f, g)) && ByArena()(f, Until(f, g))
    ensures ByArena()(Not(f), Next(f)) && ByArena()(Next(f), Eventually(f)) && ByArena()(Eventually(f), Globally(f))
    ensures ByArena()(And(f, g), Or(f, g)) && ByArena()(Or(f, g), Implies(f, g)) && ByArena()(Implies(f, g), Iff(f, g))
    ensures ByArena()(Iff(f, g), Until(f, g)) && ByArena()(Until(f, g), Release(f, g))
    ensures ByArena()(Release(f, g), WeakUntil(f, g))
  {
    hide ByArena;
    AtomsByName(a, b);
    BeforeWhatIsBuilt(f, Not(f));
    BeforeWhatIsBuilt(f, And(f, g));
    BeforeWhatIsBuilt(f, Until(f, g));
    UnaryOrdered(f);
    BinaryOrdered(f, g);
  }
}
