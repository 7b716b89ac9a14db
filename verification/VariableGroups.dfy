/** Union-find over the variables of comparisons, and why each class can be treated on its own. */
module VariableGroups {
  import opened Comparisons
  import opened Wrappers
  import Clauses

  /** A comparison atom, with the variables of its comparison listed. */
  datatype Entry = Entry(atom: string, comparison: Comparison, names: seq<string>)

  ghost predicate Listed(entries: seq<Entry>) {
    forall i :: 0 <= i < |entries| ==>
      entries[i].names != [] && forall v :: v in entries[i].names <==> v in Variables(entries[i].comparison)
  }

  // -- Chains of shared variables ---------------------------------------------------------------

  predicate Share(entries: seq<Entry>, i: nat, j: nat) {
    i < |entries| && j < |entries| && exists v :: v in entries[i].names && v in entries[j].names
  }

  /** Each comparison of the path shares a variable with the next. */
  predicate Path(entries: seq<Entry>, q: seq<nat>) {
    && (forall n :: 0 <= n < |q| ==> q[n] < |entries|)
    && (forall n :: 0 < n < |q| ==> Share(entries, q[n - 1], q[n]))
  }

  ghost predicate Linked(entries: seq<Entry>, i: nat, j: nat) {
    exists q :: Path(entries, q) && |q| > 0 && q[0] == i && q[|q| - 1] == j
  }

  lemma ShareLinks(entries: seq<Entry>, i: nat, j: nat, v: string)
    requires i < |entries| && j < |entries| && v in entries[i].names && v in entries[j].names
    ensures Linked(entries, i, j)
  {
    assert Path(entries, [i, j]);
    assert [i, j][0] == i && [i, j][1] == j;
  }

  lemma LinksCompose(entries: seq<Entry>, i: nat, j: nat, k: nat)
    requires Linked(entries, i, j) && Linked(entries, j, k)
    ensures Linked(entries, i, k)
  {
    var p :| Path(entries, p) && |p| > 0 && p[0] == i && p[|p| - 1] == j;
    var q :| Path(entries, q) && |q| > 0 && q[0] == j && q[|q| - 1] == k;
    var r := p + q[1..];
    forall n | 0 < n < |r| ensures Share(entries, r[n - 1], r[n]) {
      if n < |p| {
        assert Share(entries, p[n - 1], p[n]);
      } else {
        assert Share(entries, q[n - |p|], q[n - |p| + 1]);
        assert r[n] == q[n - |p| + 1];
        assert r[n - 1] == q[n - |p|];
      }
    }
    assert Path(entries, r) && r[0] == i && r[|r| - 1] == k;
  }

  // -- Union-find -------------------------------------------------------------------------------

  /** `parent` is acyclic: every variable is `depth` steps below its root `rep`. One not entered yet
      is its own root. */
  ghost predicate Forest(parent: map<string, string>, rep: string -> string, depth: string -> nat) {
    forall v: string :: Hangs(parent, rep, depth, v)
  }

  ghost predicate Hangs(parent: map<string, string>, rep: string -> string, depth: string -> nat, v: string) {
    if v !in parent then rep(v) == v && depth(v) == 0
    else
      var up := parent[v];
      && up in parent && rep(v) == rep(up)
      && (if up == v then rep(v) == v && depth(v) == 0 else depth(v) == depth(up) + 1)
  }

  /** Follows parents to the root, entering a variable met for the first time. */
  method Root(given: map<string, string>, v: string, ghost rep: string -> string, ghost depth: string -> nat)
    returns (root: string, parent: map<string, string>)
    requires Forest(given, rep, depth)
    ensures Forest(parent, rep, depth)
    ensures root == rep(v) && root in parent && parent[root] == root
    ensures forall u :: u in given ==> u in parent && parent[u] == given[u]
  {
    parent := if v in given then given else given[v := v];
    EnterKeepsForest(given, v, rep, depth);
    root := v;
    while parent[root] != root
      invariant root in parent && rep(root) == rep(v)
      decreases depth(root)
    {
      assert Hangs(parent, rep, depth, root);
      root := parent[root];
    }
    assert Hangs(parent, rep, depth, root);
  }

  lemma EnterKeepsForest(parent: map<string, string>, v: string, rep: string -> string, depth: string -> nat)
    requires Forest(parent, rep, depth)
    ensures Forest(if v in parent then parent else parent[v := v], rep, depth)
  {
    var after := if v in parent then parent else parent[v := v];
    forall u: string ensures Hangs(after, rep, depth, u) {
      assert Hangs(parent, rep, depth, u);
    }
  }

  ghost function JoinRep(rep: string -> string, a: string, b: string): string -> string {
    (v: string) => if rep(v) == a then b else rep(v)
  }

  ghost function JoinDepth(rep: string -> string, depth: string -> nat, a: string, b: string): string -> nat {
    (v: string) => if rep(v) == a && a != b then depth(v) + 1 else depth(v)
  }

  lemma JoinKeepsForest(parent: map<string, string>, rep: string -> string, depth: string -> nat, a: string, b: string)
    requires Forest(parent, rep, depth)
    requires a in parent && parent[a] == a && b in parent && parent[b] == b
    ensures Forest(parent[a := b], JoinRep(rep, a, b), JoinDepth(rep, depth, a, b))
  {
    var p, r, d := parent[a := b], JoinRep(rep, a, b), JoinDepth(rep, depth, a, b);
    assert Hangs(parent, rep, depth, a) && Hangs(parent, rep, depth, b);
    forall v: string ensures Hangs(p, r, d, v) {
      assert Hangs(parent, rep, depth, v);
    }
  }

  /** Variables under one root belong to linked comparisons. */
  ghost predicate Sound(entries: seq<Entry>, rep: string -> string) {
    forall i, j, u, w
      | 0 <= i < |entries| && 0 <= j < |entries| && u in entries[i].names && w in entries[j].names && rep(u) == rep(w)
      :: Linked(entries, i, j)
  }

  /** The first `m` variables of a list are under one root. */
  ghost predicate United(rep: string -> string, names: seq<string>, m: nat) {
    forall n :: 0 <= n < m && n < |names| ==> rep(names[n]) == rep(names[0])
  }

  lemma JoinStaysSound(entries: seq<Entry>, rep: string -> string, m: nat, v: string, w: string)
    requires Sound(entries, rep) && m < |entries| && v in entries[m].names && w in entries[m].names
    ensures Sound(entries, JoinRep(rep, rep(v), rep(w)))
  {
    var joined := JoinRep(rep, rep(v), rep(w));
    forall i, j, x, y
      | 0 <= i < |entries| && 0 <= j < |entries| && x in entries[i].names && y in entries[j].names && joined(x) == joined(y)
      ensures Linked(entries, i, j)
    {
      if rep(x) != rep(y) { LinksCompose(entries, i, m, j); }
    }
  }

  /** The union loop's state after the entries before `n`. */
  ghost predicate Uniting(entries: seq<Entry>, n: nat, parent: map<string, string>, rep: string -> string,
                          depth: string -> nat) {
    && Forest(parent, rep, depth)
    && Sound(entries, rep)
    && AllUnited(entries, n, rep)
  }

  ghost predicate AllUnited(entries: seq<Entry>, n: nat, rep: string -> string) {
    forall i :: 0 <= i < n && i < |entries| ==> United(rep, entries[i].names, |entries[i].names|)
  }

  method UniteEntry(entries: seq<Entry>, n: nat, given: map<string, string>, ghost rep: string -> string,
                    ghost depth: string -> nat)
    returns (parent: map<string, string>, ghost rep': string -> string, ghost depth': string -> nat)
    requires n < |entries| && entries[n].names != [] && Uniting(entries, n, given, rep, depth)
    ensures Uniting(entries, n + 1, parent, rep', depth')
  {
    var vs := entries[n].names;
    parent, rep', depth' := given, rep, depth;
    for m := 1 to |vs|
      invariant Uniting(entries, n, parent, rep', depth')
      invariant United(rep', vs, m)
    {
      parent, rep', depth' := Join(entries, n, m, parent, rep', depth');
    }
  }

  /** Hangs the root of the `m`-th variable of an entry under the root of its first. */
  method Join(entries: seq<Entry>, n: nat, m: nat, given: map<string, string>, ghost rep: string -> string,
              ghost depth: string -> nat)
    returns (parent: map<string, string>, ghost rep': string -> string, ghost depth': string -> nat)
    requires n < |entries| && 0 < m < |entries[n].names|
    requires Uniting(entries, n, given, rep, depth) && United(rep, entries[n].names, m)
    ensures Uniting(entries, n, parent, rep', depth') && United(rep', entries[n].names, m + 1)
  {
    var vs := entries[n].names;
    var first, root;
    first, parent := Root(given, vs[0], rep, depth);
    root, parent := Root(parent, vs[m], rep, depth);
    JoinKeepsForest(parent, rep, depth, root, first);
    JoinStaysSound(entries, rep, n, vs[m], vs[0]);
    JoinUnites(entries, n, m, rep);
    parent := parent[root := first];
    rep', depth' := JoinRep(rep, root, first), JoinDepth(rep, depth, root, first);
  }

  lemma JoinUnites(entries: seq<Entry>, n: nat, m: nat, rep: string -> string)
    requires n < |entries| && 0 < m < |entries[n].names|
    requires AllUnited(entries, n, rep) && United(rep, entries[n].names, m)
    ensures AllUnited(entries, n, JoinRep(rep, rep(entries[n].names[m]), rep(entries[n].names[0])))
    ensures United(JoinRep(rep, rep(entries[n].names[m]), rep(entries[n].names[0])), entries[n].names, m + 1)
  {
    var joined := JoinRep(rep, rep(entries[n].names[m]), rep(entries[n].names[0]));
    forall i | 0 <= i < n ensures United(joined, entries[i].names, |entries[i].names|) {
      assert United(rep, entries[i].names, |entries[i].names|);
    }
  }

  // -- The groups -------------------------------------------------------------------------------

  /** Two comparisons are in one group exactly when they are linked. */
  ghost predicate SameGroupIffLinked(entries: seq<Entry>, g: seq<nat>, h: seq<nat>) {
    forall i, j :: i in g && j in h ==> (g == h <==> Linked(entries, i, j))
  }

  predicate InRange(entries: seq<Entry>, g: seq<nat>) {
    forall i :: i in g ==> i < |entries|
  }

  ghost predicate Covered(groups: set<seq<nat>>, i: nat) {
    exists g :: g in groups && i in g
  }

  ghost predicate IsGrouping(entries: seq<Entry>, groups: set<seq<nat>>) {
    && (forall g :: g in groups ==> g != [] && InRange(entries, g))
    && (forall i: nat :: i < |entries| ==> Covered(groups, i))
    && (forall g, h :: g in groups && h in groups ==> SameGroupIffLinked(entries, g, h))
  }

  /** The entries before `n`, by the root of their variables. */
  ghost predicate ByRoot(entries: seq<Entry>, n: nat, rep: string -> string, byRoot: map<string, seq<nat>>) {
    && (forall r :: r in byRoot ==> byRoot[r] != [] && RootedAt(entries, n, rep, byRoot[r], r))
    && (forall i: nat :: i < n && i < |entries| ==> Filed(entries, rep, byRoot, i))
  }

  ghost predicate RootedAt(entries: seq<Entry>, n: nat, rep: string -> string, g: seq<nat>, r: string) {
    forall i :: i in g ==> i < n && i < |entries| && KeyOf(entries, rep, i) == r
  }

  ghost predicate Filed(entries: seq<Entry>, rep: string -> string, byRoot: map<string, seq<nat>>, i: nat)
    requires i < |entries|
  {
    var r := KeyOf(entries, rep, i);
    r in byRoot && i in byRoot[r]
  }

  ghost function KeyOf(entries: seq<Entry>, rep: string -> string, i: nat): string
    requires i < |entries|
  {
    if entries[i].names == [] then "" else rep(entries[i].names[0])
  }

  /** Two comparisons fall into one group exactly when a chain of shared variables links them. */
  method Groups(entries: seq<Entry>) returns (groups: set<seq<nat>>)
    requires forall i :: 0 <= i < |entries| ==> entries[i].names != []
    ensures IsGrouping(entries, groups)
  {
    var parent: map<string, string>;
    ghost var rep: string -> string, depth: string -> nat;
    parent, rep, depth := UniteAll(entries);
    var byRoot: map<string, seq<nat>> := map[];
    for n := 0 to |entries|
      invariant Forest(parent, rep, depth)
      invariant ByRoot(entries, n, rep, byRoot)
    {
      var root;
      root, parent := Root(parent, entries[n].names[0], rep, depth);
      AddToGroup(entries, n, rep, byRoot);
      byRoot := byRoot[root := (if root in byRoot then byRoot[root] else []) + [n]];
    }
    groups := byRoot.Values;
    RootsGroup(entries, rep, byRoot);
  }

  method UniteAll(entries: seq<Entry>)
    returns (parent: map<string, string>, ghost rep: string -> string, ghost depth: string -> nat)
    requires forall i :: 0 <= i < |entries| ==> entries[i].names != []
    ensures Uniting(entries, |entries|, parent, rep, depth)
  {
    parent, rep, depth := map[], (v: string) => v, (v: string) => 0;
    SoundAtFirst(entries);
    for n := 0 to |entries|
      invariant Uniting(entries, n, parent, rep, depth)
    {
      parent, rep, depth := UniteEntry(entries, n, parent, rep, depth);
    }
  }

  lemma SoundAtFirst(entries: seq<Entry>)
    ensures Sound(entries, (v: string) => v)
  {
    forall i, j, u | 0 <= i < |entries| && 0 <= j < |entries| && u in entries[i].names && u in entries[j].names
      ensures Linked(entries, i, j)
    {
      ShareLinks(entries, i, j, u);
    }
  }

  lemma AddToGroup(entries: seq<Entry>, n: nat, rep: string -> string, byRoot: map<string, seq<nat>>)
    requires n < |entries| && ByRoot(entries, n, rep, byRoot)
    ensures var r := KeyOf(entries, rep, n);
            ByRoot(entries, n + 1, rep, byRoot[r := (if r in byRoot then byRoot[r] else []) + [n]])
  {
    var r := KeyOf(entries, rep, n);
    var after := byRoot[r := (if r in byRoot then byRoot[r] else []) + [n]];
    forall q | q in after ensures after[q] != [] && RootedAt(entries, n + 1, rep, after[q], q) {
      if q in byRoot { assert RootedAt(entries, n, rep, byRoot[q], q); }
    }
    forall i: nat | i < n + 1 ensures Filed(entries, rep, after, i) {
      if i < n { assert Filed(entries, rep, byRoot, i); }
    }
  }

  lemma RootsGroup(entries: seq<Entry>, rep: string -> string, byRoot: map<string, seq<nat>>)
    requires forall i :: 0 <= i < |entries| ==> entries[i].names != []
    requires ByRoot(entries, |entries|, rep, byRoot) && Sound(entries, rep) && AllUnited(entries, |entries|, rep)
    ensures IsGrouping(entries, byRoot.Values)
  {
    forall i: nat | i < |entries| ensures Covered(byRoot.Values, i) {
      assert Filed(entries, rep, byRoot, i);
      assert byRoot[KeyOf(entries, rep, i)] in byRoot.Values;
    }
    forall g, h | g in byRoot.Values && h in byRoot.Values ensures SameGroupIffLinked(entries, g, h) {
      var r :| r in byRoot && byRoot[r] == g;
      var q :| q in byRoot && byRoot[q] == h;
      RootsLinked(entries, rep, g, h, r, q);
    }
  }

  lemma RootsLinked(entries: seq<Entry>, rep: string -> string, g: seq<nat>, h: seq<nat>, r: string, q: string)
    requires forall i :: 0 <= i < |entries| ==> entries[i].names != []
    requires Sound(entries, rep) && AllUnited(entries, |entries|, rep)
    requires RootedAt(entries, |entries|, rep, g, r) && RootedAt(entries, |entries|, rep, h, q)
    requires r == q ==> g == h
    ensures SameGroupIffLinked(entries, g, h)
  {
    forall i, j | i in g && j in h ensures g == h <==> Linked(entries, i, j) {
      assert entries[i].names[0] in entries[i].names && entries[j].names[0] in entries[j].names;
      if Linked(entries, i, j) {
        var p :| Path(entries, p) && |p| > 0 && p[0] == i && p[|p| - 1] == j;
        PathKeepsRoot(entries, rep, p);
      }
      if g == h { assert KeyOf(entries, rep, j) == r; }
    }
  }

  lemma {:induction false} PathKeepsRoot(entries: seq<Entry>, rep: string -> string, p: seq<nat>)
    requires forall i :: 0 <= i < |entries| ==> entries[i].names != []
    requires AllUnited(entries, |entries|, rep)
    requires |p| > 0 && Path(entries, p)
    ensures KeyOf(entries, rep, p[0]) == KeyOf(entries, rep, p[|p| - 1])
  {
    if |p| > 1 {
      var q := p[..|p| - 1];
      PathKeepsRoot(entries, rep, q);
      ShareKeepsRoot(entries, rep, p[|p| - 1 - 1], p[|p| - 1]);
    }
  }

  lemma ShareKeepsRoot(entries: seq<Entry>, rep: string -> string, i: nat, j: nat)
    requires AllUnited(entries, |entries|, rep) && Share(entries, i, j)
    ensures KeyOf(entries, rep, i) == KeyOf(entries, rep, j)
  {
    var v :| v in entries[i].names && v in entries[j].names;
    assert United(rep, entries[i].names, |entries[i].names|) && United(rep, entries[j].names, |entries[j].names|);
  }

  // -- Joint exactness --------------------------------------------------------------------------

  /** Which values a variable takes. */
  type Domain = (string, real) -> bool

  ghost predicate Within(at: Valuation, domain: Domain) {
    forall v: string :: domain(v, at(v))
  }

  predicate Matches(entries: seq<Entry>, arith: Arithmetic, g: seq<nat>, at: Valuation, w: Clauses.Vector)
    requires |w| == |g| && InRange(entries, g)
  {
    forall n :: 0 <= n < |g| ==> g[n] in g && w[n] == Truth(entries[g[n]].comparison, at, arith)
  }

  /** Some values of the variables give the comparisons of `g` the truth values `w`. */
  ghost predicate Realised(entries: seq<Entry>, arith: Arithmetic, domain: Domain, g: seq<nat>, w: Clauses.Vector)
    requires |w| == |g| && InRange(entries, g)
  {
    exists at: Valuation :: Within(at, domain) && Matches(entries, arith, g, at, w)
  }

  function Restrict(vector: Clauses.Vector, g: seq<nat>): Clauses.Vector
    requires forall i :: i in g ==> i < |vector|
  {
    seq(|g|, n requires 0 <= n < |g| => assert g[n] in g; vector[g[n]])
  }

  ghost predicate JointlyRealised(entries: seq<Entry>, arith: Arithmetic, domain: Domain, vector: Clauses.Vector)
    requires |vector| == |entries|
  {
    exists at: Valuation :: Within(at, domain) && GivesAll(entries, arith, at, vector)
  }

  predicate GivesAll(entries: seq<Entry>, arith: Arithmetic, at: Valuation, vector: Clauses.Vector)
    requires |vector| == |entries|
  {
    forall i :: 0 <= i < |entries| ==> vector[i] == Truth(entries[i].comparison, at, arith)
  }

  ghost function Witness(entries: seq<Entry>, arith: Arithmetic, domain: Domain, g: seq<nat>,
                         w: Clauses.Vector): (at: Valuation)
    requires |w| == |g| && InRange(entries, g) && Realised(entries, arith, domain, g, w)
    ensures Within(at, domain) && Matches(entries, arith, g, at, w)
  {
    var at: Valuation :| Within(at, domain) && Matches(entries, arith, g, at, w);
    at
  }

  /** Every group has a witness of its own. */
  ghost predicate AllRealised(entries: seq<Entry>, arith: Arithmetic, domain: Domain, groups: set<seq<nat>>,
                              vector: Clauses.Vector)
    requires |vector| == |entries| && IsGrouping(entries, groups)
  {
    forall g :: g in groups ==> Realised(entries, arith, domain, g, Restrict(vector, g))
  }

  /** The group whose comparisons name a variable. */
  ghost function Owner(entries: seq<Entry>, groups: set<seq<nat>>, v: string): (owner: Option<seq<nat>>)
    requires IsGrouping(entries, groups)
    ensures owner.Some? ==> owner.value in groups
  {
    if exists i: nat :: i < |entries| && v in entries[i].names then
      var i: nat :| i < |entries| && v in entries[i].names;
      assert Covered(groups, i);
      var g :| g in groups && i in g;
      Some(g)
    else None
  }

  lemma OwnerIs(entries: seq<Entry>, groups: set<seq<nat>>, g: seq<nat>, j: nat, v: string)
    requires IsGrouping(entries, groups) && g in groups && j in g && j < |entries| && v in entries[j].names
    ensures Owner(entries, groups, v) == Some(g)
  {
    forall i: nat, h | i < |entries| && v in entries[i].names && h in groups && i in h ensures h == g {
      ShareLinks(entries, i, j, v);
      assert SameGroupIffLinked(entries, h, g);
    }
  }

  /** Each variable as in the valuation `own` of its group. */
  ghost function Glued(entries: seq<Entry>, groups: set<seq<nat>>, own: seq<nat> -> Valuation,
                       spare: Valuation): Valuation
    requires IsGrouping(entries, groups)
  {
    (v: string) =>
      var owner := Owner(entries, groups, v);
      if owner.Some? then own(owner.value)(v) else spare(v)
  }

  lemma GluedGives(entries: seq<Entry>, arith: Arithmetic, groups: set<seq<nat>>, own: seq<nat> -> Valuation,
                   spare: Valuation, i: nat) returns (g: seq<nat>)
    requires Listed(entries) && IsGrouping(entries, groups) && i < |entries|
    ensures g in groups && i in g
    ensures Truth(entries[i].comparison, Glued(entries, groups, own, spare), arith) == Truth(entries[i].comparison, own(g), arith)
  {
    assert Covered(groups, i);
    g :| g in groups && i in g;
    forall v | v in Variables(entries[i].comparison) ensures Glued(entries, groups, own, spare)(v) == own(g)(v) {
      OwnerIs(entries, groups, g, i, v);
    }
    TruthReadsVariables(entries[i].comparison, Glued(entries, groups, own, spare), own(g), arith);
  }

  /** A truth vector is jointly realisable exactly when each group realises its part of it. */
  lemma JointlyByGroups(entries: seq<Entry>, arith: Arithmetic, domain: Domain, groups: set<seq<nat>>,
                        vector: Clauses.Vector)
    requires Listed(entries) && |vector| == |entries| && IsGrouping(entries, groups)
    requires exists at: Valuation :: Within(at, domain)
    ensures JointlyRealised(entries, arith, domain, vector) <==> AllRealised(entries, arith, domain, groups, vector)
  {
    if JointlyRealised(entries, arith, domain, vector) {
      var at: Valuation :| Within(at, domain) && GivesAll(entries, arith, at, vector);
      forall g | g in groups ensures Realised(entries, arith, domain, g, Restrict(vector, g)) {
        assert Matches(entries, arith, g, at, Restrict(vector, g));
      }
    }
    if AllRealised(entries, arith, domain, groups, vector) {
      GluedRealises(entries, arith, domain, groups, vector);
    }
  }

  lemma GluedRealises(entries: seq<Entry>, arith: Arithmetic, domain: Domain, groups: set<seq<nat>>,
                      vector: Clauses.Vector)
    requires Listed(entries) && |vector| == |entries| && IsGrouping(entries, groups)
    requires AllRealised(entries, arith, domain, groups, vector)
    requires exists at: Valuation :: Within(at, domain)
    ensures JointlyRealised(entries, arith, domain, vector)
  {
    var spare: Valuation :| Within(spare, domain);
    var own := Witnesses(entries, arith, domain, groups, vector, spare);
    var at := Glued(entries, groups, own, spare);
    GluedWithin(entries, domain, groups, own, spare);
    forall i | 0 <= i < |entries| ensures vector[i] == Truth(entries[i].comparison, at, arith) {
      var g := GluedGives(entries, arith, groups, own, spare, i);
      MatchAt(entries, arith, g, own(g), vector, i);
    }
    assert GivesAll(entries, arith, at, vector);
  }

  lemma GluedWithin(entries: seq<Entry>, domain: Domain, groups: set<seq<nat>>, own: seq<nat> -> Valuation,
                    spare: Valuation)
    requires IsGrouping(entries, groups) && Within(spare, domain) && forall g :: g in groups ==> Within(own(g), domain)
    ensures Within(Glued(entries, groups, own, spare), domain)
  {
    forall v: string ensures domain(v, Glued(entries, groups, own, spare)(v)) {
      var owner := Owner(entries, groups, v);
      if owner.Some? { assert Within(own(owner.value), domain); }
    }
  }

  lemma MatchAt(entries: seq<Entry>, arith: Arithmetic, g: seq<nat>, at: Valuation, vector: Clauses.Vector, i: nat)
    requires |vector| == |entries| && InRange(entries, g) && i in g
    requires Matches(entries, arith, g, at, Restrict(vector, g))
    ensures vector[i] == Truth(entries[i].comparison, at, arith)
  {
    var n :| 0 <= n < |g| && g[n] == i;
    assert Restrict(vector, g)[n] == Truth(entries[g[n]].comparison, at, arith);
  }

  ghost function Witnesses(entries: seq<Entry>, arith: Arithmetic, domain: Domain, groups: set<seq<nat>>,
                           vector: Clauses.Vector, spare: Valuation): (own: seq<nat> -> Valuation)
    requires |vector| == |entries| && IsGrouping(entries, groups)
    requires AllRealised(entries, arith, domain, groups, vector)
    ensures forall g :: g in groups ==> Within(own(g), domain) && Matches(entries, arith, g, own(g), Restrict(vector, g))
  {
    (g: seq<nat>) => if g in groups then Witness(entries, arith, domain, g, Restrict(vector, g)) else spare
  }

  /** The conjunction of exact clauses for each group admits exactly the jointly realisable vectors. */
  lemma ConjunctionIsJointlyExact(entries: seq<Entry>, arith: Arithmetic, domain: Domain, groups: set<seq<nat>>,
                                  clauses: map<seq<nat>, seq<Clauses.Clause>>, vector: Clauses.Vector)
    requires Listed(entries) && |vector| == |entries| && IsGrouping(entries, groups)
    requires exists at: Valuation :: Within(at, domain)
    requires clauses.Keys == groups
    requires forall g, w: Clauses.Vector :: g in groups && |w| == |g| ==>
               (Clauses.Admits(clauses[g], w) <==> Realised(entries, arith, domain, g, w))
    ensures (forall g :: g in groups ==> Clauses.Admits(clauses[g], Restrict(vector, g)))
       <==> JointlyRealised(entries, arith, domain, vector)
  {
    JointlyByGroups(entries, arith, domain, groups, vector);
  }
}
