/** Which texts are seed ranges and what they list, without reading them from left to right. */
module SeedGrammar {
  import opened Decimals
  import opened SeedRanges
  import opened Sequences
  import opened Wrappers

  const BLANKS := " \t\n\U{b}\U{c}\r\U{1c}\U{1d}\U{1e}\U{1f}"
  const DIGITS := "0123456789"

  predicate Pad(s: string) {
    forall c :: c in s ==> c in BLANKS
  }

  predicate Digits(s: string) {
    s != "" && forall c :: c in s ==> c in DIGITS
  }

  lemma BlankCharacters(c: char)
    ensures c in BLANKS <==> IsBlank(c)
  {
    assert BLANKS[0] == ' ' && BLANKS[1] as int == 9 && BLANKS[2] as int == 10 && BLANKS[3] as int == 11
           && BLANKS[4] as int == 12 && BLANKS[5] as int == 13 && BLANKS[6] as int == 28 && BLANKS[7] as int == 29
           && BLANKS[8] as int == 30 && BLANKS[9] as int == 31 && |BLANKS| == 10;
  }

  lemma DigitCharacters(c: char)
    ensures c in DIGITS <==> IsDigit(c)
  {
    assert DIGITS[0] == '0' && DIGITS[1] == '1' && DIGITS[2] == '2' && DIGITS[3] == '3' && DIGITS[4] == '4'
           && DIGITS[5] == '5' && DIGITS[6] == '6' && DIGITS[7] == '7' && DIGITS[8] == '8' && DIGITS[9] == '9'
           && |DIGITS| == 10;
  }

  lemma DigitsAre(s: string)
    ensures Digits(s) <==> IsDigits(s)
  {
    forall c ensures c in DIGITS <==> IsDigit(c) { DigitCharacters(c); }
    forall i | 0 <= i < |s| ensures s[i] in s {}
  }

  /** A text with blanks around it. */
  function Padded(before: string, text: string, after: string): string {
    before + text + after
  }

  /** One seed, blanks around it. */
  ghost predicate SpellsSeed(part: string, seed: nat) {
    exists a, d, b :: part == Padded(a, d, b) && Pad(a) && Pad(b) && IsNumber(d, seed)
  }

  predicate IsNumber(d: string, n: nat) {
    Digits(d) && IsDigits(d) && Denoted(d) == n
  }

  function Spaced(x: string, y: string): string {
    x + "-" + y
  }

  /** Two seeds with a dash between them, each with blanks around it. */
  ghost predicate SpellsSpan(part: string, lo: nat, hi: nat) {
    exists x, y :: part == Spaced(x, y) && SpellsSeed(x, lo) && SpellsSeed(y, hi)
  }

  ghost predicate Spells(part: string, run: Run) {
    (run.lo == run.hi && SpellsSeed(part, run.lo)) || SpellsSpan(part, run.lo, run.hi)
  }

  // -- Blanks around a text ---------------------------------------------------------------------

  predicate Solid(s: string) {
    s == "" || (!IsBlank(s[0]) && !IsBlank(s[|s| - 1]))
  }

  lemma {:induction false} StripLeftIs(s: string) returns (a: string)
    ensures Pad(a) && s == a + StripLeft(s) && (StripLeft(s) != "" ==> !IsBlank(StripLeft(s)[0]))
  {
    if s != "" && IsBlank(s[0]) {
      var rest := StripLeftIs(s[1..]);
      BlankCharacters(s[0]);
      a := [s[0]] + rest;
    } else {
      a := "";
    }
  }

  lemma {:induction false} StripRightIs(s: string) returns (b: string)
    ensures Pad(b) && s == StripRight(s) + b && (StripRight(s) != "" ==> !IsBlank(StripRight(s)[|StripRight(s)| - 1]))
  {
    if s != "" && IsBlank(s[|s| - 1]) {
      var rest := StripRightIs(s[..|s| - 1]);
      BlankCharacters(s[|s| - 1]);
      b := rest + [s[|s| - 1]];
    } else {
      b := "";
    }
  }

  lemma StripIs(s: string) returns (a: string, b: string)
    ensures Pad(a) && Pad(b) && s == Padded(a, Strip(s), b) && Solid(Strip(s))
  {
    a := StripLeftIs(s);
    b := StripRightIs(StripLeft(s));
    var left := StripLeft(s);
    if Strip(s) != "" { assert left[0] == Strip(s)[0]; }
  }

  lemma {:induction false} StripLeftOf(a: string, t: string)
    requires Pad(a) && (t != "" ==> !IsBlank(t[0]))
    ensures StripLeft(a + t) == t
  {
    if a == "" {
      assert a + t == t;
    } else {
      assert a[0] in a;
      BlankCharacters(a[0]);
      assert (a + t)[1..] == a[1..] + t;
      StripLeftOf(a[1..], t);
    }
  }

  lemma {:induction false} StripRightOf(t: string, b: string)
    requires Pad(b) && (t != "" ==> !IsBlank(t[|t| - 1]))
    ensures StripRight(t + b) == t
  {
    if b == "" {
      assert t + b == t;
    } else {
      var n := |b| - 1;
      assert b[n] in b;
      BlankCharacters(b[n]);
      assert (t + b)[..|t + b| - 1] == t + b[..n];
      StripRightOf(t, b[..n]);
    }
  }

  /** Only one text is left when the blanks around it are gone. */
  lemma StripOf(a: string, t: string, b: string)
    requires Pad(a) && Pad(b) && Solid(t)
    ensures Strip(Padded(a, t, b)) == t
  {
    if t == "" {
      assert Padded(a, t, b) == (a + b) + "";
      StripLeftOf(a + b, "");
    } else {
      assert Padded(a, t, b) == a + (t + b) && (t + b)[0] == t[0];
      StripLeftOf(a, t + b);
      StripRightOf(t, b);
    }
  }

  lemma NumberIsSolid(d: string)
    requires Digits(d)
    ensures IsDigits(d) && Solid(d) && ',' !in d && '-' !in d
  {
    DigitsAre(d);
    assert IsDigit(d[0]) && IsDigit(d[|d| - 1]);
  }

  lemma SeedIsStripped(part: string, seed: nat)
    ensures SpellsSeed(part, seed) <==> IsNumber(Strip(part), seed)
  {
    if a, d, b :| part == Padded(a, d, b) && Pad(a) && Pad(b) && IsNumber(d, seed) {
      NumberIsSolid(d);
      StripOf(a, d, b);
    }
    if IsNumber(Strip(part), seed) {
      var a, b := StripIs(part);
    }
  }

  lemma SeedHasNone(part: string, seed: nat)
    requires SpellsSeed(part, seed)
    ensures ',' !in part && '-' !in part && Strip(part) != ""
  {
    var a, d, b :| part == Padded(a, d, b) && Pad(a) && Pad(b) && IsNumber(d, seed);
    NumberIsSolid(d);
    StripOf(a, d, b);
    BlankCharacters(',');
    BlankCharacters('-');
  }

  // -- One part ---------------------------------------------------------------------------------

  lemma MiddleIs(a: string, d: string, b: string, a': string, d': string, b': string)
    ensures Spaced(Padded(a, d, b), Padded(a', d', b')) == Padded(a, Spaced(d + b, a' + d'), b')
  {}

  lemma MiddleSplits(left: string, right: string)
    requires '-' !in left
    ensures var p := Spaced(left, right);
      Find(p, '-') == |left| < |p| && p[..|left|] == left && p[|left| + 1..] == right
  {
    FindAfter(left, '-', right);
    assert Spaced(left, right) == left + ['-'] + right;
  }

  lemma SpanStrips(a: string, d: string, b: string, a': string, d': string, b': string)
    requires Pad(a) && Pad(b) && Pad(a') && Pad(b') && Digits(d) && Digits(d')
    ensures Strip(Spaced(Padded(a, d, b), Padded(a', d', b'))) == Spaced(d + b, a' + d')
    ensures '-' !in d + b && Strip(d + b) == d && Strip(a' + d') == d'
  {
    hide Digits, Strip;
    NumberIsSolid(d);
    NumberIsSolid(d');
    BlankCharacters('-');
    var middle := Spaced(d + b, a' + d');
    assert middle[0] == d[0] && middle[|middle| - 1] == d'[|d'| - 1];
    MiddleIs(a, d, b, a', d', b');
    StripOf(a, middle, b');
    assert d + b == Padded("", d, b) && a' + d' == Padded(a', d', "");
    StripOf("", d, b);
    StripOf(a', d', "");
  }

  /** A part without the blanks at its ends spells what it spelt before. */
  lemma StrippedSpan(part: string, lo: nat, hi: nat)
    requires SpellsSpan(part, lo, hi)
    ensures var p := Strip(part); var at := Find(p, '-');
      at < |p| && IsNumber(Strip(p[..at]), lo) && IsNumber(Strip(p[at + 1..]), hi)
  {
    hide Padded, Spaced, Digits, Strip, Pad;
    var x, y :| part == Spaced(x, y) && SpellsSeed(x, lo) && SpellsSeed(y, hi);
    var a, d, b :| x == Padded(a, d, b) && Pad(a) && Pad(b) && IsNumber(d, lo);
    var a', d', b' :| y == Padded(a', d', b') && Pad(a') && Pad(b') && IsNumber(d', hi);
    SpanStrips(a, d, b, a', d', b');
    MiddleSplits(d + b, a' + d');
  }

  lemma SpanOfStripped(part: string, lo: nat, hi: nat)
    requires var p := Strip(part); var at := Find(p, '-');
      at < |p| && IsNumber(Strip(p[..at]), lo) && IsNumber(Strip(p[at + 1..]), hi)
    ensures SpellsSpan(part, lo, hi)
  {
    hide Padded, Digits, Strip, Pad, IsNumber;
    var p := Strip(part);
    var at := Find(p, '-');
    var a, b := StripIs(part);
    SeedIsStripped(p[..at], lo);
    SeedIsStripped(p[at + 1..], hi);
    assert p == Spaced(p[..at], p[at + 1..]);
    SpanPads(part, a, p[..at], p[at + 1..], b, lo, hi);
  }

  lemma SpanPads(part: string, a: string, x: string, y: string, b: string, lo: nat, hi: nat)
    requires part == Padded(a, Spaced(x, y), b) && Pad(a) && Pad(b) && SpellsSeed(x, lo) && SpellsSeed(y, hi)
    ensures SpellsSpan(part, lo, hi)
  {
    hide IsNumber;
    SeedPads(a, x, "", lo);
    SeedPads("", y, b, hi);
    assert Padded(a, x, "") == a + x && Padded("", y, b) == y + b;
    assert part == Spaced(a + x, y + b);
  }

  /** More blanks around a seed. */
  lemma SeedPads(a: string, x: string, b: string, n: nat)
    requires Pad(a) && Pad(b) && SpellsSeed(x, n)
    ensures SpellsSeed(Padded(a, x, b), n)
  {
    hide IsNumber;
    var c, d, e :| x == Padded(c, d, e) && Pad(c) && Pad(e) && IsNumber(d, n);
    assert Padded(a, x, b) == Padded(a + c, d, e + b);
  }

  lemma SpanHasNone(part: string, lo: nat, hi: nat)
    requires SpellsSpan(part, lo, hi)
    ensures ',' !in part && '-' in part && Strip(part) != ""
  {
    var x, y :| part == Spaced(x, y) && SpellsSeed(x, lo) && SpellsSeed(y, hi);
    SeedHasNone(x, lo);
    SeedHasNone(y, hi);
    assert part[|x|] == '-';
    StrippedSpan(part, lo, hi);
  }

  lemma NumberIsOne(d: string, n: nat, m: nat)
    requires IsNumber(d, n) && IsNumber(d, m)
    ensures n == m
  {}

  lemma NumberOf(d: string)
    requires IsDigits(d)
    ensures IsNumber(d, Denoted(d))
  {
    DigitsAre(d);
  }

  /** Without a dash only a lone seed can be meant. */
  lemma PlainPart(part: string, run: Run)
    requires Find(Strip(part), '-') == |Strip(part)| && Strip(part) != ""
    ensures ParsePart(part) == Ok(run) <==> Spells(part, run) && run.lo <= run.hi
    ensures ParsePart(part) != Err(CountsBackwards) && ParsePart(part) != Err(EmptyComponent)
  {
    var p := Strip(part);
    var a, b := StripIs(part);
    StripOf("", p, "");
    assert Padded("", p, "") == p && p[..|p|] == p;
    SeedIsStripped(part, run.lo);
    if IsDigits(p) { NumberOf(p); }
    if SpellsSpan(part, run.lo, run.hi) { StrippedSpan(part, run.lo, run.hi); }
  }

  lemma DashInside(part: string)
    requires Find(Strip(part), '-') < |Strip(part)|
    ensures '-' in part
  {
    var p := Strip(part);
    var a, b := StripIs(part);
    assert part[|a| + Find(p, '-')] == p[Find(p, '-')];
  }

  lemma DashedPart(part: string, run: Run)
    requires Find(Strip(part), '-') < |Strip(part)|
    ensures ParsePart(part) == Ok(run) <==> Spells(part, run) && run.lo <= run.hi
  {
    hide SpellsSeed, SpellsSpan;
    DashInside(part);
    if SpellsSeed(part, run.lo) { SeedHasNone(part, run.lo); }
    if SpellsSpan(part, run.lo, run.hi) { SpannedPart(part, run.lo, run.hi); }
    if ParsePart(part) == Ok(run) { ReadSpan(part); }
  }

  lemma BackwardPart(part: string)
    requires Find(Strip(part), '-') < |Strip(part)|
    ensures ParsePart(part) == Err(CountsBackwards) <==> exists lo, hi :: SpellsSpan(part, lo, hi) && hi < lo
  {
    hide SpellsSpan;
    if lo, hi :| SpellsSpan(part, lo, hi) && hi < lo { SpannedPart(part, lo, hi); }
    if ParsePart(part) == Err(CountsBackwards) { ReadSpan(part); }
  }

  /** What a part with a dash is read as, it spells. */
  lemma ReadSpan(part: string)
    requires Find(Strip(part), '-') < |Strip(part)|
    requires ParsePart(part).Ok? || ParsePart(part) == Err(CountsBackwards)
    ensures var p := Strip(part); var at := Find(p, '-');
      && IsDigits(Strip(p[..at])) && IsDigits(Strip(p[at + 1..]))
      && SpellsSpan(part, Denoted(Strip(p[..at])), Denoted(Strip(p[at + 1..])))
  {
    var p := Strip(part);
    var at := Find(p, '-');
    NumberOf(Strip(p[..at]));
    NumberOf(Strip(p[at + 1..]));
    SpanOfStripped(part, Denoted(Strip(p[..at])), Denoted(Strip(p[at + 1..])));
  }

  lemma SpannedPart(part: string, lo: nat, hi: nat)
    requires SpellsSpan(part, lo, hi)
    ensures ParsePart(part) == if hi < lo then Err(CountsBackwards) else Ok(Run(lo, hi))
  {
    StrippedSpan(part, lo, hi);
    SpanHasNone(part, lo, hi);
  }

  /** A part reads as a run exactly when it spells one that does not count backwards. */
  lemma PartReads(part: string, run: Run)
    ensures ParsePart(part) == Ok(run) <==> Spells(part, run) && run.lo <= run.hi
    ensures ParsePart(part) == Err(EmptyComponent) <==> Pad(part)
    ensures ParsePart(part) == Err(CountsBackwards) <==> exists lo, hi :: SpellsSpan(part, lo, hi) && hi < lo
  {
    var a, b := StripIs(part);
    if Strip(part) == "" {
      if SpellsSeed(part, run.lo) { SeedHasNone(part, run.lo); }
      if lo, hi :| SpellsSpan(part, lo, hi) { SpanHasNone(part, lo, hi); }
    } else {
      if Pad(part) { assert part == Padded(part, "", ""); StripOf(part, "", ""); }
      if Find(Strip(part), '-') == |Strip(part)| {
        PlainPart(part, run);
        if lo, hi :| SpellsSpan(part, lo, hi) && hi < lo { SpannedPart(part, lo, hi); }
      } else {
        DashedPart(part, run);
        BackwardPart(part);
      }
    }
  }

  // -- Whole texts ------------------------------------------------------------------------------

  /** The parts, joined by commas, spell the runs, and none counts backwards. */
  ghost predicate ListsParts(text: string, parts: seq<string>, runs: seq<Run>) {
    && |parts| == |runs| > 0 && text == Join(parts)
    && forall i :: 0 <= i < |runs| ==> Spells(parts[i], runs[i]) && runs[i].lo <= runs[i].hi
  }

  ghost predicate Lists(text: string, runs: seq<Run>) {
    exists parts :: ListsParts(text, parts, runs)
  }

  predicate Covers(runs: seq<Run>, x: nat) {
    exists i :: 0 <= i < |runs| && runs[i].lo <= x <= runs[i].hi
  }

  /** No seed is in two runs. */
  predicate Apart(runs: seq<Run>) {
    forall i, j :: 0 <= i < j < |runs| ==> runs[i].hi < runs[j].lo || runs[j].hi < runs[i].lo
  }

  /** The seeds of the runs, each once and in order. */
  ghost predicate IsUnion(seeds: seq<nat>, runs: seq<Run>) {
    && (forall i, j :: 0 <= i < j < |seeds| ==> seeds[i] < seeds[j])
    && forall x: nat :: x in seeds <==> Covers(runs, x)
  }

  lemma {:induction false} JoinSplit(text: string)
    ensures Split(text) != [] && Join(Split(text)) == text
    ensures forall i :: 0 <= i < |Split(text)| ==> ',' !in Split(text)[i]
    decreases |text|
  {
    var at := Find(text, ',');
    if at < |text| {
      var rest := text[at + 1..];
      JoinSplit(rest);
      assert text == text[..at] + "," + rest;
      assert Split(text) == [text[..at]] + Split(rest);
      assert ([text[..at]] + Split(rest))[1..] == Split(rest);
    }
  }

  lemma NoComma(part: string, run: Run)
    requires Spells(part, run)
    ensures ',' !in part && Strip(part) != ""
  {
    if SpellsSeed(part, run.lo) { SeedHasNone(part, run.lo); } else { SpanHasNone(part, run.lo, run.hi); }
  }

  /** Parts that each read. */
  predicate EachReads(parts: seq<string>, runs: seq<Run>) {
    |parts| == |runs| && forall i :: 0 <= i < |parts| ==> ParsePart(parts[i]) == Ok(runs[i])
  }

  lemma {:induction false} ReadParts(parts: seq<string>, runs: seq<Run>)
    requires EachReads(parts, runs)
    ensures ParseParts(parts) == Ok(Flatten(runs))
  {
    if parts != [] { ReadParts(parts[..|parts| - 1], runs[..|runs| - 1]); }
  }

  lemma {:induction false} PartsRead(parts: seq<string>) returns (runs: seq<Run>)
    requires ParseParts(parts).Ok?
    ensures EachReads(parts, runs) && ParseParts(parts) == Ok(Flatten(runs))
  {
    hide ParsePart;
    if parts == [] {
      runs := [];
    } else {
      var n := |parts| - 1;
      var before := PartsRead(parts[..n]);
      runs := before + [ParsePart(parts[n]).value];
      assert runs[..n] == before;
    }
  }

  lemma EachSpells(parts: seq<string>, runs: seq<Run>)
    requires |parts| == |runs|
    ensures EachReads(parts, runs)
       <==> forall i :: 0 <= i < |runs| ==> Spells(parts[i], runs[i]) && runs[i].lo <= runs[i].hi
  {
    hide Spells, ParsePart;
    forall i | 0 <= i < |parts|
      ensures ParsePart(parts[i]) == Ok(runs[i]) <==> Spells(parts[i], runs[i]) && runs[i].lo <= runs[i].hi
    {
      PartReads(parts[i], runs[i]);
    }
  }

  predicate Forward(runs: seq<Run>) {
    forall i :: 0 <= i < |runs| ==> runs[i].lo <= runs[i].hi
  }

  lemma SeedsOfHas(run: Run, x: nat)
    ensures x in SeedsOf(run) <==> run.lo <= x <= run.hi
  {
    if run.lo <= x <= run.hi { assert SeedsOf(run)[x - run.lo] == x; }
  }

  lemma {:induction false} FlattenHas(runs: seq<Run>, x: nat)
    ensures x in Flatten(runs) <==> Covers(runs, x)
  {
    if runs != [] {
      var n := |runs| - 1;
      FlattenHas(runs[..n], x);
      SeedsOfHas(runs[n], x);
      if i :| 0 <= i < n && runs[i].lo <= x <= runs[i].hi { assert runs[..n][i] == runs[i]; }
      if i :| 0 <= i < n && runs[..n][i].lo <= x <= runs[..n][i].hi { assert runs[i] == runs[..n][i]; }
    }
  }

  lemma DistinctJoin(a: seq<nat>, b: seq<nat>)
    ensures Distinct(a + b) <==> Distinct(a) && Distinct(b) && forall x :: x in a ==> x !in b
  {
    var c := a + b;
    if Distinct(c) {
      forall i, j | 0 <= i < j < |b| ensures b[i] != b[j] { assert c[|a| + i] == b[i] && c[|a| + j] == b[j]; }
      forall i, j | 0 <= i < j < |a| ensures a[i] != a[j] { assert c[i] == a[i] && c[j] == a[j]; }
      forall x | x in a ensures x !in b {
        var i :| 0 <= i < |a| && a[i] == x;
        assert c[i] == x && forall j :: 0 <= j < |b| ==> c[|a| + j] == b[j];
      }
    }
    if Distinct(a) && Distinct(b) && forall x :: x in a ==> x !in b {
      forall i, j | 0 <= i < j < |c| ensures c[i] != c[j] {
        if i < |a| <= j { assert a[i] in a && b[j - |a|] in b; }
      }
    }
  }

  lemma {:induction false} FlattenDistinct(runs: seq<Run>)
    requires Forward(runs)
    ensures Distinct(Flatten(runs)) <==> Apart(runs)
  {
    if runs != [] {
      var n := |runs| - 1;
      FlattenDistinct(runs[..n]);
      DistinctJoin(Flatten(runs[..n]), SeedsOf(runs[n]));
      LastApart(runs);
    }
  }

  lemma LastApart(runs: seq<Run>)
    requires Forward(runs) && runs != []
    ensures var n := |runs| - 1;
      Apart(runs) <==> Apart(runs[..n]) && forall x :: x in Flatten(runs[..n]) ==> x !in SeedsOf(runs[n])
  {
    var n := |runs| - 1;
    var before, last := runs[..n], runs[n];
    if forall x :: x in Flatten(before) ==> x !in SeedsOf(last) {
      forall i | 0 <= i < n ensures runs[i].hi < last.lo || last.hi < runs[i].lo {
        var x := if runs[i].lo < last.lo then last.lo else runs[i].lo;
        assert before[i] == runs[i];
        FlattenHas(before, x);
        SeedsOfHas(last, x);
      }
    }
    if Apart(runs) {
      forall x | x in Flatten(before) ensures x !in SeedsOf(last) {
        FlattenHas(before, x);
        SeedsOfHas(last, x);
        var i :| 0 <= i < n && before[i].lo <= x <= before[i].hi;
        assert runs[i] == before[i];
      }
    }
  }

  lemma SortedUnion(runs: seq<Run>)
    requires Forward(runs) && Apart(runs)
    ensures IsUnion(Sorted(Flatten(runs)), runs)
  {
    hide Sorted, Flatten;
    var seeds := Sorted(Flatten(runs));
    FlattenDistinct(runs);
    StrictlySorted(Flatten(runs));
    forall x: nat ensures x in seeds <==> Covers(runs, x) {
      FlattenHas(runs, x);
      SortedHas(Flatten(runs), x);
    }
  }

  lemma SortedHas(s: seq<nat>, x: nat)
    ensures x in Sorted(s) <==> x in s
  {
    hide Sorted;
    assert x in Sorted(s) <==> x in multiset(Sorted(s));
    assert x in s <==> x in multiset(s);
  }

  lemma StrictlySorted(s: seq<nat>)
    requires Distinct(s)
    ensures forall i, j :: 0 <= i < j < |Sorted(s)| ==> Sorted(s)[i] < Sorted(s)[j]
  {
    hide Sorted;
    SameCountsSameDistinct(Sorted(s), s);
  }

  lemma {:induction false} UnionIsUnique(s: seq<nat>, t: seq<nat>)
    requires (forall i, j :: 0 <= i < j < |s| ==> s[i] < s[j]) && (forall i, j :: 0 <= i < j < |t| ==> t[i] < t[j])
    requires forall x: nat :: x in s <==> x in t
    ensures s == t
  {
    if s == [] {
      if t != [] { HeadIsMember(t); }
    } else {
      var n, m := |s| - 1, |t| - 1;
      assert s[n] in s && s[n] in t;
      assert t[m] in t && t[m] in s;
      assert s[n] == t[m];
      forall x: nat ensures x in s[..n] <==> x in t[..m] { ButLast(s, x); ButLast(t, x); }
      UnionIsUnique(s[..n], t[..m]);
    }
  }

  lemma HeadIsMember(s: seq<nat>)
    requires s != []
    ensures s[0] in s
  {}

  lemma ButLast(s: seq<nat>, x: nat)
    requires s != [] && forall i, j :: 0 <= i < j < |s| ==> s[i] < s[j]
    ensures x in s[..|s| - 1] <==> x in s && x != s[|s| - 1]
  {}

  lemma BlankText(text: string)
    ensures Strip(text) == "" <==> Pad(text)
  {
    var a, b := StripIs(text);
    if Pad(text) { assert text == Padded(text, "", ""); StripOf(text, "", ""); }
  }

  lemma {:induction false} JoinHolds(parts: seq<string>, i: nat, c: char)
    requires i < |parts| && c in parts[i]
    ensures c in Join(parts)
  {
    if |parts| > 1 && i > 0 { JoinHolds(parts[1..], i - 1, c); }
  }

  /** A text that lists runs is split into the parts that spell them. */
  lemma ListedIsSplit(text: string, parts: seq<string>, runs: seq<Run>)
    requires ListsParts(text, parts, runs)
    ensures !Pad(text) && Split(text) == parts && EachReads(parts, runs) && Forward(runs)
  {
    hide Spells, ParsePart;
    EachSpells(parts, runs);
    forall i | 0 <= i < |parts| ensures ',' !in parts[i] { NoComma(parts[i], runs[i]); }
    SplitJoined(parts);
    NoComma(parts[0], runs[0]);
    BlankText(parts[0]);
    var c :| c in parts[0] && c !in BLANKS;
    JoinHolds(parts, 0, c);
  }

  lemma SplitIsListed(text: string) returns (runs: seq<Run>)
    requires ParseParts(Split(text)).Ok?
    ensures ListsParts(text, Split(text), runs) && Forward(runs) && ParseParts(Split(text)) == Ok(Flatten(runs))
  {
    hide Spells, ParsePart;
    JoinSplit(text);
    runs := PartsRead(Split(text));
    EachSpells(Split(text), runs);
  }

  lemma ListedReads(text: string, runs: seq<Run>)
    requires Lists(text, runs)
    ensures Forward(runs) && Parsed(text) == if Apart(runs) then Ok(Sorted(Flatten(runs))) else Err(RepeatsSeed)
  {
    hide Sorted, Flatten, ListsParts;
    var parts :| ListsParts(text, parts, runs);
    ListedIsSplit(text, parts, runs);
    ReadParts(parts, runs);
    BlankText(text);
    FlattenDistinct(runs);
  }

  /** A text is read as a list of seeds exactly when it lists runs no two of which share a seed, and the
      list is what they hold, in order; it is refused for a repetition exactly when it lists runs of which
      two do; and as empty when it is blank. */
  lemma SeedRangeReads(text: string, seeds: seq<nat>)
    ensures Parsed(text) == Ok(seeds) <==> exists runs :: Lists(text, runs) && Apart(runs) && IsUnion(seeds, runs)
    ensures Parsed(text) == Err(RepeatsSeed) <==> exists runs :: Lists(text, runs) && !Apart(runs)
    ensures Parsed(text) == Err(EmptyText) <==> Pad(text)
  {
    hide Lists, Apart, IsUnion, Sorted, Flatten;
    BlankText(text);
    if runs :| Lists(text, runs) && Apart(runs) && IsUnion(seeds, runs) {
      ListedReads(text, runs);
      SortedUnion(runs);
      SameUnion(seeds, Sorted(Flatten(runs)), runs);
    }
    if runs :| Lists(text, runs) && !Apart(runs) { ListedReads(text, runs); }
    if Parsed(text).Ok? || Parsed(text) == Err(RepeatsSeed) {
      var runs := ReadLists(text);
      ListedReads(text, runs);
      if Apart(runs) { SortedUnion(runs); }
    }
    PartErrors(Split(text));
  }

  lemma SameUnion(s: seq<nat>, t: seq<nat>, runs: seq<Run>)
    requires IsUnion(s, runs) && IsUnion(t, runs)
    ensures s == t
  {
    UnionIsUnique(s, t);
  }

  lemma ReadLists(text: string) returns (runs: seq<Run>)
    requires Parsed(text).Ok? || Parsed(text) == Err(RepeatsSeed)
    ensures Lists(text, runs)
  {
    PartErrors(Split(text));
    runs := SplitIsListed(text);
  }

  /** The parts fail only for what is wrong with one of them. */
  lemma {:induction false} PartErrors(parts: seq<string>)
    ensures ParseParts(parts) != Err(RepeatsSeed) && ParseParts(parts) != Err(EmptyText)
  {
    if parts != [] { PartErrors(parts[..|parts| - 1]); }
  }

  /** The first part that does not read decides the error. */
  lemma {:induction false} FirstBadPart(parts: seq<string>, e: SeedError) returns (i: nat)
    requires ParseParts(parts) == Err(e)
    ensures i < |parts| && ParsePart(parts[i]) == Err(e) && forall j :: 0 <= j < i ==> ParsePart(parts[j]).Ok?
  {
    var n := |parts| - 1;
    if ParseParts(parts[..n]).Err? {
      i := FirstBadPart(parts[..n], e);
    } else {
      i := n;
      var runs := PartsRead(parts[..n]);
      forall j | 0 <= j < n ensures ParsePart(parts[j]).Ok? { assert parts[..n][j] == parts[j]; }
    }
  }

  /** A text that is not blank is refused for the first of its parts that is blank, is no seed or span, or
      counts backwards. */
  lemma SeedRangeRefused(text: string, e: SeedError) returns (parts: seq<string>, i: nat)
    requires Parsed(text) == Err(e) && e != RepeatsSeed && e != EmptyText
    ensures text == Join(parts) && i < |parts| && forall j :: 0 <= j < |parts| ==> ',' !in parts[j]
    ensures forall j :: 0 <= j < i ==> exists run :: Spells(parts[j], run) && run.lo <= run.hi
    ensures e == EmptyComponent <==> Pad(parts[i])
    ensures e == CountsBackwards <==> exists lo, hi :: SpellsSpan(parts[i], lo, hi) && hi < lo
    ensures forall run :: Spells(parts[i], run) ==> run.hi < run.lo
  {
    hide Spells, SpellsSpan, ParsePart;
    parts := Split(text);
    JoinSplit(text);
    i := FirstBadPart(parts, e);
    forall j | 0 <= j < i ensures exists run :: Spells(parts[j], run) && run.lo <= run.hi {
      var run := ParsePart(parts[j]).value;
      PartReads(parts[j], run);
    }
    forall run ensures Spells(parts[i], run) ==> run.hi < run.lo { PartReads(parts[i], run); }
    PartReads(parts[i], Run(0, 0));
  }

  // -- Writing ----------------------------------------------------------------------------------

  /** A run as text: a seed alone, or its two ends. */
  predicate WrittenAs(run: Run, text: string) {
    if run.lo == run.hi then text == Decimal(run.lo) else text == Decimal(run.lo) + "-" + Decimal(run.hi)
  }

  /** The runs lie in order, a gap between each and the next. */
  predicate Gapped(runs: seq<Run>) {
    Forward(runs) && forall i :: 0 <= i < |runs| - 1 ==> runs[i].hi + 1 < runs[i + 1].lo
  }

  lemma {:induction false} RunsAreMaximal(s: seq<nat>)
    requires forall i, j :: 0 <= i < j < |s| ==> s[i] < s[j]
    ensures Gapped(RunsOf(s))
  {
    if s != [] {
      var n := |s| - 1;
      RunsAreMaximal(s[..n]);
      var before := RunsOf(s[..n]);
      if before != [] { assert before[|before| - 1].hi == s[n - 1] < s[n]; }
    }
  }

  lemma RunTextWrites(run: Run)
    ensures WrittenAs(run, RunText(run))
  {}

  /** Seeds without repeats are written as their maximal runs. */
  lemma SeedRangeWrites(seeds: seq<nat>) returns (runs: seq<Run>, parts: seq<string>)
    requires Distinct(seeds)
    ensures Formatted(seeds) == Join(parts) && |parts| == |runs| && Gapped(runs)
    ensures forall i :: 0 <= i < |runs| ==> WrittenAs(runs[i], parts[i])
    ensures forall x: nat :: x in seeds <==> Covers(runs, x)
  {
    hide Sorted;
    var sorted := Sorted(seeds);
    StrictlySorted(seeds);
    RunsAreMaximal(sorted);
    runs := RunsOf(sorted);
    parts := RunTexts(runs);
    RunsFlatten(sorted);
    forall i | 0 <= i < |runs| ensures WrittenAs(runs[i], parts[i]) { RunTextWrites(runs[i]); }
    forall x: nat ensures x in seeds <==> Covers(runs, x) {
      FlattenHas(runs, x);
      SortedHas(seeds, x);
    }
  }
}
