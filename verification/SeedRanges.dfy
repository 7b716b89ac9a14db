/** Seed ranges as text, and the split of seeds between hosts. */
module SeedRanges {
  import opened Decimals
  import opened Sequences
  import opened Wrappers

  datatype SeedError = EmptyText | EmptyComponent | NotARange | CountsBackwards | RepeatsSeed

  // -- Text -------------------------------------------------------------------------------------

  predicate IsBlank(c: char) {
    c == ' ' || 9 <= c as int <= 13 || 28 <= c as int <= 31
  }

  function StripLeft(s: string): string {
    if s != "" && IsBlank(s[0]) then StripLeft(s[1..]) else s
  }

  function StripRight(s: string): string {
    if s != "" && IsBlank(s[|s| - 1]) then StripRight(s[..|s| - 1]) else s
  }

  function Strip(s: string): string {
    StripRight(StripLeft(s))
  }

  /** The first place of `c` in `s`, or the end. */
  function Find(s: string, c: char): (at: nat)
    ensures at <= |s| && (at < |s| ==> s[at] == c) && forall i :: 0 <= i < at ==> s[i] != c
  {
    if s == "" || s[0] == c then 0 else Find(s[1..], c) + 1
  }

  function Split(s: string): seq<string> {
    var at := Find(s, ',');
    if at == |s| then [s] else [s[..at]] + Split(s[at + 1..])
  }

  function Join(parts: seq<string>): string {
    if |parts| == 0 then "" else if |parts| == 1 then parts[0] else parts[0] + "," + Join(parts[1..])
  }

  lemma {:induction false} FindAfter(s: string, c: char, rest: string)
    requires c !in s
    ensures Find(s + [c] + rest, c) == |s|
  {
    if s != "" {
      assert (s + [c] + rest)[1..] == s[1..] + [c] + rest;
      FindAfter(s[1..], c, rest);
    }
  }

  lemma FindNone(s: string, c: char)
    requires c !in s
    ensures Find(s, c) == |s|
  {}

  lemma {:induction false} SplitJoined(parts: seq<string>)
    requires parts != [] && forall i :: 0 <= i < |parts| ==> ',' !in parts[i]
    ensures Split(Join(parts)) == parts
  {
    if |parts| == 1 {
      FindNone(parts[0], ',');
    } else {
      var rest := Join(parts[1..]);
      FindAfter(parts[0], ',', rest);
      assert Join(parts) == parts[0] + [','] + rest;
      assert Join(parts)[..|parts[0]|] == parts[0] && Join(parts)[|parts[0]| + 1..] == rest;
      SplitJoined(parts[1..]);
    }
  }

  // -- Sorting ----------------------------------------------------------------------------------

  predicate Ascending(s: seq<nat>) {
    forall i, j :: 0 <= i < j < |s| ==> s[i] <= s[j]
  }

  function Insert(x: nat, s: seq<nat>): (r: seq<nat>)
    requires Ascending(s)
    ensures Ascending(r) && multiset(r) == multiset(s) + multiset{x}
  {
    if s == [] || x <= s[0] then [x] + s
    else
      var r := Insert(x, s[1..]);
      InsertMembers(x, s, r);
      [s[0]] + r
  }

  lemma InsertMembers(x: nat, s: seq<nat>, r: seq<nat>)
    requires s != [] && s[0] < x && Ascending(s) && Ascending(r) && multiset(r) == multiset(s[1..]) + multiset{x}
    ensures Ascending([s[0]] + r) && multiset([s[0]] + r) == multiset(s) + multiset{x}
  {
    assert s == [s[0]] + s[1..];
    forall i | 0 <= i < |r| ensures s[0] <= r[i] {
      assert r[i] in multiset(r);
      if r[i] != x { assert r[i] in s[1..]; }
    }
  }

  function Sorted(s: seq<nat>): (r: seq<nat>)
    ensures Ascending(r) && multiset(r) == multiset(s)
  {
    if s == [] then []
    else
      assert s == [s[0]] + s[1..];
      Insert(s[0], Sorted(s[1..]))
  }

  lemma InsertAtFront(x: nat, s: seq<nat>)
    requires Ascending([x] + s) && Ascending(s)
    ensures Insert(x, s) == [x] + s
  {
    if s != [] { assert ([x] + s)[0] == x && ([x] + s)[1] == s[0]; }
  }

  lemma {:induction false} SortedStays(s: seq<nat>)
    requires Ascending(s)
    ensures Sorted(s) == s
  {
    if s != [] {
      SortedStays(s[1..]);
      InsertAtFront(s[0], s[1..]);
      assert s == [s[0]] + s[1..];
    }
  }

  lemma {:induction false} CountDistinct(s: seq<nat>, x: nat)
    requires Distinct(s)
    ensures multiset(s)[x] <= 1
  {
    if s != [] {
      var n := |s| - 1;
      CountDistinct(s[..n], x);
      assert s == s[..n] + [s[n]];
      if s[n] == x { assert x !in s[..n]; }
    }
  }

  lemma RepeatCounts(s: seq<nat>, i: nat, j: nat)
    requires i < j < |s| && s[i] == s[j]
    ensures multiset(s)[s[i]] >= 2
  {
    assert s == s[..j] + s[j..];
    assert s[..j][i] == s[i] && s[j..][0] == s[i];
    assert s[i] in s[..j] && s[i] in s[j..];
  }

  lemma SameCountsSameDistinct(s: seq<nat>, t: seq<nat>)
    requires multiset(s) == multiset(t)
    ensures Distinct(s) <==> Distinct(t)
  {
    if Distinct(s) && !Distinct(t) {
      var i: nat, j: nat :| i < j < |t| && t[i] == t[j];
      RepeatCounts(t, i, j);
      CountDistinct(s, t[i]);
    }
    if Distinct(t) && !Distinct(s) {
      var i: nat, j: nat :| i < j < |s| && s[i] == s[j];
      RepeatCounts(s, i, j);
      CountDistinct(t, s[i]);
    }
  }

  // -- Reading ----------------------------------------------------------------------------------

  datatype Run = Run(lo: nat, hi: nat)

  /** "7" or "0-99", blanks allowed around the numbers. */
  function ParsePart(part: string): Result<Run, SeedError> {
    var p := Strip(part);
    if p == "" then Err(EmptyComponent)
    else
      var at := Find(p, '-');
      var dash := at < |p|;
      var loText := Strip(p[..at]);
      var hiText := if dash then Strip(p[at + 1..]) else "";
      if !IsDigits(loText) || (dash && !IsDigits(hiText)) then Err(NotARange)
      else
        var lo := Denoted(loText);
        var hi := if dash then Denoted(hiText) else lo;
        if hi < lo then Err(CountsBackwards) else Ok(Run(lo, hi))
  }

  function SeedsOf(run: Run): seq<nat> {
    if run.hi < run.lo then [] else seq(run.hi - run.lo + 1, (i: nat) => run.lo + i)
  }

  function Flatten(runs: seq<Run>): seq<nat> {
    if |runs| == 0 then [] else Flatten(runs[..|runs| - 1]) + SeedsOf(runs[|runs| - 1])
  }

  /** The seeds of all parts, or what is wrong with the first bad one. */
  function ParseParts(parts: seq<string>): Result<seq<nat>, SeedError> {
    if |parts| == 0 then Ok([])
    else
      match ParseParts(parts[..|parts| - 1])
      case Err(e) => Err(e)
      case Ok(seeds) =>
        match ParsePart(parts[|parts| - 1])
        case Err(e) => Err(e)
        case Ok(run) => Ok(seeds + SeedsOf(run))
  }

  function Parsed(text: string): Result<seq<nat>, SeedError> {
    if Strip(text) == "" then Err(EmptyText)
    else
      match ParseParts(Split(text))
      case Err(e) => Err(e)
      case Ok(seeds) => if Distinct(seeds) then Ok(Sorted(seeds)) else Err(RepeatsSeed)
  }

  method ParseSeedRange(text: string) returns (r: Result<seq<nat>, SeedError>)
    ensures r == Parsed(text)
  {
    if Strip(text) == "" {
      return Err(EmptyText);
    }
    var seeds: seq<nat> := [];
    var parts := Split(text);
    for n := 0 to |parts|
      invariant ParseParts(parts[..n]) == Ok(seeds)
    {
      assert parts[..n + 1][..n] == parts[..n];
      var part := ParsePart(parts[n]);
      if part.Err? {
        FirstErrorWins(parts, n + 1, part.error);
        return Err(part.error);
      }
      seeds := seeds + SeedsOf(part.value);
    }
    assert parts[..|parts|] == parts;
    r := if Distinct(seeds) then Ok(Sorted(seeds)) else Err(RepeatsSeed);
  }

  lemma {:induction false} FirstErrorWins(parts: seq<string>, n: nat, e: SeedError)
    requires n <= |parts| && ParseParts(parts[..n]) == Err(e)
    ensures ParseParts(parts) == Err(e)
    decreases |parts| - n
  {
    if n < |parts| {
      assert parts[..n + 1][..n] == parts[..n];
      FirstErrorWins(parts, n + 1, e);
    } else {
      assert parts[..n] == parts;
    }
  }

  // -- Writing ----------------------------------------------------------------------------------

  /** The maximal runs of consecutive seeds. */
  function RunsOf(s: seq<nat>): (runs: seq<Run>)
    ensures s != [] ==> runs != [] && runs[|runs| - 1].hi == s[|s| - 1]
    ensures forall i :: 0 <= i < |runs| ==> runs[i].lo <= runs[i].hi
  {
    if s == [] then []
    else
      var x := s[|s| - 1];
      var runs := RunsOf(s[..|s| - 1]);
      if runs != [] && x == runs[|runs| - 1].hi + 1 then runs[..|runs| - 1] + [Run(runs[|runs| - 1].lo, x)]
      else runs + [Run(x, x)]
  }

  function RunText(run: Run): string {
    if run.lo == run.hi then Decimal(run.lo) else Decimal(run.lo) + "-" + Decimal(run.hi)
  }

  function RunTexts(runs: seq<Run>): seq<string> {
    seq(|runs|, i requires 0 <= i < |runs| => RunText(runs[i]))
  }

  function Formatted(seeds: seq<nat>): string {
    Join(RunTexts(RunsOf(Sorted(seeds))))
  }

  /** All runs but the last are written, and the last is open. */
  predicate Writing(runs: seq<Run>, parts: seq<string>, run: Run) {
    runs != [] && run == runs[|runs| - 1] && parts == RunTexts(runs[..|runs| - 1])
  }

  lemma RunCloses(runs: seq<Run>, parts: seq<string>, run: Run)
    requires Writing(runs, parts, run)
    ensures parts + [RunText(run)] == RunTexts(runs)
  {}

  lemma NextSeed(s: seq<nat>, parts: seq<string>, run: Run, seed: nat)
    requires Writing(RunsOf(s), parts, run)
    ensures seed == run.hi + 1 ==> Writing(RunsOf(s + [seed]), parts, Run(run.lo, seed))
    ensures seed != run.hi + 1 ==> Writing(RunsOf(s + [seed]), parts + [RunText(run)], Run(seed, seed))
  {
    var before, after := RunsOf(s), RunsOf(s + [seed]);
    assert (s + [seed])[..|s|] == s;
    if seed == run.hi + 1 {
      assert after == before[..|before| - 1] + [Run(run.lo, seed)];
      assert after[..|after| - 1] == before[..|before| - 1];
    } else {
      RunCloses(before, parts, run);
      assert after == before + [Run(seed, seed)];
      assert after[..|after| - 1] == before;
    }
  }

  lemma FirstSeed(seed: nat)
    ensures Writing(RunsOf([seed]), [], Run(seed, seed))
  {
    assert [seed][..0] == [];
    assert RunsOf([seed]) == [Run(seed, seed)];
  }

  lemma NothingToWrite()
    ensures RunTexts(RunsOf([])) == []
  {}

  method FormatSeedRange(seeds: seq<nat>) returns (text: string)
    ensures text == Formatted(seeds)
  {
    hide Writing, RunsOf, RunTexts, Join, Sorted;
    var sorted := Sorted(seeds);
    var parts: seq<string> := [];
    if sorted == [] {
      NothingToWrite();
      return Join(parts);
    }
    var run := Run(sorted[0], sorted[0]);
    FirstSeed(sorted[0]);
    assert sorted[..1] == [sorted[0]];
    for n := 1 to |sorted|
      invariant Writing(RunsOf(sorted[..n]), parts, run)
    {
      var seed := sorted[n];
      assert sorted[..n + 1] == sorted[..n] + [seed];
      NextSeed(sorted[..n], parts, run, seed);
      if seed == run.hi + 1 {
        run := Run(run.lo, seed);
      } else {
        parts := parts + [RunText(run)];
        run := Run(seed, seed);
      }
    }
    assert sorted[..|sorted|] == sorted;
    RunCloses(RunsOf(sorted), parts, run);
    text := Join(parts + [RunText(run)]);
  }

  // -- The round trip ---------------------------------------------------------------------------

  lemma {:induction false} RunsFlatten(s: seq<nat>)
    ensures Flatten(RunsOf(s)) == s
  {
    if s != [] {
      var x := s[|s| - 1];
      RunsFlatten(s[..|s| - 1]);
      FlattenNext(RunsOf(s[..|s| - 1]), x);
      assert s == s[..|s| - 1] + [x];
    }
  }

  /** A seed that opens a run, or lengthens the last. */
  lemma FlattenNext(runs: seq<Run>, x: nat)
    requires forall i :: 0 <= i < |runs| ==> runs[i].lo <= runs[i].hi
    ensures Flatten(runs + [Run(x, x)]) == Flatten(runs) + [x]
    ensures runs != [] && x == runs[|runs| - 1].hi + 1 ==>
              Flatten(runs[..|runs| - 1] + [Run(runs[|runs| - 1].lo, x)]) == Flatten(runs) + [x]
  {
    FlattenAppends(runs, Run(x, x));
    assert SeedsOf(Run(x, x)) == [x];
    if runs != [] && x == runs[|runs| - 1].hi + 1 { FlattenLengthens(runs, x); }
  }

  lemma FlattenLengthens(runs: seq<Run>, x: nat)
    requires runs != [] && runs[|runs| - 1].lo <= runs[|runs| - 1].hi && x == runs[|runs| - 1].hi + 1
    ensures Flatten(runs[..|runs| - 1] + [Run(runs[|runs| - 1].lo, x)]) == Flatten(runs) + [x]
  {
    var init, last := runs[..|runs| - 1], runs[|runs| - 1];
    FlattenAppends(init, Run(last.lo, x));
    SeedsLengthen(last, x);
    var a, b := Flatten(init), SeedsOf(last);
    assert a + (b + [x]) == (a + b) + [x];
  }

  lemma SeedsLengthen(run: Run, x: nat)
    requires run.lo <= run.hi && x == run.hi + 1
    ensures SeedsOf(Run(run.lo, x)) == SeedsOf(run) + [x]
  {}

  lemma FlattenAppends(runs: seq<Run>, run: Run)
    ensures Flatten(runs + [run]) == Flatten(runs) + SeedsOf(run)
  {
    assert (runs + [run])[..|runs|] == runs;
  }

  lemma DigitsAreSolid(s: string)
    requires IsDigits(s)
    ensures Strip(s) == s && ',' !in s && '-' !in s
  {
    assert !IsBlank(s[0]) && !IsBlank(s[|s| - 1]);
  }

  lemma PartOfRun(run: Run)
    requires run.lo <= run.hi
    ensures ParsePart(RunText(run)) == Ok(run) && ',' !in RunText(run) && RunText(run) != "" && !IsBlank(RunText(run)[0])
  {
    hide ParsePart, Strip;
    if run.lo == run.hi { PartOfSeed(run.lo); } else { PartOfSpan(run.lo, run.hi); }
  }

  lemma PartOfSeed(seed: nat)
    ensures var text := Decimal(seed);
            ParsePart(text) == Ok(Run(seed, seed)) && ',' !in text && text != "" && !IsBlank(text[0])
  {
    var text := Decimal(seed);
    DecimalDigits(seed);
    DigitsAreSolid(text);
    assert IsDigit(text[0]) && IsDigit(text[|text| - 1]);
    assert Strip(text) == text;
    FindNone(text, '-');
    assert text[..|text|] == text;
  }

  lemma PartOfSpan(from: nat, to: nat)
    requires from < to
    ensures var text := Decimal(from) + "-" + Decimal(to);
            ParsePart(text) == Ok(Run(from, to)) && ',' !in text && text != "" && !IsBlank(text[0])
  {
    hide IsDigits, Strip, Find, Denoted;
    var lo, hi := Decimal(from), Decimal(to);
    DecimalDigits(from);
    DecimalDigits(to);
    DigitsAreSolid(lo);
    DigitsAreSolid(hi);
    SpanSplits(lo, hi);
  }

  lemma SpanSplits(lo: string, hi: string)
    requires IsDigits(lo) && IsDigits(hi)
    ensures var text := lo + "-" + hi;
            && Strip(text) == text && ',' !in text && !IsBlank(text[0])
            && Find(text, '-') == |lo| && text[..|lo|] == lo && text[|lo| + 1..] == hi
  {
    var text := lo + "-" + hi;
    assert text[0] == lo[0] && text[|text| - 1] == hi[|hi| - 1];
    DigitsAreSolid(lo);
    DigitsAreSolid(hi);
    FindAfter(lo, '-', hi);
    assert text == lo + ['-'] + hi;
  }

  lemma {:induction false} PartsOfRuns(runs: seq<Run>)
    requires forall i :: 0 <= i < |runs| ==> runs[i].lo <= runs[i].hi
    ensures ParseParts(RunTexts(runs)) == Ok(Flatten(runs))
  {
    if runs != [] {
      var n := |runs| - 1;
      PartsOfRuns(runs[..n]);
      PartOfRun(runs[n]);
      assert RunTexts(runs)[..n] == RunTexts(runs[..n]) && RunTexts(runs)[n] == RunText(runs[n]);
    }
  }

  lemma NoCommas(runs: seq<Run>)
    requires forall i :: 0 <= i < |runs| ==> runs[i].lo <= runs[i].hi
    ensures forall i :: 0 <= i < |runs| ==> ',' !in RunTexts(runs)[i]
  {
    forall i | 0 <= i < |runs| ensures ',' !in RunTexts(runs)[i] { PartOfRun(runs[i]); }
  }

  /** What is written reads back as the same seeds in order, exactly when there is a seed and none
      repeats. */
  lemma FormatParses(seeds: seq<nat>)
    ensures Parsed(Formatted(seeds)) == if seeds == [] then Err(EmptyText)
                                        else if Distinct(seeds) then Ok(Sorted(seeds)) else Err(RepeatsSeed)
    ensures seeds == [] <==> Formatted(seeds) == ""
  {
    var sorted := Sorted(seeds);
    var runs := RunsOf(sorted);
    SameCountsSameDistinct(seeds, sorted);
    assert |sorted| == |multiset(sorted)| == |multiset(seeds)| == |seeds|;
    if seeds != [] {
      PartsOfRuns(runs);
      NoCommas(runs);
      RunsFlatten(sorted);
      SplitJoined(RunTexts(runs));
      SortedStays(sorted);
      NotBlank(runs);
    }
  }

  lemma NotBlank(runs: seq<Run>)
    requires runs != [] && forall i :: 0 <= i < |runs| ==> runs[i].lo <= runs[i].hi
    ensures Strip(Join(RunTexts(runs))) != "" && Join(RunTexts(runs)) != ""
  {
    var text := Join(RunTexts(runs));
    PartOfRun(runs[0]);
    assert text[0] == RunText(runs[0])[0];
    FirstSurvives(text);
  }

  lemma {:induction false} FirstSurvives(s: string)
    requires s != "" && !IsBlank(s[0])
    ensures StripRight(s) != "" && Strip(s) != ""
  {
    if |s| > 1 && IsBlank(s[|s| - 1]) { FirstSurvives(s[..|s| - 1]); }
  }

  /** Reading gives distinct seeds in order, and writing them again changes nothing. */
  lemma ParseFormats(text: string)
    requires Parsed(text).Ok?
    ensures var seeds := Parsed(text).value;
            Ascending(seeds) && Distinct(seeds) && seeds != [] && Parsed(Formatted(seeds)) == Ok(seeds)
  {
    var raw := ParseParts(Split(text)).value;
    var seeds := Sorted(raw);
    SameCountsSameDistinct(raw, seeds);
    SomeSeed(Split(text));
    assert |seeds| == |multiset(seeds)| == |multiset(raw)| == |raw|;
    FormatParses(seeds);
    SortedStays(seeds);
  }

  lemma SomeSeed(parts: seq<string>)
    requires parts != [] && ParseParts(parts).Ok?
    ensures ParseParts(parts).value != []
  {}
}
