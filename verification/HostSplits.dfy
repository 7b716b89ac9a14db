/** How a campaign's seeds are shared out between hosts, and what an entry freezes of it. */
module HostSplits {
  import opened SeedRanges
  import opened Sequences
  import opened Wrappers

  /** One line of a `hosts` table. */
  datatype HostRange = HostRange(host: string, text: string)

  datatype Share = Share(host: string, seeds: seq<nat>)

  datatype SplitError =
    | NoHosts
    | UnknownHost(host: string)
    | BadSeeds(host: string, error: SeedError)
    | SharedSeeds(first: string, second: string)

  predicate Disjoint(s: seq<nat>, t: seq<nat>) {
    forall x :: x in s ==> x !in t
  }

  /** One line on its own. */
  function ReadLine(line: HostRange, known: set<string>): Result<Share, SplitError> {
    if line.host !in known then Err(UnknownHost(line.host))
    else
      match Parsed(line.text)
      case Err(e) => Err(BadSeeds(line.host, e))
      case Ok(seeds) => Ok(Share(line.host, seeds))
  }

  predicate Reads(hosts: seq<HostRange>, known: set<string>, shares: seq<Share>) {
    |shares| == |hosts| && forall i :: 0 <= i < |hosts| ==> ReadLine(hosts[i], known) == Ok(shares[i])
  }

  predicate PairwiseDisjoint(shares: seq<Share>) {
    forall i, j :: 0 <= i < j < |shares| ==> Disjoint(shares[i].seeds, shares[j].seeds)
  }

  lemma ReadsNext(hosts: seq<HostRange>, n: nat, known: set<string>, shares: seq<Share>, share: Share)
    requires n < |hosts| && Reads(hosts[..n], known, shares) && ReadLine(hosts[n], known) == Ok(share)
    ensures Reads(hosts[..n + 1], known, shares + [share])
  {
    forall i | 0 <= i < n + 1 ensures ReadLine(hosts[..n + 1][i], known) == Ok((shares + [share])[i]) {
      assert hosts[..n + 1][i] == hosts[i];
      if i < n { assert hosts[..n][i] == hosts[i] && (shares + [share])[i] == shares[i]; }
    }
  }

  /** A line on its own: a host that is known, and seeds that read. */
  predicate Sound(line: HostRange, known: set<string>) {
    line.host in known && Parsed(line.text).Ok?
  }

  /** Line `i` is the first that is not, and what is wrong with it. */
  predicate RefusedAt(hosts: seq<HostRange>, known: set<string>, i: nat, error: SplitError)
    requires i < |hosts|
  {
    && (forall j :: 0 <= j < i ==> Sound(hosts[j], known))
    && ((hosts[i].host !in known && error == UnknownHost(hosts[i].host))
        || (hosts[i].host in known && exists e :: Parsed(hosts[i].text) == Err(e) && error == BadSeeds(hosts[i].host, e)))
  }

  /** Lines that are all sound, two of which share a seed. */
  ghost predicate RefusedTogether(hosts: seq<HostRange>, known: set<string>, error: SplitError) {
    && (forall i :: 0 <= i < |hosts| ==> Sound(hosts[i], known))
    && exists i, j, x ::
         0 <= i < j < |hosts| && Lists(hosts[i], x) && Lists(hosts[j], x) && error == SharedSeeds(hosts[i].host, hosts[j].host)
  }

  predicate Lists(line: HostRange, seed: nat) {
    Parsed(line.text).Ok? && seed in Parsed(line.text).value
  }

  /** The share of a line. */
  predicate ShareOf(line: HostRange, share: Share) {
    share.host == line.host && Parsed(line.text) == Ok(share.seeds)
  }

  /** Reads the table line by line, up to the first line that is wrong on its own. */
  method ReadShares(hosts: seq<HostRange>, known: set<string>) returns (r: Result<seq<Share>, SplitError>)
    ensures r.Ok? ==> Reads(hosts, known, r.value)
    ensures r.Err? ==> exists i :: 0 <= i < |hosts| && RefusedAt(hosts, known, i, r.error)
  {
    var shares: seq<Share> := [];
    assert hosts[..0] == [];
    for n := 0 to |hosts|
      invariant Reads(hosts[..n], known, shares)
    {
      var line := ReadLine(hosts[n], known);
      if line.Err? {
        forall j | 0 <= j < n ensures Sound(hosts[j], known) {
          assert hosts[..n][j] == hosts[j] && ReadLine(hosts[..n][j], known) == Ok(shares[j]);
        }
        assert RefusedAt(hosts, known, n, line.error);
        return Err(line.error);
      }
      ReadsNext(hosts, n, known, shares, line.value);
      shares := shares + [line.value];
    }
    assert hosts[..|hosts|] == hosts;
    r := Ok(shares);
  }

  /** The first pair of shares, if any, with a seed in common. */
  method Overlap(shares: seq<Share>) returns (pair: Option<(nat, nat)>)
    ensures pair.None? <==> PairwiseDisjoint(shares)
    ensures pair.Some? ==> pair.value.0 < pair.value.1 < |shares|
                           && exists x :: x in shares[pair.value.0].seeds && x in shares[pair.value.1].seeds
  {
    for i := 0 to |shares|
      invariant forall a, b :: 0 <= a < i && a < b < |shares| ==> Disjoint(shares[a].seeds, shares[b].seeds)
    {
      for j := i + 1 to |shares|
        invariant forall b :: i < b < j ==> Disjoint(shares[i].seeds, shares[b].seeds)
      {
        if !Disjoint(shares[i].seeds, shares[j].seeds) {
          return Some((i, j));
        }
      }
    }
    pair := None;
  }

  lemma SharesAreLines(hosts: seq<HostRange>, known: set<string>, shares: seq<Share>)
    requires Reads(hosts, known, shares)
    ensures forall i :: 0 <= i < |hosts| ==> Sound(hosts[i], known) && ShareOf(hosts[i], shares[i])
  {
    forall i | 0 <= i < |hosts| ensures Sound(hosts[i], known) && ShareOf(hosts[i], shares[i]) {
      assert ReadLine(hosts[i], known) == Ok(shares[i]);
    }
  }

  lemma ApartLines(hosts: seq<HostRange>, known: set<string>, shares: seq<Share>)
    requires Reads(hosts, known, shares) && PairwiseDisjoint(shares)
    ensures forall i, j, x :: 0 <= i < j < |hosts| && Lists(hosts[i], x) ==> !Lists(hosts[j], x)
  {
    hide Parsed;
    SharesAreLines(hosts, known, shares);
    forall i, j, x | 0 <= i < j < |hosts| && Lists(hosts[i], x) ensures !Lists(hosts[j], x) {
      assert ShareOf(hosts[i], shares[i]) && ShareOf(hosts[j], shares[j]) && Disjoint(shares[i].seeds, shares[j].seeds);
    }
  }

  lemma SharedLines(hosts: seq<HostRange>, known: set<string>, shares: seq<Share>, i: nat, j: nat)
    requires Reads(hosts, known, shares) && i < j < |shares| && exists x :: x in shares[i].seeds && x in shares[j].seeds
    ensures RefusedTogether(hosts, known, SharedSeeds(shares[i].host, shares[j].host))
  {
    hide Parsed;
    SharesAreLines(hosts, known, shares);
    var x :| x in shares[i].seeds && x in shares[j].seeds;
    assert ShareOf(hosts[i], shares[i]) && ShareOf(hosts[j], shares[j]);
    assert Lists(hosts[i], x) && Lists(hosts[j], x);
  }

  /** A table is accepted exactly when it has a line, every line is sound on its own, and no two hosts
      share a seed. */
  method ParseHostSplit(hosts: seq<HostRange>, known: set<string>) returns (r: Result<seq<Share>, SplitError>)
    ensures r.Ok? ==> Reads(hosts, known, r.value) && PairwiseDisjoint(r.value)
    ensures r.Ok? ==> hosts != [] && |r.value| == |hosts|
                      && forall i :: 0 <= i < |hosts| ==> Sound(hosts[i], known) && ShareOf(hosts[i], r.value[i])
    ensures r.Ok? ==> forall i, j, x :: 0 <= i < j < |hosts| && Lists(hosts[i], x) ==> !Lists(hosts[j], x)
    ensures r == Err(NoHosts) <==> hosts == []
    ensures r.Err? && hosts != [] ==>
              RefusedTogether(hosts, known, r.error) || exists i :: 0 <= i < |hosts| && RefusedAt(hosts, known, i, r.error)
  {
    hide Reads, RefusedTogether, Sound, ShareOf, Lists, PairwiseDisjoint, Parsed;
    if hosts == [] {
      return Err(NoHosts);
    }
    r := ReadShares(hosts, known);
    if r.Err? {
      return;
    }
    var shares := r.value;
    SharesAreLines(hosts, known, shares);
    var pair := Overlap(shares);
    if pair.None? {
      ApartLines(hosts, known, shares);
    } else {
      SharedLines(hosts, known, shares, pair.value.0, pair.value.1);
      r := Err(SharedSeeds(shares[pair.value.0].host, shares[pair.value.1].host));
    }
  }

  // -- What an entry freezes --------------------------------------------------------------------

  datatype PhaseKind = RunPhase | ScorePhase

  /** A phase, with its own split of the seeds where it narrows the campaign's. */
  datatype Phase = Phase(name: string, kind: PhaseKind, split: Option<seq<Share>>)

  datatype Campaign = Campaign(shares: seq<Share>, phases: seq<Phase>)

  /** A host's seeds in a split; a host the split omits has none. */
  function SeedsOfHost(shares: seq<Share>, host: string): seq<nat> {
    if shares == [] then [] else if shares[0].host == host then shares[0].seeds else SeedsOfHost(shares[1..], host)
  }

  /** A phase's own split decides alone where it has one: an absent host runs nowhere. */
  function PhaseSeeds(phase: Phase, host: string, own: seq<nat>): seq<nat> {
    if phase.split.None? then own else SeedsOfHost(phase.split.value, host)
  }

  /** The seed texts of one host's entry: the campaign's, and one per phase. */
  datatype Frozen = Frozen(seeds: string, phaseSeeds: seq<string>)

  function Freeze(campaign: Campaign, host: string): Frozen {
    var own := SeedsOfHost(campaign.shares, host);
    Frozen(Formatted(own),
           seq(|campaign.phases|, k requires 0 <= k < |campaign.phases| =>
             Formatted(PhaseSeeds(campaign.phases[k], host, own))))
  }

  /** The text a phase runs on; an entry without one for the phase falls back to the campaign's. */
  function EntryPhaseSeeds(frozen: Frozen, k: nat): string {
    if k < |frozen.phaseSeeds| then frozen.phaseSeeds[k] else frozen.seeds
  }

  /** Shares as accepted by `ParseHostSplit`. */
  ghost predicate Accepted(shares: seq<Share>) {
    && PairwiseDisjoint(shares)
    && forall i :: 0 <= i < |shares| ==> Ascending(shares[i].seeds) && Distinct(shares[i].seeds) && shares[i].seeds != []
  }

  lemma ReadsAccepted(hosts: seq<HostRange>, known: set<string>, shares: seq<Share>)
    requires Reads(hosts, known, shares) && PairwiseDisjoint(shares)
    ensures Accepted(shares)
  {
    forall i | 0 <= i < |shares|
      ensures Ascending(shares[i].seeds) && Distinct(shares[i].seeds) && shares[i].seeds != []
    {
      assert ReadLine(hosts[i], known) == Ok(shares[i]);
      ParseFormats(hosts[i].text);
    }
  }

  ghost predicate WellSplit(campaign: Campaign) {
    && Accepted(campaign.shares)
    && forall k :: 0 <= k < |campaign.phases| && campaign.phases[k].split.Some? ==> Accepted(campaign.phases[k].split.value)
  }

  lemma {:induction false} HostSeedsAre(shares: seq<Share>, host: string)
    requires Accepted(shares)
    ensures SeedsOfHost(shares, host) == [] || exists i :: 0 <= i < |shares| && shares[i] == Share(host, SeedsOfHost(shares, host))
    ensures Ascending(SeedsOfHost(shares, host)) && Distinct(SeedsOfHost(shares, host))
  {
    if shares != [] && shares[0].host != host {
      HostSeedsAre(shares[1..], host);
      if SeedsOfHost(shares, host) != [] {
        var i :| 0 <= i < |shares| - 1 && shares[1..][i] == Share(host, SeedsOfHost(shares, host));
        assert shares[i + 1] == shares[1..][i];
      }
    }
  }

  lemma HostsDisjoint(shares: seq<Share>, host: string, other: string)
    requires Accepted(shares) && host != other
    ensures Disjoint(SeedsOfHost(shares, host), SeedsOfHost(shares, other))
  {
    HostSeedsAre(shares, host);
    HostSeedsAre(shares, other);
    var s, t := SeedsOfHost(shares, host), SeedsOfHost(shares, other);
    if s != [] && t != [] {
      var i :| 0 <= i < |shares| && shares[i] == Share(host, s);
      var j :| 0 <= j < |shares| && shares[j] == Share(other, t);
      assert i != j;
    }
  }

  /** The seeds a split gives a host: those of its line, or none where it has no line. */
  ghost predicate Gives(shares: seq<Share>, host: string, seeds: seq<nat>) {
    || (exists i :: 0 <= i < |shares| && shares[i] == Share(host, seeds) && forall j :: 0 <= j < i ==> shares[j].host != host)
    || (seeds == [] && forall i :: 0 <= i < |shares| ==> shares[i].host != host)
  }

  lemma {:induction false} HostSeedsAreGiven(shares: seq<Share>, host: string, seeds: seq<nat>)
    requires Gives(shares, host, seeds)
    ensures seeds == SeedsOfHost(shares, host)
  {
    if shares != [] && shares[0].host != host {
      if i :| 0 <= i < |shares| && shares[i] == Share(host, seeds) && forall j :: 0 <= j < i ==> shares[j].host != host {
        assert shares[1..][i - 1] == shares[i] && forall j :: 0 <= j < i - 1 ==> shares[1..][j] == shares[j + 1];
      } else {
        assert forall i :: 0 <= i < |shares| - 1 ==> shares[1..][i] == shares[i + 1];
      }
      HostSeedsAreGiven(shares[1..], host, seeds);
    }
  }

  /** A frozen text reads back as the seeds a phase gives a host: by its own split alone where it has one,
      by the campaign's where not. It is empty when there are none. */
  lemma FrozenTextReads(campaign: Campaign, host: string, k: nat, seeds: seq<nat>)
    requires WellSplit(campaign) && k < |campaign.phases|
    requires Gives(if campaign.phases[k].split.Some? then campaign.phases[k].split.value else campaign.shares, host, seeds)
    ensures var text := EntryPhaseSeeds(Freeze(campaign, host), k);
      && (text == "" <==> seeds == [])
      && (text != "" ==> Parsed(text) == Ok(seeds))
  {
    var own := SeedsOfHost(campaign.shares, host);
    HostSeedsAre(campaign.shares, host);
    if campaign.phases[k].split.Some? {
      HostSeedsAre(campaign.phases[k].split.value, host);
      HostSeedsAreGiven(campaign.phases[k].split.value, host, seeds);
    } else {
      HostSeedsAreGiven(campaign.shares, host, seeds);
    }
    FormatParses(seeds);
    SortedStays(seeds);
  }

  lemma {:induction false} SomeSeeds(shares: seq<Share>, host: string)
    ensures Gives(shares, host, SeedsOfHost(shares, host))
  {
    if shares == [] {
    } else if shares[0].host == host {
      assert shares[0] == Share(host, shares[0].seeds);
    } else {
      SomeSeeds(shares[1..], host);
      assert forall i :: 0 <= i < |shares| - 1 ==> shares[1..][i] == shares[i + 1];
      if i :| 0 <= i < |shares| - 1 && shares[1..][i] == Share(host, SeedsOfHost(shares, host))
              && forall j :: 0 <= j < i ==> shares[1..][j].host != host {
        assert shares[i + 1] == Share(host, SeedsOfHost(shares, host));
        assert forall j :: 0 <= j < i + 1 ==> shares[j].host != host;
      } else {
        assert forall i :: 0 <= i < |shares| ==> shares[i].host != host;
      }
    }
  }

  /** The frozen text, whatever the seeds are. */
  lemma FrozenTextIs(campaign: Campaign, host: string, k: nat)
    requires WellSplit(campaign) && k < |campaign.phases|
    ensures var seeds := PhaseSeeds(campaign.phases[k], host, SeedsOfHost(campaign.shares, host));
            var text := EntryPhaseSeeds(Freeze(campaign, host), k);
      && (text == "" <==> seeds == [])
      && (text != "" ==> Parsed(text) == Ok(seeds))
  {
    var split := if campaign.phases[k].split.Some? then campaign.phases[k].split.value else campaign.shares;
    SomeSeeds(split, host);
    FrozenTextReads(campaign, host, k, SeedsOfHost(split, host));
  }

  /** Two hosts never run one seed in one phase. */
  lemma FrozenTextsDisjoint(campaign: Campaign, host: string, other: string, k: nat)
    requires WellSplit(campaign) && k < |campaign.phases| && host != other
    requires EntryPhaseSeeds(Freeze(campaign, host), k) != "" && EntryPhaseSeeds(Freeze(campaign, other), k) != ""
    ensures var s, t := Parsed(EntryPhaseSeeds(Freeze(campaign, host), k)), Parsed(EntryPhaseSeeds(Freeze(campaign, other), k));
            s.Ok? && t.Ok? && Disjoint(s.value, t.value)
  {
    FrozenTextIs(campaign, host, k);
    FrozenTextIs(campaign, other, k);
    HostsDisjoint(campaign.shares, host, other);
    if campaign.phases[k].split.Some? { HostsDisjoint(campaign.phases[k].split.value, host, other); }
  }
}
